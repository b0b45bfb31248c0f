/** Partial and full redraw of the measure grid. A redraw is described by the list of measures
    whose `draw` is called, in call order; the drawing itself belongs to VexFlow. */
module Redraw {
  import opened Common
  import opened Score

  /** The measures redrawMeasure(s, e) accepts: MeasureNumber in s+1 .. e+1 (measure numbers
      start at 1 while the indices passed in start at 0). */
  predicate InRange(m: Measure, s: int, e: int) {
    s + 1 <= m.number <= e + 1
  }

  /** The measures of xs in range, in their order. */
  function Select(xs: seq<Measure>, s: int, e: int): (r: seq<Measure>)
    ensures |r| <= |xs|
  {
    if xs == [] then []
    else if InRange(xs[0], s, e) then [xs[0]] + Select(xs[1..], s, e)
    else Select(xs[1..], s, e)
  }

  lemma {:induction false} SelectAppend(xs: seq<Measure>, ys: seq<Measure>, s: int, e: int)
    ensures Select(xs + ys, s, e) == Select(xs, s, e) + Select(ys, s, e)
  {
    if xs == [] {
      assert xs + ys == ys;
    } else {
      assert (xs + ys)[1..] == xs[1..] + ys;
      SelectAppend(xs[1..], ys, s, e);
    }
  }

  lemma {:induction false} SelectMembers(xs: seq<Measure>, s: int, e: int)
    ensures forall x :: x in Select(xs, s, e) <==> x in xs && InRange(x, s, e)
  {
    if xs != [] {
      SelectMembers(xs[1..], s, e);
      assert xs == [xs[0]] + xs[1..];
    }
  }

  /** A range that admits every measure selects everything. */
  lemma {:induction false} SelectAll(xs: seq<Measure>, s: int, e: int)
    requires forall i :: 0 <= i < |xs| ==> InRange(xs[i], s, e)
    ensures Select(xs, s, e) == xs
  {
    if xs != [] {
      SelectAll(xs[1..], s, e);
    }
  }

  lemma FlattenStep(grid: seq<seq<Measure>>, i: nat)
    requires i < |grid|
    ensures Flatten(grid[..i + 1]) == Flatten(grid[..i]) + grid[i]
  {
    FlattenSnoc(grid[..i], grid[i]);
    assert grid[..i] + [grid[i]] == grid[..i + 1];
  }

  lemma {:induction false} FlattenSnoc(grid: seq<seq<Measure>>, row: seq<Measure>)
    ensures Flatten(grid + [row]) == Flatten(grid) + row
  {
    if grid == [] {
      assert Flatten([row][1..]) == [];
    } else {
      assert (grid + [row])[1..] == grid[1..] + [row];
      FlattenSnoc(grid[1..], row);
    }
  }

  /** redrawAllMeasure: every measure is drawn once, row after row. */
  method RedrawAllMeasure(grid: seq<seq<Measure>>) returns (drawn: seq<Measure>)
    ensures drawn == Flatten(grid)
    ensures forall x :: x in drawn <==>
      exists i, j :: 0 <= i < |grid| && 0 <= j < |grid[i]| && grid[i][j] == x
  {
    drawn := [];
    var i := 0;
    while i < |grid|
      invariant 0 <= i <= |grid|
      invariant drawn == Flatten(grid[..i])
    {
      var row := grid[i];
      var j := 0;
      while j < |row|
        invariant 0 <= j <= |row|
        invariant drawn == Flatten(grid[..i]) + row[..j]
      {
        drawn := drawn + [row[j]];
        assert row[..j + 1] == row[..j] + [row[j]];
        j := j + 1;
      }
      assert row[..j] == row;
      FlattenStep(grid, i);
      i := i + 1;
    }
    assert grid[..i] == grid;
    FlattenMembers(grid);
  }

  /** redrawMeasure(s, e): exactly the measures numbered s+1 .. e+1, from every staff group,
      in row-major order. */
  method RedrawMeasure(grid: seq<seq<Measure>>, s: int, e: int) returns (drawn: seq<Measure>)
    ensures drawn == Select(Flatten(grid), s, e)
    ensures forall x :: x in drawn <==>
      InRange(x, s, e) && exists i, j :: 0 <= i < |grid| && 0 <= j < |grid[i]| && grid[i][j] == x
  {
    drawn := [];
    var i := 0;
    while i < |grid|
      invariant 0 <= i <= |grid|
      invariant drawn == Select(Flatten(grid[..i]), s, e)
    {
      var row := grid[i];
      var j := 0;
      while j < |row|
        invariant 0 <= j <= |row|
        invariant drawn == Select(Flatten(grid[..i]), s, e) + Select(row[..j], s, e)
      {
        assert row[..j + 1] == row[..j] + [row[j]];
        SelectAppend(row[..j], [row[j]], s, e);
        if InRange(row[j], s, e) {
          drawn := drawn + [row[j]];
        }
        j := j + 1;
      }
      assert row[..j] == row;
      FlattenStep(grid, i);
      SelectAppend(Flatten(grid[..i]), row, s, e);
      i := i + 1;
    }
    assert grid[..i] == grid;
    SelectMembers(Flatten(grid), s, e);
    FlattenMembers(grid);
  }

  /** redrawMeasure(s, e) on a viewer: reading MeasureList throws without a laid-out score,
      and without a drawer the first measure to draw throws, before anything is drawn; so
      without a drawer only a range that selects no measure completes. */
  function RedrawMeasureOn(g: Option<Score>, drawer: bool, s: int, e: int): (r: Result<seq<Measure>>)
    ensures r.Ok? <==> g.Some? && (drawer || forall i, j :: 0 <= i < |g.value.grid| && 0 <= j < |g.value.grid[i]| ==>
                                                 !InRange(g.value.grid[i][j], s, e))
    ensures r.Err? ==> r.error == TypeError
    ensures r.Ok? ==> forall x :: x in r.value <==>
      InRange(x, s, e) && exists i, j :: 0 <= i < |g.value.grid| && 0 <= j < |g.value.grid[i]| && g.value.grid[i][j] == x
  {
    if g.None? then Err(TypeError)
    else
      var drawn := Select(Flatten(g.value.grid), s, e);
      SelectMembers(Flatten(g.value.grid), s, e);
      FlattenMembers(g.value.grid);
      if !drawer && drawn != [] then
        assert drawn[0] in drawn;
        Err(TypeError)
      else Ok(drawn)
  }

  /** redrawAllMeasure on a viewer: as above, and without a drawer only an empty grid
      completes. */
  function RedrawAllMeasureOn(g: Option<Score>, drawer: bool): (r: Result<seq<Measure>>)
    ensures r.Ok? <==> g.Some? && (drawer || forall i :: 0 <= i < |g.value.grid| ==> g.value.grid[i] == [])
    ensures r.Err? ==> r.error == TypeError
    ensures r.Ok? ==> forall x :: x in r.value <==>
      exists i, j :: 0 <= i < |g.value.grid| && 0 <= j < |g.value.grid[i]| && g.value.grid[i][j] == x
  {
    if g.None? then Err(TypeError)
    else
      var drawn := Flatten(g.value.grid);
      FlattenMembers(g.value.grid);
      FlattenEmpty(g.value.grid);
      if !drawer && drawn != [] then
        assert drawn[0] in drawn;
        Err(TypeError)
      else Ok(drawn)
  }

  /** The grid flattens to nothing exactly when every row is empty. */
  lemma {:induction false} FlattenEmpty(grid: seq<seq<Measure>>)
    ensures Flatten(grid) == [] <==> forall i :: 0 <= i < |grid| ==> grid[i] == []
  {
    if grid != [] {
      FlattenEmpty(grid[1..]);
      assert forall i :: 1 <= i < |grid| ==> grid[i] == grid[1..][i - 1];
    }
  }

  /** When every measure number lies in s+1 .. e+1, the partial redraw is the full one. */
  lemma WideRangeRedrawsAll(grid: seq<seq<Measure>>, s: int, e: int)
    requires forall i, j :: 0 <= i < |grid| && 0 <= j < |grid[i]| ==> InRange(grid[i][j], s, e)
    ensures Select(Flatten(grid), s, e) == Flatten(grid)
  {
    FlattenMembers(grid);
    forall k | 0 <= k < |Flatten(grid)|
      ensures InRange(Flatten(grid)[k], s, e)
    {
      assert Flatten(grid)[k] in Flatten(grid);
    }
    SelectAll(Flatten(grid), s, e);
  }

  /** An empty range (e < s) draws nothing. */
  lemma {:induction false} EmptyRangeDrawsNothing(xs: seq<Measure>, s: int, e: int)
    requires e < s
    ensures Select(xs, s, e) == []
  {
    if xs != [] {
      EmptyRangeDrawsNothing(xs[1..], s, e);
    }
  }
}
