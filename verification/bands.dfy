/** The loop both background drawers share: `for (i = s; i <= e; i++) draw(i)`, where each
    round either draws one band, skips a measure without a stave, or throws — possibly after
    the band element was already attached. */
module Bands {
  import opened Common
  import opened Dom
  import opened Score

  /** The last measure of row i has a stave. */
  predicate StaveAt(g: Option<Score>, i: int) {
    g.Some? && 0 <= i < |g.value.grid| && |g.value.grid[i]| > 0
    && g.value.grid[i][|g.value.grid[i]| - 1].stave.Some?
  }

  /** Round i of drawMeasureBackGround can complete: row i exists and is not empty, and if its
      last measure has a stave, that measure's system has stave lines. */
  predicate BandOk(g: Option<Score>, i: int) {
    g.Some? && 0 <= i < |g.value.grid| && |g.value.grid[i]| > 0
    && (StaveAt(g, i) ==> |g.value.grid[i][|g.value.grid[i]| - 1].parent.staffLines| > 0)
  }

  /** A colour is given when it is neither null, undefined nor the empty string. */
  predicate HasColor(color: Nullable<string>) {
    color.Present? && color.value != ""
  }

  /** What one round of the drawing loop does. */
  datatype DrawResult =
    | Drawn(item: Item)
    | Skipped
      /** The round threw a TypeError; `attached` is what it appended before throwing. */
    | Failed(attached: seq<Item>)

  /** The items the loop appends from index i to e, and the exception that stopped it; a
      loop that runs to the end has appended the bands of the drawing rounds, in order. */
  function DrawRange(draw: int -> DrawResult, i: int, e: int): (r: (seq<Item>, Option<Error>))
    ensures r.1.Some? ==> r.1.value == TypeError
    ensures r.1.None? ==> r.0 == DrawnItems(draw, i, e)
    decreases if i <= e then e - i + 1 else 0
  {
    if i > e then ([], None)
    else
      match draw(i)
      case Skipped => DrawRange(draw, i + 1, e)
      case Drawn(it) =>
        var (rest, t) := DrawRange(draw, i + 1, e);
        ([it] + rest, t)
      case Failed(att) => (att, Some(TypeError))
  }

  /** The indices of i..e whose round draws a band, ascending. */
  function DrawnIndices(draw: int -> DrawResult, i: int, e: int): (r: seq<int>)
    decreases if i <= e then e - i + 1 else 0
  {
    if i > e then []
    else if draw(i).Drawn? then [i] + DrawnIndices(draw, i + 1, e)
    else DrawnIndices(draw, i + 1, e)
  }

  /** The bands of those indices, in the same order. */
  function DrawnItems(draw: int -> DrawResult, i: int, e: int): (r: seq<Item>)
    decreases if i <= e then e - i + 1 else 0
  {
    if i > e then []
    else if draw(i).Drawn? then [draw(i).item] + DrawnItems(draw, i + 1, e)
    else DrawnItems(draw, i + 1, e)
  }

  /** DrawnIndices lists, in strictly ascending order, exactly the indices in i..e that draw,
      and DrawnItems holds their bands. */
  lemma {:induction false} DrawnIndicesSpec(draw: int -> DrawResult, i: int, e: int)
    ensures var ix := DrawnIndices(draw, i, e);
      && (forall k, l :: 0 <= k < l < |ix| ==> ix[k] < ix[l])
      && (forall j :: j in ix <==> i <= j <= e && draw(j).Drawn?)
      && |DrawnItems(draw, i, e)| == |ix|
      && (forall k :: 0 <= k < |ix| ==> draw(ix[k]).Drawn? && DrawnItems(draw, i, e)[k] == draw(ix[k]).item)
    decreases if i <= e then e - i + 1 else 0
  {
    if i <= e {
      DrawnIndicesSpec(draw, i + 1, e);
      var rest := DrawnIndices(draw, i + 1, e);
      var items := DrawnItems(draw, i + 1, e);
      if draw(i).Drawn? {
        var ix := [i] + rest;
        forall k, l | 0 <= k < l < |ix|
          ensures ix[k] < ix[l]
        {
          assert ix[l] == rest[l - 1] && rest[l - 1] in rest;
          if k > 0 {
            assert ix[k] == rest[k - 1];
          }
        }
        forall k | 0 <= k < |ix|
          ensures draw(ix[k]).Drawn? && DrawnItems(draw, i, e)[k] == draw(ix[k]).item
        {
          if k > 0 {
            assert ix[k] == rest[k - 1];
            assert DrawnItems(draw, i, e)[k] == items[k - 1];
          }
        }
      }
    }
  }

  /** Index f is the first round in i..e that throws. */
  predicate FirstFailure(draw: int -> DrawResult, i: int, e: int, f: int) {
    i <= f <= e && draw(f).Failed? && forall j :: i <= j < f ==> !draw(j).Failed?
  }

  /** Without a throwing round the loop runs to the end and appends the bands of the drawing
      indices in ascending order. */
  lemma {:induction false} DrawRangeCompletes(draw: int -> DrawResult, i: int, e: int)
    requires forall j :: i <= j <= e ==> !draw(j).Failed?
    ensures DrawRange(draw, i, e) == (DrawnItems(draw, i, e), None)
    decreases if i <= e then e - i + 1 else 0
  {
    if i <= e {
      assert !draw(i).Failed?;
      DrawRangeCompletes(draw, i + 1, e);
    }
  }

  /** The loop stops at the first throwing round f, keeping the bands before it and whatever
      that round had attached. */
  lemma {:induction false} DrawRangeStopsAt(draw: int -> DrawResult, i: int, e: int, f: int)
    requires FirstFailure(draw, i, e, f)
    ensures DrawRange(draw, i, e) == (DrawnItems(draw, i, f - 1) + draw(f).attached, Some(TypeError))
    decreases f - i
  {
    if i == f {
      assert DrawnItems(draw, i, f - 1) == [];
      assert DrawnItems(draw, i, f - 1) + draw(f).attached == draw(f).attached;
    } else {
      assert !draw(i).Failed?;
      assert FirstFailure(draw, i + 1, e, f);
      DrawRangeStopsAt(draw, i + 1, e, f);
      var (rest, t) := DrawRange(draw, i + 1, e);
      if draw(i).Drawn? {
        assert DrawnItems(draw, i, f - 1) == [draw(i).item] + DrawnItems(draw, i + 1, f - 1);
        assert DrawRange(draw, i, e) == ([draw(i).item] + rest, t);
        assert [draw(i).item] + rest == [draw(i).item] + DrawnItems(draw, i + 1, f - 1) + draw(f).attached;
      } else {
        assert DrawnItems(draw, i, f - 1) == DrawnItems(draw, i + 1, f - 1);
        assert DrawRange(draw, i, e) == (rest, t);
      }
    }
  }

  /** A range with a throwing round has a first one. */
  lemma {:induction false} FirstFailureExists(draw: int -> DrawResult, i: int, e: int, j: int)
    requires i <= j <= e && draw(j).Failed?
    ensures exists f :: FirstFailure(draw, i, e, f)
    decreases j - i
  {
    if draw(i).Failed? {
      assert FirstFailure(draw, i, e, i);
    } else {
      FirstFailureExists(draw, i + 1, e, j);
      var f :| FirstFailure(draw, i + 1, e, f);
      assert FirstFailure(draw, i, e, f);
    }
  }

  /** The loop runs to the end exactly when no round throws, and then appends the bands of the
      drawing indices in ascending order. Otherwise it stops at the first throwing round,
      keeping the bands before it and whatever that round had attached. */
  lemma DrawRangeSpec(draw: int -> DrawResult, i: int, e: int)
    ensures DrawRange(draw, i, e).1.None? <==> forall j :: i <= j <= e ==> !draw(j).Failed?
    ensures DrawRange(draw, i, e).1.None? ==> DrawRange(draw, i, e).0 == DrawnItems(draw, i, e)
    ensures DrawRange(draw, i, e).1.Some? ==>
      exists f :: FirstFailure(draw, i, e, f) && DrawRange(draw, i, e).0 == DrawnItems(draw, i, f - 1) + draw(f).attached
  {
    if forall j :: i <= j <= e ==> !draw(j).Failed? {
      DrawRangeCompletes(draw, i, e);
    } else {
      var j :| i <= j <= e && draw(j).Failed?;
      FirstFailureExists(draw, i, e, j);
      var f :| FirstFailure(draw, i, e, f);
      DrawRangeStopsAt(draw, i, e, f);
    }
  }

  /** The loop runs to the end exactly when no round throws. */
  lemma DrawRangeThrows(draw: int -> DrawResult, i: int, e: int)
    ensures DrawRange(draw, i, e).1.None? <==> forall j :: i <= j <= e ==> !draw(j).Failed?
  {
    DrawRangeSpec(draw, i, e);
  }

  /** A loop that runs to the end appends the bands of the drawing rounds, one per round. */
  lemma DrawRangeItems(draw: int -> DrawResult, i: int, e: int)
    ensures DrawRange(draw, i, e).1.None? ==>
      var items := DrawRange(draw, i, e).0; var ix := DrawnIndices(draw, i, e);
      |items| == |ix| && forall k :: 0 <= k < |ix| ==> draw(ix[k]).Drawn? && items[k] == draw(ix[k]).item
  {
    if DrawRange(draw, i, e).1.None? {
      DrawRangeSpec(draw, i, e);
      DrawnIndicesSpec(draw, i, e);
    }
  }

  /** Every element a round appends is of class c. */
  predicate OfClass(d: DrawResult, c: ClassName) {
    && (d.Drawn? ==> ClassOf(d.item) == c)
    && (d.Failed? ==> forall k :: 0 <= k < |d.attached| ==> ClassOf(d.attached[k]) == c)
  }

  /** When every round appends only elements of class c, so does the loop. */
  lemma {:induction false} DrawRangeOfClass(draw: int -> DrawResult, i: int, e: int, c: ClassName)
    requires forall j :: i <= j <= e ==> OfClass(draw(j), c)
    ensures forall k :: 0 <= k < |DrawRange(draw, i, e).0| ==> ClassOf(DrawRange(draw, i, e).0[k]) == c
    decreases if i <= e then e - i + 1 else 0
  {
    if i <= e {
      assert OfClass(draw(i), c);
      DrawRangeOfClass(draw, i + 1, e, c);
      var (items, t) := DrawRange(draw, i, e);
      var (rest, t') := DrawRange(draw, i + 1, e);
      match draw(i)
      case Skipped =>
      case Failed(att) =>
        assert items == att;
      case Drawn(it) =>
        assert ClassOf(it) == c;
        forall k | 0 <= k < |items|
          ensures ClassOf(items[k]) == c
        {
          if k > 0 {
            assert items[k] == rest[k - 1];
          }
        }
    }
  }
}
