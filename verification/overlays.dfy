/** The overlays the viewer draws over the engraved score: clause labels with their registry,
    comment areas and texts, measure-background bands and stuck markers, each family with its
    own clear. An operation that throws part-way keeps what it appended before the throw, so
    the loops return an Outcome: the state reached and the exception, if any. */
module Overlays {
  import opened Common
  import opened Decimal
  import opened Dom
  import opened Score
  import opened Viewer
  import opened Bands

  datatype Outcome = Outcome(state: Osmd, thrown: Option<Error>)

  /** `this.graphic`, dereferenced. */
  function Graphic(v: Osmd): (r: Result<Score>)
    ensures r.Ok? <==> v.graphic.Some?
    ensures r.Ok? ==> r.value == v.graphic.value
    ensures r.Err? ==> r.error == TypeError
  {
    if v.graphic.Some? then Ok(v.graphic.value) else Err(TypeError)
  }

  // ---------------------------------------------------------------------------------------
  // Clause labels

  /** The caption of clause n: "第" + n + "分句". */
  function ClauseText(n: int): string {
    "第" + IntString(n) + "分句"
  }

  /** Distinct clause numbers get distinct captions. */
  lemma ClauseTextInjective(a: int, b: int)
    ensures ClauseText(a) == ClauseText(b) <==> a == b
  {
    if ClauseText(a) == ClauseText(b) {
      var t := ClauseText(a);
      assert t[1..|t| - 2] == IntString(a);
      assert ClauseText(b)[1..|t| - 2] == IntString(b);
      ParseIntString(a);
      ParseIntString(b);
    }
  }

  /** The label addClauseComment puts on measure m, captioned ClauseText(n): 12 units high,
      centred vertically on the top of the measure, left-aligned with it. */
  function ClauseLabelFor(meas: Measure, m: int, n: int, zoom: real): (it: Item)
    ensures it.ClauseLabel? && it.measure == m && it.number == n
    ensures it.left == Scale(meas.x, zoom) && it.top == Scale(meas.y, zoom) - 60.0 * zoom
  {
    var height := 12.0 * 10.0 * zoom;
    ClauseLabel(m, n, Scale(meas.x, zoom), Scale(meas.y, zoom) - height * 0.5)
  }

  /** addClauseComment(m, n): throws (appending nothing) unless the score has a row m with a
      first measure and, after that lookup, a drawer exists; otherwise one label is appended
      and nothing else changes. */
  function AddClauseComment(v: Osmd, m: int, n: int): (r: Result<Osmd>)
    ensures r.Ok? <==> v.graphic.Some? && 0 <= m < |v.graphic.value.grid| && |v.graphic.value.grid[m]| > 0 && v.drawer
    ensures r.Err? ==> r.error == TypeError
    ensures r.Ok? ==> r.value == v.(page := Append(v.page, ClauseLabelFor(v.graphic.value.grid[m][0], m, n, v.zoom)))
  {
    var sc :- Graphic(v);
    var meas :- MeasureAt(sc, m, 0);
    if !v.drawer then Err(TypeError)
    else Ok(v.(page := Append(v.page, ClauseLabelFor(meas, m, n, v.zoom))))
  }

  predicate NoDup(xs: seq<int>) {
    forall a, b :: 0 <= a < b < |xs| ==> xs[a] != xs[b]
  }

  /** The first position of x in xs. */
  function FirstIndex(xs: seq<int>, x: int): (r: nat)
    requires x in xs
    ensures r < |xs| && xs[r] == x
    ensures forall j :: 0 <= j < r ==> xs[j] != x
  {
    if xs[0] == x then 0 else 1 + FirstIndex(xs[1..], x)
  }

  /** The loop of addMultipleClauseComment from position i on: an index not yet registered is
      pushed onto the registry first and then labelled with its position + 1. If the label
      throws, the index stays registered without a label and the loop ends. */
  function AddClauses(v: Osmd, idx: seq<int>, i: nat): (r: Outcome)
    requires i <= |idx|
    decreases |idx| - i
  {
    if i == |idx| then Outcome(v, None)
    else if idx[i] in v.clauses then AddClauses(v, idx, i + 1)
    else
      var v1 := v.(clauses := v.clauses + [idx[i]]);
      match AddClauseComment(v1, idx[i], i + 1)
      case Err(e) => Outcome(v1, Some(e))
      case Ok(v2) => AddClauses(v2, idx, i + 1)
  }

  /** addMultipleClauseComment: null does nothing; undefined throws on `.length`. */
  function AddMultipleClauseComment(v: Osmd, input: Nullable<seq<int>>): (r: Outcome)
    ensures input.Null? ==> r == Outcome(v, None)
    ensures input.Undefined? ==> r == Outcome(v, Some(TypeError))
  {
    match input
    case Null => Outcome(v, None)
    case Undefined => Outcome(v, Some(TypeError))
    case Present(idx) => AddClauses(v, idx, 0)
  }

  /** The registry only grows at its end, by indices it did not hold; the score and zoom are
      untouched, and the only exception is a TypeError. */
  lemma {:induction false} RegistryGrows(v: Osmd, idx: seq<int>, i: nat)
    requires i <= |idx|
    ensures var r := AddClauses(v, idx, i);
      && r.state.graphic == v.graphic && r.state.zoom == v.zoom
      && |r.state.clauses| >= |v.clauses| && r.state.clauses[..|v.clauses|] == v.clauses
      && (forall k :: |v.clauses| <= k < |r.state.clauses| ==> r.state.clauses[k] !in v.clauses)
      && (r.thrown.Some? ==> r.thrown.value == TypeError)
    decreases |idx| - i
  {
    if i < |idx| {
      var x := idx[i];
      if x in v.clauses {
        RegistryGrows(v, idx, i + 1);
      } else {
        var v1 := v.(clauses := v.clauses + [x]);
        match AddClauseComment(v1, x, i + 1)
        case Err(e) =>
        case Ok(v2) =>
          RegistryGrows(v2, idx, i + 1);
          var r := AddClauses(v2, idx, i + 1).state;
          assert r.clauses[..|v1.clauses|] == v1.clauses;
          assert r.clauses[..|v.clauses|] == v1.clauses[..|v.clauses|];
          forall k | |v.clauses| <= k < |r.clauses|
            ensures r.clauses[k] !in v.clauses
          {
            if k == |v.clauses| {
              assert r.clauses[k] == v1.clauses[k];
            }
          }
      }
    }
  }

  /** A registry without repeats keeps none: an index is pushed only when absent. */
  lemma {:induction false} RegistryNoDup(v: Osmd, idx: seq<int>, i: nat)
    requires i <= |idx| && NoDup(v.clauses)
    ensures NoDup(AddClauses(v, idx, i).state.clauses)
    decreases |idx| - i
  {
    if i < |idx| {
      var x := idx[i];
      if x in v.clauses {
        RegistryNoDup(v, idx, i + 1);
      } else {
        var v1 := v.(clauses := v.clauses + [x]);
        assert NoDup(v1.clauses);
        match AddClauseComment(v1, x, i + 1)
        case Err(e) =>
        case Ok(v2) =>
          RegistryNoDup(v2, idx, i + 1);
      }
    }
  }

  /** Every index the registry gains comes from the input at or after position i, and without
      an exception every one of those ends up registered. */
  lemma {:induction false} RegistryMembers(v: Osmd, idx: seq<int>, i: nat)
    requires i <= |idx|
    ensures var r := AddClauses(v, idx, i);
      && (forall x :: x in r.state.clauses ==> x in v.clauses || x in idx[i..])
      && (r.thrown.None? ==> forall x :: x in idx[i..] ==> x in r.state.clauses)
    decreases |idx| - i
  {
    if i < |idx| {
      var x := idx[i];
      assert idx[i..] == [x] + idx[i + 1..];
      RegistryGrows(v, idx, i + 1);
      if x in v.clauses {
        RegistryMembers(v, idx, i + 1);
        var r := AddClauses(v, idx, i + 1).state;
        assert x in r.clauses[..|v.clauses|];
      } else {
        var v1 := v.(clauses := v.clauses + [x]);
        match AddClauseComment(v1, x, i + 1)
        case Err(e) =>
        case Ok(v2) =>
          RegistryMembers(v2, idx, i + 1);
          RegistryGrows(v2, idx, i + 1);
          var r := AddClauses(v2, idx, i + 1).state;
          assert x in r.clauses[..|v2.clauses|];
          forall y | y in v.clauses
            ensures y in r.clauses
          {
            assert y in r.clauses[..|v2.clauses|];
          }
      }
    }
  }

  /** The label of a registered index x: a clause label on measure x numbered by x's first
      position in the input, plus one. */
  predicate Labels(it: Item, x: int, idx: seq<int>) {
    x in idx && it.ClauseLabel? && it.measure == x && it.number == FirstIndex(idx, x) + 1
  }

  /** The labels are appended after what was on the page, one per newly registered index,
      except that an exception leaves the last registered index unlabelled. */
  lemma {:induction false} LabelsAppended(v: Osmd, idx: seq<int>, i: nat)
    requires i <= |idx|
    ensures var r := AddClauses(v, idx, i); var n0 := |v.page.nodes|;
      && |r.state.page.nodes| >= n0 && r.state.page.nodes[..n0] == v.page.nodes
      && |r.state.page.nodes| - n0 == |r.state.clauses| - |v.clauses| - (if r.thrown.Some? then 1 else 0)
    decreases |idx| - i
  {
    if i < |idx| {
      var x := idx[i];
      if x in v.clauses {
        LabelsAppended(v, idx, i + 1);
      } else {
        var v1 := v.(clauses := v.clauses + [x]);
        match AddClauseComment(v1, x, i + 1)
        case Err(e) =>
        case Ok(v2) =>
          LabelsAppended(v2, idx, i + 1);
          var r := AddClauses(v2, idx, i + 1).state;
          assert r.page.nodes[..|v.page.nodes|] == v2.page.nodes[..|v.page.nodes|];
      }
    }
  }

  /** Page element k (counted from n0) is the label of registry entry c0 + (k - n0). */
  predicate LabelAt(r: Osmd, n0: nat, c0: nat, k: nat, idx: seq<int>)
    requires n0 <= k < |r.page.nodes|
  {
    c0 + (k - n0) < |r.clauses| && Labels(r.page.nodes[k].item, r.clauses[c0 + (k - n0)], idx)
  }

  /** The first position of x is i when x sits at i and nowhere before it. */
  lemma FirstIndexAt(xs: seq<int>, x: int, i: nat)
    requires i < |xs| && xs[i] == x
    requires forall j :: 0 <= j < i ==> xs[j] != x
    ensures FirstIndex(xs, x) == i
  {
  }

  /** The first label a round appends is the label of the index it registered. */
  lemma {:induction false} FirstNewLabel(v: Osmd, idx: seq<int>, i: nat, v2: Osmd)
    requires i < |idx| && idx[i] !in v.clauses
    requires forall j :: 0 <= j < i ==> idx[j] in v.clauses
    requires AddClauseComment(v.(clauses := v.clauses + [idx[i]]), idx[i], i + 1) == Ok(v2)
    ensures var r := AddClauses(v2, idx, i + 1).state;
      |v.page.nodes| < |r.page.nodes| && LabelAt(r, |v.page.nodes|, |v.clauses|, |v.page.nodes|, idx)
  {
    var x := idx[i];
    var n0 := |v.page.nodes|;
    var c0 := |v.clauses|;
    var r := AddClauses(v2, idx, i + 1).state;
    assert v2.clauses == v.clauses + [x] && |v2.page.nodes| == n0 + 1;
    assert Labels(v2.page.nodes[n0].item, x, idx) by {
      FirstIndexAt(idx, x, i);
    }
    assert c0 < |r.clauses| && r.clauses[c0] == x by {
      RegistryGrows(v2, idx, i + 1);
      assert r.clauses[..|v2.clauses|][c0] == v2.clauses[c0];
    }
    assert n0 < |r.page.nodes| && r.page.nodes[n0] == v2.page.nodes[n0] by {
      LabelsAppended(v2, idx, i + 1);
      assert r.page.nodes[..n0 + 1][n0] == v2.page.nodes[n0];
    }
  }

  /** A round whose label throws leaves the page as it was. */
  lemma ThrowLabelsNothing(v: Osmd, idx: seq<int>, i: nat)
    requires i < |idx| && idx[i] !in v.clauses
    ensures AddClauseComment(v.(clauses := v.clauses + [idx[i]]), idx[i], i + 1).Err? ==>
      AddClauses(v, idx, i).state.page == v.page
  {
  }

  /** Every page element from n0 on is the label of the registry entry as far past c0. */
  predicate LabelsFrom(r: Osmd, n0: nat, c0: nat, idx: seq<int>) {
    n0 <= |r.page.nodes| && forall k: nat :: n0 <= k < |r.page.nodes| ==> LabelAt(r, n0, c0, k, idx)
  }

  /** Labels matched from n0 + 1 and c0 + 1 on are matched from n0 and c0 on, past n0. */
  lemma LabelAtShift(r: Osmd, n0: nat, c0: nat, k: nat, idx: seq<int>)
    requires n0 + 1 <= k < |r.page.nodes| && LabelAt(r, n0 + 1, c0 + 1, k, idx)
    ensures LabelAt(r, n0, c0, k, idx)
  {
    assert c0 + (k - n0) == (c0 + 1) + (k - (n0 + 1));
  }

  /** Registering idx[i] extends "every index before i is registered" to i + 1. */
  lemma RegisteredThrough(idx: seq<int>, i: nat, clauses: seq<int>)
    requires i < |idx| && forall j :: 0 <= j < i ==> idx[j] in clauses
    ensures forall j :: 0 <= j < i + 1 ==> idx[j] in clauses + [idx[i]]
  {
    forall j | 0 <= j < i + 1
      ensures idx[j] in clauses + [idx[i]]
    {
      if j < i {
        assert idx[j] in clauses;
      } else {
        assert (clauses + [idx[i]])[|clauses|] == idx[j];
      }
    }
  }

  /** A round that skips a registered index keeps the labels as they are. */
  lemma LabelsSkip(v: Osmd, idx: seq<int>, i: nat, n0: nat, c0: nat)
    requires i < |idx| && idx[i] in v.clauses
    requires LabelsFrom(AddClauses(v, idx, i + 1).state, n0, c0, idx)
    ensures LabelsFrom(AddClauses(v, idx, i).state, n0, c0, idx)
  {
    assert AddClauses(v, idx, i) == AddClauses(v, idx, i + 1);
  }

  /** A round whose label throws leaves no new label. */
  lemma LabelsThrow(v: Osmd, idx: seq<int>, i: nat)
    requires i < |idx| && idx[i] !in v.clauses
    requires AddClauseComment(v.(clauses := v.clauses + [idx[i]]), idx[i], i + 1).Err?
    ensures LabelsFrom(AddClauses(v, idx, i).state, |v.page.nodes|, |v.clauses|, idx)
  {
    ThrowLabelsNothing(v, idx, i);
  }

  /** A round that labels idx[i] puts that label first, before the labels of the later rounds. */
  lemma LabelsStep(v: Osmd, idx: seq<int>, i: nat, v2: Osmd)
    requires i < |idx| && idx[i] !in v.clauses
    requires forall j :: 0 <= j < i ==> idx[j] in v.clauses
    requires AddClauseComment(v.(clauses := v.clauses + [idx[i]]), idx[i], i + 1) == Ok(v2)
    requires LabelsFrom(AddClauses(v2, idx, i + 1).state, |v.page.nodes| + 1, |v.clauses| + 1, idx)
    ensures LabelsFrom(AddClauses(v, idx, i).state, |v.page.nodes|, |v.clauses|, idx)
  {
    var r := AddClauses(v2, idx, i + 1).state;
    FirstNewLabel(v, idx, i, v2);
    LabelsFromCons(r, |v.page.nodes|, |v.clauses|, idx);
    assert AddClauses(v, idx, i).state == r;
  }

  /** A label at n0 followed by labels matched from n0 + 1 on. */
  lemma LabelsFromCons(r: Osmd, n0: nat, c0: nat, idx: seq<int>)
    requires n0 < |r.page.nodes| && LabelAt(r, n0, c0, n0, idx) && LabelsFrom(r, n0 + 1, c0 + 1, idx)
    ensures LabelsFrom(r, n0, c0, idx)
  {
    forall k: nat | n0 < k < |r.page.nodes|
      ensures LabelAt(r, n0, c0, k, idx)
    {
      LabelAtShift(r, n0, c0, k, idx);
    }
  }

  /** The k-th new label belongs to the k-th newly registered index and carries that index's
      first position in the input plus one. Needs: every input index before position i is
      already registered (true at i = 0). */
  lemma {:induction false} LabelsNumberedFrom(v: Osmd, idx: seq<int>, i: nat)
    requires i <= |idx|
    requires forall j :: 0 <= j < i ==> idx[j] in v.clauses
    ensures LabelsFrom(AddClauses(v, idx, i).state, |v.page.nodes|, |v.clauses|, idx)
    decreases |idx| - i
  {
    if i < |idx| {
      var x := idx[i];
      if x in v.clauses {
        LabelsNumberedFrom(v, idx, i + 1);
        LabelsSkip(v, idx, i, |v.page.nodes|, |v.clauses|);
      } else {
        var v1 := v.(clauses := v.clauses + [x]);
        match AddClauseComment(v1, x, i + 1)
        case Err(e) =>
          LabelsThrow(v, idx, i);
        case Ok(v2) =>
          assert |v2.page.nodes| == |v.page.nodes| + 1 && v2.clauses == v1.clauses;
          RegisteredThrough(idx, i, v.clauses);
          LabelsNumberedFrom(v2, idx, i + 1);
          LabelsStep(v, idx, i, v2);
      }
    }
  }

  lemma LabelsNumbered(v: Osmd, idx: seq<int>)
    ensures var r := AddClauses(v, idx, 0).state;
      forall k: nat :: |v.page.nodes| <= k < |r.page.nodes| ==> LabelAt(r, |v.page.nodes|, |v.clauses|, k, idx)
  {
    LabelsNumberedFrom(v, idx, 0);
  }

  /** addMultipleClauseComment(idx): never registers an index twice, keeps the registry's
      old entries in place, and registers exactly the indices of idx that were missing, unless
      a label throws. */
  lemma ClauseRegistry(v: Osmd, idx: seq<int>)
    ensures var r := AddMultipleClauseComment(v, Present(idx));
      && (NoDup(v.clauses) ==> NoDup(r.state.clauses))
      && |r.state.clauses| >= |v.clauses| && r.state.clauses[..|v.clauses|] == v.clauses
      && (forall k :: |v.clauses| <= k < |r.state.clauses| ==> r.state.clauses[k] !in v.clauses)
      && (forall x :: x in r.state.clauses ==> x in v.clauses || x in idx)
      && (r.thrown.None? ==> forall x :: x in r.state.clauses <==> x in v.clauses || x in idx)
  {
    RegistryGrows(v, idx, 0);
    RegistryMembers(v, idx, 0);
    assert idx[0..] == idx;
    if NoDup(v.clauses) {
      RegistryNoDup(v, idx, 0);
    }
  }

  /** Each newly registered index gets exactly one label, numbered by its first position in the
      input plus one, in registry order; the labels are appended after what was on the page. */
  lemma ClauseLabels(v: Osmd, idx: seq<int>)
    ensures var r := AddMultipleClauseComment(v, Present(idx)); var n0 := |v.page.nodes|;
      && |r.state.page.nodes| >= n0 && r.state.page.nodes[..n0] == v.page.nodes
      && |r.state.page.nodes| - n0 == |r.state.clauses| - |v.clauses| - (if r.thrown.Some? then 1 else 0)
      && (forall k :: n0 <= k < |r.state.page.nodes| ==> LabelAt(r.state, n0, |v.clauses|, k, idx))
  {
    LabelsAppended(v, idx, 0);
    LabelsNumbered(v, idx);
  }

  /** removeAllClauseComment: every clause label goes, every other element stays, and the
      registry is emptied. */
  function RemoveAllClauseComment(v: Osmd): (r: Osmd)
    ensures r.clauses == []
    ensures forall i :: 0 <= i < |r.page.nodes| ==> !HasClass(r.page.nodes[i], MeasureCommentClass)
    ensures forall n :: n in r.page.nodes <==> n in v.page.nodes && !HasClass(n, MeasureCommentClass)
    ensures r.graphic == v.graphic && r.zoom == v.zoom && r.sheetLoaded == v.sheetLoaded
  {
    v.(clauses := [], page := Remove(v.page, MeasureCommentClass))
  }

  /** Removing the clause labels undoes adding them: the page is as if they had never been
      added, whatever the input and however far the loop got. */
  lemma RemoveClausesUndoesAdd(v: Osmd, input: Nullable<seq<int>>)
    ensures RemoveAllClauseComment(AddMultipleClauseComment(v, input).state).page.nodes
         == RemoveAllClauseComment(v).page.nodes
  {
    if input.Present? {
      var idx := input.value;
      var r := AddMultipleClauseComment(v, input).state;
      LabelsAppended(v, idx, 0);
      LabelsNumbered(v, idx);
      var n0 := |v.page.nodes|;
      var tail := r.page.nodes[n0..];
      assert r.page.nodes == v.page.nodes + tail;
      forall k | 0 <= k < |tail|
        ensures HasClass(tail[k], MeasureCommentClass)
      {
        assert tail[k] == r.page.nodes[n0 + k];
        assert LabelAt(r, n0, |v.clauses|, n0 + k, idx);
      }
      WithoutAppend(v.page.nodes, tail, MeasureCommentClass);
      WithoutOnly(tail, MeasureCommentClass);
    }
  }

  // ---------------------------------------------------------------------------------------
  // Comment areas and texts

  /** addCommentArea: one framed area from startX to endX, `height` high, at startY; throws,
      appending nothing, without a drawer. */
  function AddCommentArea(v: Osmd, startX: real, startY: real, endX: real, height: real): (r: Result<Osmd>)
    ensures r.Ok? <==> v.drawer
    ensures r.Err? ==> r.error == TypeError
    ensures r.Ok? ==> |r.value.page.nodes| == |v.page.nodes| + 1 && r.value.page.nodes[..|v.page.nodes|] == v.page.nodes
    ensures r.Ok? ==> HasClass(r.value.page.nodes[|v.page.nodes|], CommentAreaClass)
    ensures r.Ok? ==> r.value.page.nodes[|v.page.nodes|] == Node(v.page.nextKey, true, CommentArea(startX, startY, endX, height))
    ensures r.Ok? ==> r.value.clauses == v.clauses && r.value.graphic == v.graphic && r.value.zoom == v.zoom
    ensures r.Ok? ==> r.value == v.(page := r.value.page) && r.value.page.nextKey == v.page.nextKey + 1
  {
    if !v.drawer then Err(TypeError)
    else Ok(v.(page := Append(v.page, CommentArea(startX, startY, endX, height))))
  }

  /** addCommentText: one caption `word` over the span startX..endX; throws, appending
      nothing, without a drawer. */
  function AddCommentText(v: Osmd, startX: real, startY: real, endX: real, height: real, word: string): (r: Result<Osmd>)
    ensures r.Ok? <==> v.drawer
    ensures r.Err? ==> r.error == TypeError
    ensures r.Ok? ==> |r.value.page.nodes| == |v.page.nodes| + 1 && r.value.page.nodes[..|v.page.nodes|] == v.page.nodes
    ensures r.Ok? ==> HasClass(r.value.page.nodes[|v.page.nodes|], CommentTextClass)
    ensures r.Ok? ==> r.value.page.nodes[|v.page.nodes|] == Node(v.page.nextKey, true, CommentText(startX, startY, endX, height, word))
    ensures r.Ok? ==> r.value.clauses == v.clauses && r.value.graphic == v.graphic && r.value.zoom == v.zoom
    ensures r.Ok? ==> r.value == v.(page := r.value.page) && r.value.page.nextKey == v.page.nextKey + 1
  {
    if !v.drawer then Err(TypeError)
    else Ok(v.(page := Append(v.page, CommentText(startX, startY, endX, height, word))))
  }

  /** The width of the double border addCommentArea draws round its area: a tenth of the
      height. */
  function AreaBorder(height: real): real {
    height * 0.1
  }

  /** Where addCommentArea places its element. The box is content-sized, so inside the border
      it runs from startX to endX, starts at startY and is `height` high. */
  function AreaBox(a: Item): (b: BandBox)
    requires a.CommentArea?
    ensures b.left + AreaBorder(a.height) == a.startX && b.left + AreaBorder(a.height) + b.width == a.endX
    ensures b.top + AreaBorder(a.height) == a.startY && b.height == a.height
  {
    BandBox(a.startX - a.height * 0.1, a.endX - a.startX, a.startY - a.height * 0.1, a.height)
  }

  /** Where addCommentText places its button: centred over the span startX..endX, 0.6 of the
      height wide and 0.2 of it high, with its top 0.4 of the height above startY. */
  function CaptionBox(c: Item): (b: BandBox)
    requires c.CommentText?
    ensures b.left + b.width / 2.0 == (c.startX + c.endX) / 2.0
    ensures b.top + c.height * 0.4 == c.startY
    ensures b.width == c.height * 0.6 && b.height == c.height * 0.2
  {
    BandBox(c.startX + (c.endX - c.startX) / 2.0 - c.height * 0.3, c.height * 0.6, c.startY - c.height * 0.4, c.height * 0.2)
  }

  /** clearCommentArea: first every comment area goes, then every comment text; all other
      elements stay. It looks for them in the drawer's backend, so it throws, changing
      nothing, without a drawer. */
  function ClearCommentArea(v: Osmd): (r: Result<Osmd>)
    ensures r.Ok? <==> v.drawer
    ensures r.Err? ==> r.error == TypeError
    ensures r.Ok? ==> forall i :: 0 <= i < |r.value.page.nodes| ==>
      !HasClass(r.value.page.nodes[i], CommentAreaClass) && !HasClass(r.value.page.nodes[i], CommentTextClass)
    ensures r.Ok? ==> forall n :: n in r.value.page.nodes <==>
      n in v.page.nodes && !HasClass(n, CommentAreaClass) && !HasClass(n, CommentTextClass)
    ensures r.Ok? ==> r.value.clauses == v.clauses && r.value.graphic == v.graphic && r.value.zoom == v.zoom
  {
    if !v.drawer then Err(TypeError)
    else Ok(v.(page := Remove(Remove(v.page, CommentAreaClass), CommentTextClass)))
  }

  predicate IsComment(it: Item) {
    it.CommentArea? || it.CommentText?
  }

  /** Clearing undoes any run of comment appends: the page keeps exactly what it would have
      kept before them. */
  lemma {:induction false} ClearUndoesComments(v: Osmd, items: seq<Item>)
    requires forall k :: 0 <= k < |items| ==> IsComment(items[k])
    ensures var after := ClearCommentArea(v.(page := AppendAll(v.page, items))); var before := ClearCommentArea(v);
      after.Ok? == before.Ok? && (after.Ok? ==> after.value.page.nodes == before.value.page.nodes)
  {
    CommentsOfEitherClass(items);
    RemoveBothAppended(v.page, items, CommentAreaClass, CommentTextClass);
  }

  lemma CommentsOfEitherClass(items: seq<Item>)
    requires forall k :: 0 <= k < |items| ==> IsComment(items[k])
    ensures forall k :: 0 <= k < |items| ==> ClassOf(items[k]) == CommentAreaClass || ClassOf(items[k]) == CommentTextClass
  {
  }

  /** One segment of a comment spanning several systems: the system, the horizontal span, the
      top of the system, and the height of the frame when one is drawn. */
  datatype Segment = Segment(system: int, startX: real, endX: real, top: real, frame: Option<real>)

  /** The absolute x of every measure on a system, row after row. */
  function FlatXs(rows: seq<seq<real>>): seq<real>
    decreases |rows|
  {
    if rows == [] then [] else rows[0] + FlatXs(rows[1..])
  }

  /** The scan for the leftmost measure of a system, with 0 standing for "none seen yet": a
      scaled x replaces the running value when that value is 0 or the x is smaller. */
  function LeftmostScan(xs: seq<real>, zoom: real, acc: real): real
    decreases |xs|
  {
    if xs == [] then acc
    else
      var x := Scale(xs[0], zoom);
      LeftmostScan(xs[1..], zoom, if acc == 0.0 || x < acc then x else acc)
  }

  /** When no scaled x is 0 the scan finds the leftmost one: from a running value of 0 the
      result is one of the scaled xs and no scaled x is smaller; from a non-zero running value
      it is the smaller of that value and those xs. */
  lemma {:induction false} LeftmostIsMinimum(xs: seq<real>, zoom: real, acc: real)
    requires forall k :: 0 <= k < |xs| ==> Scale(xs[k], zoom) != 0.0
    ensures var r := LeftmostScan(xs, zoom, acc);
      && (forall k :: 0 <= k < |xs| ==> r <= Scale(xs[k], zoom))
      && (acc != 0.0 ==> r <= acc)
      && (r == acc || exists k :: 0 <= k < |xs| && r == Scale(xs[k], zoom))
      && (acc == 0.0 && xs != [] ==> exists k :: 0 <= k < |xs| && r == Scale(xs[k], zoom))
    decreases |xs|
  {
    if xs != [] {
      var x := Scale(xs[0], zoom);
      var acc' := if acc == 0.0 || x < acc then x else acc;
      LeftmostIsMinimum(xs[1..], zoom, acc');
      var r := LeftmostScan(xs, zoom, acc);
      forall k | 0 <= k < |xs|
        ensures r <= Scale(xs[k], zoom)
      {
        if k > 0 {
          assert xs[k] == xs[1..][k - 1];
        }
      }
      if r != acc' {
        var k :| 0 <= k < |xs[1..]| && r == Scale(xs[1..][k], zoom);
        assert r == Scale(xs[k + 1], zoom);
      } else if acc' == x {
        assert r == Scale(xs[0], zoom);
      }
    }
  }

  /** The sentinel is also a value: a measure at x = 0 is passed over, so the scan over
      [0, 5] at zoom 1 gives 50, not 0. */
  lemma SentinelSkipsZero()
    ensures LeftmostScan([0.0, 5.0], 1.0, 0.0) == 50.0
  {
    assert [0.0, 5.0][1..] == [5.0];
    assert [5.0][1..] == [];
  }

  /** Round i of the loop of addCommentAreaByVoiceEntry, with the start and end voice entries'
      x (None when the entry is undefined). It throws, before appending anything, when system
      i does not exist, when it needs a voice entry that is undefined, when a frame is wanted
      on a system without stave lines, or, once the segment is computed, when there is no
      drawer for addCommentArea or addCommentText to draw with. The first system starts at the start voice and
      the last ends at the end voice; the others span from the leftmost measure to the
      system's right edge. The frame height uses the bottom line's y twice and the top line's
      once. */
  function SegmentAt(sc: Score, zoom: real, startVoice: Option<real>, endVoice: Option<real>,
                     startId: int, endId: int, border: bool, drawer: bool, i: int): (r: Result<Segment>)
    ensures r.Ok? <==>
      && 0 <= i < |sc.systems|
      && (i == startId ==> startVoice.Some?) && (i == endId ==> endVoice.Some?)
      && (border ==> |sc.systems[i].staffLines| > 0)
      && drawer
    ensures r.Err? ==> r.error == TypeError
    ensures r.Ok? ==> var sys := sc.systems[i]; var sg := r.value;
      && sg.system == i
      && sg.top == Scale(sys.y, zoom)
      && sg.startX == (if i == startId then Scale(startVoice.value, zoom) else LeftmostScan(FlatXs(sys.measureXs), zoom, 0.0))
      && sg.endX == (if i == endId then Scale(endVoice.value, zoom) else Scale(sys.x, zoom) + Scale(sys.width, zoom))
      && (sg.frame.Some? <==> border)
      && (border ==>
            sg.frame.value == (2.0 * sys.staffLines[|sys.staffLines| - 1].relY - sys.staffLines[0].relY) * 10.0 * zoom)
  {
    match At(sc.systems, i)
    case None => Err(TypeError)
    case Some(sys) =>
      if (i == startId && startVoice.None?) || (i == endId && endVoice.None?) then Err(TypeError)
      else if border && |sys.staffLines| == 0 then Err(TypeError)
      else
        var startX := if i == startId then Scale(startVoice.value, zoom)
                      else LeftmostScan(FlatXs(sys.measureXs), zoom, 0.0);
        var endX := if i == endId then Scale(endVoice.value, zoom)
                    else Scale(sys.x, zoom) + Scale(sys.width, zoom);
        var frame := if border then
            var y := sys.y + sys.staffLines[0].relY;
            var bottom := sys.staffLines[|sys.staffLines| - 1];
            var endY := sys.y + bottom.relY + bottom.relY;
            Some((endY - y) * 10.0 * zoom)
          else None;
        if !drawer then Err(TypeError)
        else Ok(Segment(i, startX, endX, Scale(sys.y, zoom), frame))
  }

  /** The loop from system i to endId: the segments of the rounds that completed, and the
      exception of the round that threw, if any. */
  function Segments(sc: Score, zoom: real, startVoice: Option<real>, endVoice: Option<real>,
                    startId: int, endId: int, border: bool, drawer: bool, i: int): (r: (seq<Segment>, Option<Error>))
    decreases if i <= endId then endId - i + 1 else 0
  {
    if i > endId then ([], None)
    else
      match SegmentAt(sc, zoom, startVoice, endVoice, startId, endId, border, drawer, i)
      case Err(e) => ([], Some(e))
      case Ok(sg) =>
        var (rest, t) := Segments(sc, zoom, startVoice, endVoice, startId, endId, border, drawer, i + 1);
        ([sg] + rest, t)
  }

  /** The loop yields one segment per system from i on, in order: all of i..endId when no
      round throws, otherwise those before the first round that throws. */
  lemma {:induction false} SegmentsSpec(sc: Score, zoom: real, startVoice: Option<real>, endVoice: Option<real>,
                                        startId: int, endId: int, border: bool, drawer: bool, i: int)
    ensures var (segs, t) := Segments(sc, zoom, startVoice, endVoice, startId, endId, border, drawer, i);
      && (forall k :: 0 <= k < |segs| ==>
            SegmentAt(sc, zoom, startVoice, endVoice, startId, endId, border, drawer, i + k) == Ok(segs[k]))
      && (t.None? ==> |segs| == (if i <= endId then endId - i + 1 else 0))
      && (t.Some? ==> i + |segs| <= endId
                      && SegmentAt(sc, zoom, startVoice, endVoice, startId, endId, border, drawer, i + |segs|).Err?)
    decreases if i <= endId then endId - i + 1 else 0
  {
    if i <= endId {
      SegmentsSpec(sc, zoom, startVoice, endVoice, startId, endId, border, drawer, i + 1);
      var (segs, t) := Segments(sc, zoom, startVoice, endVoice, startId, endId, border, drawer, i);
      var (rest, t') := Segments(sc, zoom, startVoice, endVoice, startId, endId, border, drawer, i + 1);
      if SegmentAt(sc, zoom, startVoice, endVoice, startId, endId, border, drawer, i).Ok? {
        forall k | 0 <= k < |segs|
          ensures SegmentAt(sc, zoom, startVoice, endVoice, startId, endId, border, drawer, i + k) == Ok(segs[k])
        {
          if k > 0 {
            assert segs[k] == rest[k - 1];
            assert i + k == (i + 1) + (k - 1);
          }
        }
      }
    }
  }

  /** Where the caption of segment k sits among the items: after k frames and k captions, or
      after k captions. */
  function CaptionSlot(border: bool, k: nat): nat {
    if border then 2 * k + 1 else k
  }

  /** What one segment puts on the page: its frame when one is drawn, then its caption. The
      caption is as high as the cursor. */
  function SegmentItems(segs: seq<Segment>, word: string, textHeight: real): (r: seq<Item>)
    ensures forall k :: 0 <= k < |r| ==> IsComment(r[k])
    decreases |segs|
  {
    if segs == [] then []
    else
      var sg := segs[0];
      (if sg.frame.Some? then [CommentArea(sg.startX, sg.top, sg.endX, sg.frame.value)] else [])
      + [CommentText(sg.startX, sg.top, sg.endX, textHeight, word)]
      + SegmentItems(segs[1..], word, textHeight)
  }

  /** One round of the voice-entry loop puts on the page exactly what its calls append:
      addCommentArea for the frame, when one is drawn, then addCommentText for the caption. */
  lemma SegmentItemsAreCalls(v: Osmd, sg: Segment, word: string, textHeight: real)
    requires v.drawer
    ensures var framed := if sg.frame.Some? then AddCommentArea(v, sg.startX, sg.top, sg.endX, sg.frame.value).value else v;
      AddCommentText(framed, sg.startX, sg.top, sg.endX, textHeight, word)
        == Ok(v.(page := AppendAll(v.page, SegmentItems([sg], word, textHeight))))
  {
    var caption := CommentText(sg.startX, sg.top, sg.endX, textHeight, word);
    if sg.frame.Some? {
      var area := CommentArea(sg.startX, sg.top, sg.endX, sg.frame.value);
      assert SegmentItems([sg], word, textHeight) == [area, caption];
      assert [area, caption][1..] == [caption];
      var p1 := Append(v.page, area);
      assert AppendAll(v.page, [area, caption]) == AppendAll(p1, [caption]);
      assert AppendAll(p1, [caption]) == AppendAll(Append(p1, caption), []);
    } else {
      assert SegmentItems([sg], word, textHeight) == [caption];
    }
  }

  /** With a frame on every segment the items alternate frame, caption. */
  lemma {:induction false} FramedItems(segs: seq<Segment>, word: string, textHeight: real)
    requires forall k :: 0 <= k < |segs| ==> segs[k].frame.Some?
    ensures var r := SegmentItems(segs, word, textHeight);
      && |r| == 2 * |segs|
      && forall k :: 0 <= k < |segs| ==>
           && r[2 * k] == CommentArea(segs[k].startX, segs[k].top, segs[k].endX, segs[k].frame.value)
           && r[2 * k + 1] == CommentText(segs[k].startX, segs[k].top, segs[k].endX, textHeight, word)
    decreases |segs|
  {
    if segs != [] {
      FramedItems(segs[1..], word, textHeight);
      var r := SegmentItems(segs, word, textHeight);
      var rest := SegmentItems(segs[1..], word, textHeight);
      assert r == [r[0], r[1]] + rest;
      forall k | 1 <= k < |segs|
        ensures r[2 * k] == rest[2 * (k - 1)] && r[2 * k + 1] == rest[2 * (k - 1) + 1]
        ensures segs[k] == segs[1..][k - 1]
      {
      }
    }
  }

  /** Without any frame the items are the captions alone. */
  lemma {:induction false} BareItems(segs: seq<Segment>, word: string, textHeight: real)
    requires forall k :: 0 <= k < |segs| ==> segs[k].frame.None?
    ensures var r := SegmentItems(segs, word, textHeight);
      && |r| == |segs|
      && forall k :: 0 <= k < |segs| ==>
           r[k] == CommentText(segs[k].startX, segs[k].top, segs[k].endX, textHeight, word)
    decreases |segs|
  {
    if segs != [] {
      BareItems(segs[1..], word, textHeight);
      var r := SegmentItems(segs, word, textHeight);
      var rest := SegmentItems(segs[1..], word, textHeight);
      assert r == [r[0]] + rest;
      forall k | 1 <= k < |segs|
        ensures r[k] == rest[k - 1] && segs[k] == segs[1..][k - 1]
      {
      }
    }
  }

  /** With frames on every segment the items alternate frame, caption; without any frame they
      are the captions alone: one caption per segment either way. */
  lemma SegmentItemsSpec(segs: seq<Segment>, word: string, textHeight: real, border: bool)
    requires forall k :: 0 <= k < |segs| ==> (segs[k].frame.Some? <==> border)
    ensures var r := SegmentItems(segs, word, textHeight);
      && |r| == (if border then 2 * |segs| else |segs|)
      && (forall k :: 0 <= k < |segs| ==>
            r[CaptionSlot(border, k)] == CommentText(segs[k].startX, segs[k].top, segs[k].endX, textHeight, word))
      && (border ==> forall k :: 0 <= k < |segs| ==>
            r[2 * k] == CommentArea(segs[k].startX, segs[k].top, segs[k].endX, segs[k].frame.value))
  {
    if border {
      FramedItems(segs, word, textHeight);
    } else {
      BareItems(segs, word, textHeight);
    }
  }

  /** The lookups before the loop of addCommentAreaByVoiceEntry: the start and end staff
      entries must exist (their voice entries may be undefined), and the loop runs over the
      Ids of their measures' systems. */
  function VoicePrelude(v: Osmd, sm: int, sg: int, ss: int, sv: int, em: int, eg: int, es: int, ev: int)
    : (r: Result<(Score, Option<real>, Option<real>, int, int)>)
    ensures r.Ok? <==> v.graphic.Some? && EntryAt(v.graphic.value, sm, sg, ss).Ok? && EntryAt(v.graphic.value, em, eg, es).Ok?
    ensures r.Ok? ==> var sc := v.graphic.value;
      && r.value.0 == sc
      && r.value.1 == At(sc.grid[sm][sg].entries[ss].voiceXs, sv)
      && r.value.2 == At(sc.grid[em][eg].entries[es].voiceXs, ev)
      && r.value.3 == sc.grid[sm][sg].parent.id && r.value.4 == sc.grid[em][eg].parent.id
    ensures r.Err? ==> r.error == TypeError
  {
    var sc :- Graphic(v);
    var startEntry :- EntryAt(sc, sm, sg, ss);
    var endEntry :- EntryAt(sc, em, eg, es);
    Ok((sc, At(startEntry.voiceXs, sv), At(endEntry.voiceXs, ev), sc.grid[sm][sg].parent.id, sc.grid[em][eg].parent.id))
  }

  /** The loop of addCommentAreaByVoiceEntry over systems startId..endId: the segments of the
      rounds that completed go onto the page, each as its optional frame followed by its
      caption, and the exception of the round that threw, if any, is the outcome's. */
  function DrawSegments(v: Osmd, sc: Score, startVoice: Option<real>, endVoice: Option<real>,
                        startId: int, endId: int, word: string, border: bool, cursorHeight: real): (r: Outcome)
    ensures r.state.clauses == v.clauses && r.state.graphic == v.graphic && r.state.zoom == v.zoom
  {
    var (segs, t) := Segments(sc, v.zoom, startVoice, endVoice, startId, endId, border, v.drawer, startId);
    Outcome(v.(page := AppendAll(v.page, SegmentItems(segs, word, Scale(cursorHeight, v.zoom)))), t)
  }

  /** addCommentAreaByVoiceEntry: the lookups, then the loop. */
  function AddCommentAreaByVoiceEntry(v: Osmd, sm: int, sg: int, ss: int, sv: int,
                                      em: int, eg: int, es: int, ev: int,
                                      word: string, border: bool, cursorHeight: real): (r: Outcome)
    ensures VoicePrelude(v, sm, sg, ss, sv, em, eg, es, ev).Err? ==> r == Outcome(v, Some(TypeError))
    ensures VoicePrelude(v, sm, sg, ss, sv, em, eg, es, ev).Ok? ==>
      var (sc, startVoice, endVoice, startId, endId) := VoicePrelude(v, sm, sg, ss, sv, em, eg, es, ev).value;
      r == DrawSegments(v, sc, startVoice, endVoice, startId, endId, word, border, cursorHeight)
  {
    match VoicePrelude(v, sm, sg, ss, sv, em, eg, es, ev)
    case Err(e) => Outcome(v, Some(e))
    case Ok((sc, startVoice, endVoice, startId, endId)) =>
      DrawSegments(v, sc, startVoice, endVoice, startId, endId, word, border, cursorHeight)
  }

  /** Where the items of the segments land on the page: with n0 elements before them, the
      caption of segment k sits at n0 + 2k + 1 with its frame at n0 + 2k when every segment
      is framed, and at n0 + k when none is. */
  lemma SegmentItemsOnPage(page: Surface, segs: seq<Segment>, word: string, h: real, border: bool)
    requires forall k :: 0 <= k < |segs| ==> (segs[k].frame.Some? <==> border)
    ensures var r := AppendAll(page, SegmentItems(segs, word, h)); var n0 := |page.nodes|;
      && |r.nodes| == n0 + (if border then 2 * |segs| else |segs|)
      && r.nodes[..n0] == page.nodes
      && (forall k: nat :: k < |segs| ==> CaptionAt(r, n0, k, border, segs[k], h, word))
  {
    var items := SegmentItems(segs, word, h);
    SegmentItemsSpec(segs, word, h, border);
    forall k: nat | k < |segs|
      ensures CaptionAt(AppendAll(page, items), |page.nodes|, k, border, segs[k], h, word)
    {
      CaptionOnPage(page, items, k, border, segs[k], h, word);
    }
  }

  /** An item list holding segment k's caption (and frame) at its slot puts them at that slot
      after the page's earlier elements. */
  lemma CaptionOnPage(page: Surface, items: seq<Item>, k: nat, border: bool, sg: Segment, h: real, word: string)
    requires CaptionSlot(border, k) < |items|
    requires items[CaptionSlot(border, k)] == CommentText(sg.startX, sg.top, sg.endX, h, word)
    requires border ==> sg.frame.Some? && items[2 * k] == CommentArea(sg.startX, sg.top, sg.endX, sg.frame.value)
    ensures CaptionAt(AppendAll(page, items), |page.nodes|, k, border, sg, h, word)
  {
    AppendAllNodeAt(page, items, CaptionSlot(border, k));
    if border {
      AppendAllNodeAt(page, items, 2 * k);
    }
  }

  /** Every segment the loop yields carries a frame exactly when a border is asked for. */
  lemma SegmentsFramed(sc: Score, zoom: real, startVoice: Option<real>, endVoice: Option<real>,
                       startId: int, endId: int, border: bool, drawer: bool, segs: seq<Segment>)
    requires forall k :: 0 <= k < |segs| ==>
      SegmentAt(sc, zoom, startVoice, endVoice, startId, endId, border, drawer, startId + k) == Ok(segs[k])
    ensures forall k :: 0 <= k < |segs| ==> (segs[k].frame.Some? <==> border)
  {
    forall k | 0 <= k < |segs|
      ensures segs[k].frame.Some? <==> border
    {
      assert SegmentAt(sc, zoom, startVoice, endVoice, startId, endId, border, drawer, startId + k) == Ok(segs[k]);
    }
  }

  /** A caption in place for the k-th segment is the caption of system startId + k. */
  lemma SegmentCaptioned(page: Surface, n0: nat, k: nat, sc: Score, zoom: real,
                         startVoice: Option<real>, endVoice: Option<real>, startId: int, endId: int,
                         border: bool, drawer: bool, h: real, word: string, sg: Segment)
    requires SegmentAt(sc, zoom, startVoice, endVoice, startId, endId, border, drawer, startId + k) == Ok(sg)
    requires CaptionAt(page, n0, k, border, sg, h, word)
    ensures SystemCaptioned(page, n0, k, sc, zoom, startVoice, endVoice, startId, endId, border, drawer, h, word)
  {
  }

  /** Without an exception the loop puts one caption per system from startId to endId on the
      page, in order, each preceded by a frame exactly when a border is asked for; the k-th
      caption spans the segment of system startId + k. */
  lemma CommentPerSystem(v: Osmd, sc: Score, startVoice: Option<real>, endVoice: Option<real>,
                         startId: int, endId: int, word: string, border: bool, cursorHeight: real)
    ensures var r := DrawSegments(v, sc, startVoice, endVoice, startId, endId, word, border, cursorHeight);
      var n0 := |v.page.nodes|; var nseg := if startId <= endId then endId - startId + 1 else 0;
      r.thrown.None? ==>
        && |r.state.page.nodes| == n0 + (if border then 2 * nseg else nseg)
        && r.state.page.nodes[..n0] == v.page.nodes
        && forall k: nat :: k < nseg ==>
             SystemCaptioned(r.state.page, n0, k, sc, v.zoom, startVoice, endVoice, startId, endId, border,
                             v.drawer, Scale(cursorHeight, v.zoom), word)
  {
    var (segs, t) := Segments(sc, v.zoom, startVoice, endVoice, startId, endId, border, v.drawer, startId);
    SegmentsSpec(sc, v.zoom, startVoice, endVoice, startId, endId, border, v.drawer, startId);
    if t.None? {
      var h := Scale(cursorHeight, v.zoom);
      SegmentsFramed(sc, v.zoom, startVoice, endVoice, startId, endId, border, v.drawer, segs);
      SegmentItemsOnPage(v.page, segs, word, h, border);
      var r := AppendAll(v.page, SegmentItems(segs, word, h));
      forall k: nat | k < |segs|
        ensures SystemCaptioned(r, |v.page.nodes|, k, sc, v.zoom, startVoice, endVoice, startId, endId, border, v.drawer, h, word)
      {
        SegmentCaptioned(r, |v.page.nodes|, k, sc, v.zoom, startVoice, endVoice, startId, endId, border, v.drawer, h, word, segs[k]);
      }
    }
  }

  /** Before the first render the loop leaves the viewer as it was, and throws exactly when
      it has a round to run. */
  lemma NoDrawerNoComments(v: Osmd, sc: Score, startVoice: Option<real>, endVoice: Option<real>,
                           startId: int, endId: int, word: string, border: bool, cursorHeight: real)
    requires !v.drawer
    ensures var r := DrawSegments(v, sc, startVoice, endVoice, startId, endId, word, border, cursorHeight);
      r.state == v && (r.thrown.Some? <==> startId <= endId)
  {
    var (segs, t) := Segments(sc, v.zoom, startVoice, endVoice, startId, endId, border, v.drawer, startId);
    SegmentsSpec(sc, v.zoom, startVoice, endVoice, startId, endId, border, v.drawer, startId);
    assert SegmentItems(segs, word, Scale(cursorHeight, v.zoom)) == [];
  }

  /** The k-th segment's caption (and frame, with a border) sits where it should after n0
      earlier elements, and spans the segment. */
  predicate CaptionAt(page: Surface, n0: nat, k: nat, border: bool, sg: Segment, h: real, word: string) {
    && n0 + CaptionSlot(border, k) < |page.nodes|
    && page.nodes[n0 + CaptionSlot(border, k)].item == CommentText(sg.startX, sg.top, sg.endX, h, word)
    && (border ==> sg.frame.Some? && page.nodes[n0 + 2 * k].item == CommentArea(sg.startX, sg.top, sg.endX, sg.frame.value))
  }

  /** System startId + k completed its round, and its caption (and frame) are the k-th. */
  predicate SystemCaptioned(page: Surface, n0: nat, k: nat, sc: Score, zoom: real,
                            startVoice: Option<real>, endVoice: Option<real>, startId: int, endId: int,
                            border: bool, drawer: bool, h: real, word: string) {
    var sg := SegmentAt(sc, zoom, startVoice, endVoice, startId, endId, border, drawer, startId + k);
    sg.Ok? && sg.value.system == startId + k && CaptionAt(page, n0, k, border, sg.value, h, word)
  }

  // ---------------------------------------------------------------------------------------
  // Measure-background bands

  /** drawerMeasureBackground(i) of the viewer: nothing for a measure without a stave; else the
      band image is attached first and then placed: left and width from the stave, top at the
      top stave line, height down to the bottom line's y counted twice. Without a drawer, or
      with an absent row, it throws before anything is attached; a system without stave
      lines throws after. */
  function OsmdBand(drawer: bool, g: Option<Score>, zoom: real, i: int): (r: DrawResult)
    ensures r.Drawn? <==> drawer && BandOk(g, i) && StaveAt(g, i)
    ensures r.Skipped? <==> drawer && BandOk(g, i) && !StaveAt(g, i)
    ensures r.Failed? ==> (r.attached == [] <==> !(drawer && g.Some? && 0 <= i < |g.value.grid| && |g.value.grid[i]| > 0))
    ensures r.Failed? ==> r.attached == [] || r.attached == [Band(None, None)]
    ensures OfClass(r, BandClass)
    ensures r.Drawn? ==> r.item.Band? && r.item.id.None? && r.item.box.Some?
    ensures r.Drawn? ==> r.item.box.value == OsmdBox(g.value.grid[i][|g.value.grid[i]| - 1], zoom)
  {
    if !drawer || g.None? then Failed([])
    else
      match LastOfRow(g.value, i)
      case Err(_) => Failed([])
      case Ok(meas) =>
        match meas.stave
        case None => Skipped
        case Some(st) =>
          if |meas.parent.staffLines| == 0 then Failed([Band(None, None)])
          else Drawn(Band(None, Some(OsmdBox(meas, zoom))))
  }

  /** Where the viewer puts the band of a measure: left and width from its stave, scaled by
      the zoom; top at the top stave line and the bottom at the bottom line's y counted
      twice, scaled by 10 and the zoom. */
  function OsmdBox(meas: Measure, zoom: real): (b: BandBox)
    requires meas.stave.Some? && |meas.parent.staffLines| > 0
    ensures var lines := meas.parent.staffLines;
      && b.left == meas.stave.value.x * zoom && b.width == meas.stave.value.width * zoom
      && b.top == (meas.parent.y + lines[0].relY) * 10.0 * zoom
      && b.height == (2.0 * lines[|lines| - 1].relY - lines[0].relY) * 10.0 * zoom
  {
    var lines := meas.parent.staffLines;
    var bottom := lines[|lines| - 1];
    var y := meas.parent.y + lines[0].relY;
    var endY := meas.parent.y + bottom.relY + bottom.relY;
    assert endY - y == 2.0 * bottom.relY - lines[0].relY;
    BandBox(meas.stave.value.x * zoom, meas.stave.value.width * zoom, Scale(y, zoom), Scale(endY - y, zoom))
  }

  /** Round i of drawMeasureBackGround can complete: a drawer exists and BandOk holds. */
  predicate RoundOk(v: Osmd, i: int) {
    v.drawer && BandOk(v.graphic, i)
  }

  function OsmdDraw(v: Osmd): int -> DrawResult {
    i => OsmdBand(v.drawer, v.graphic, v.zoom, i)
  }

  /** drawMeasureBackGround(s, e, color): without a colour nothing happens; otherwise one round
      per index s..e, e not clamped to the grid. */
  function DrawMeasureBackGround(v: Osmd, s: int, e: int, color: Nullable<string>): (r: Outcome)
    ensures !HasColor(color) ==> r == Outcome(v, None)
    ensures r.state.clauses == v.clauses && r.state.graphic == v.graphic && r.state.zoom == v.zoom
  {
    if HasColor(color) then
      var (items, t) := DrawRange(OsmdDraw(v), s, e);
      Outcome(v.(page := AppendAll(v.page, items)), t)
    else Outcome(v, None)
  }

  /** With a colour: no exception exactly when every round can complete (so any non-empty
      range throws without a drawer), and then the bands
      appended are those of the indices s..e whose measure has a stave, one each, ascending. */
  lemma BandsInOrder(v: Osmd, s: int, e: int, c: string)
    requires c != ""
    ensures var r := DrawMeasureBackGround(v, s, e, Present(c));
      var ix := DrawnIndices(OsmdDraw(v), s, e); var n0 := |v.page.nodes|;
      && (r.thrown.None? <==> forall j :: s <= j <= e ==> RoundOk(v, j))
      && (r.thrown.None? ==>
            && (forall k, l :: 0 <= k < l < |ix| ==> ix[k] < ix[l])
            && (forall j :: j in ix <==> s <= j <= e && StaveAt(v.graphic, j))
            && |r.state.page.nodes| == n0 + |ix| && r.state.page.nodes[..n0] == v.page.nodes
            && (forall k :: 0 <= k < |ix| ==>
                  OsmdBand(v.drawer, v.graphic, v.zoom, ix[k]).Drawn?
                  && r.state.page.nodes[n0 + k].item == OsmdBand(v.drawer, v.graphic, v.zoom, ix[k]).item))
  {
    BandsThrow(v, s, e, c);
    BandsAppended(v, s, e, c);
    OsmdDrawnIndices(v, s, e);
  }

  /** With a colour, the rounds throw exactly when one of them cannot complete. */
  lemma BandsThrow(v: Osmd, s: int, e: int, c: string)
    requires c != ""
    ensures DrawMeasureBackGround(v, s, e, Present(c)).thrown.None? <==> forall j :: s <= j <= e ==> RoundOk(v, j)
  {
    var draw := OsmdDraw(v);
    DrawRangeThrows(draw, s, e);
    forall j | s <= j <= e
      ensures draw(j).Failed? <==> !RoundOk(v, j)
    {
      assert draw(j) == OsmdBand(v.drawer, v.graphic, v.zoom, j);
    }
  }

  /** The drawing rounds of the viewer's drawer are the indices whose measure has a stave,
      ascending, when every round can complete. */
  lemma OsmdDrawnIndices(v: Osmd, s: int, e: int)
    ensures (forall j :: s <= j <= e ==> RoundOk(v, j)) ==>
      var ix := DrawnIndices(OsmdDraw(v), s, e);
      && (forall k, l :: 0 <= k < l < |ix| ==> ix[k] < ix[l])
      && (forall j :: j in ix <==> s <= j <= e && StaveAt(v.graphic, j))
  {
    var draw := OsmdDraw(v);
    DrawnIndicesSpec(draw, s, e);
    forall j | s <= j <= e
      ensures draw(j).Drawn? <==> RoundOk(v, j) && StaveAt(v.graphic, j)
    {
      assert draw(j) == OsmdBand(v.drawer, v.graphic, v.zoom, j);
    }
  }

  /** Without an exception, the page gains one band per drawing round, in order. */
  lemma BandsAppended(v: Osmd, s: int, e: int, c: string)
    requires c != ""
    ensures var r := DrawMeasureBackGround(v, s, e, Present(c));
      var ix := DrawnIndices(OsmdDraw(v), s, e); var n0 := |v.page.nodes|;
      r.thrown.None? ==>
        && |r.state.page.nodes| == n0 + |ix| && r.state.page.nodes[..n0] == v.page.nodes
        && (forall k :: 0 <= k < |ix| ==>
              OsmdBand(v.drawer, v.graphic, v.zoom, ix[k]).Drawn?
              && r.state.page.nodes[n0 + k].item == OsmdBand(v.drawer, v.graphic, v.zoom, ix[k]).item)
  {
    var draw := OsmdDraw(v);
    var items := DrawRange(draw, s, e).0;
    var t := DrawRange(draw, s, e).1;
    var r := DrawMeasureBackGround(v, s, e, Present(c));
    assert r == Outcome(v.(page := AppendAll(v.page, items)), t);
    if t.None? {
      DrawRangeItems(draw, s, e);
      var ix := DrawnIndices(draw, s, e);
      forall k | 0 <= k < |ix|
        ensures OsmdBand(v.drawer, v.graphic, v.zoom, ix[k]).Drawn?
        ensures r.state.page.nodes[|v.page.nodes| + k].item == OsmdBand(v.drawer, v.graphic, v.zoom, ix[k]).item
      {
        assert draw(ix[k]) == OsmdBand(v.drawer, v.graphic, v.zoom, ix[k]);
      }
    }
  }

  /** The end index is not cut to the grid: a range reaching past the last row throws. */
  lemma NoClamp(v: Osmd, s: int, e: int, c: string)
    requires c != "" && v.graphic.Some? && 0 <= s <= e && e >= |v.graphic.value.grid|
    ensures DrawMeasureBackGround(v, s, e, Present(c)).thrown == Some(TypeError)
  {
    BandsInOrder(v, s, e, c);
    assert !RoundOk(v, e);
  }

  /** Before the first render drawMeasureBackGround leaves the viewer as it was, and throws
      exactly when a colour is given and the range is not empty. */
  lemma NoDrawerNoBands(v: Osmd, s: int, e: int, color: Nullable<string>)
    requires !v.drawer
    ensures var r := DrawMeasureBackGround(v, s, e, color);
      r.state == v && (r.thrown.Some? <==> HasColor(color) && s <= e)
  {
    if HasColor(color) && s <= e {
      var draw := OsmdDraw(v);
      assert draw(s) == OsmdBand(v.drawer, v.graphic, v.zoom, s);
      assert FirstFailure(draw, s, e, s);
      DrawRangeStopsAt(draw, s, e, s);
      assert DrawnItems(draw, s, s - 1) == [];
    }
  }

  /** clearAllMeasureBackGround: every band goes, everything else stays. */
  function ClearAllMeasureBackGround(v: Osmd): (r: Osmd)
    ensures forall i :: 0 <= i < |r.page.nodes| ==> !HasClass(r.page.nodes[i], BandClass)
    ensures forall n :: n in r.page.nodes <==> n in v.page.nodes && !HasClass(n, BandClass)
    ensures r.clauses == v.clauses && r.graphic == v.graphic && r.zoom == v.zoom
  {
    v.(page := Remove(v.page, BandClass))
  }

  /** Clearing the bands undoes drawing them, even a drawing that threw part-way. */
  lemma ClearUndoesBands(v: Osmd, s: int, e: int, color: Nullable<string>)
    ensures ClearAllMeasureBackGround(DrawMeasureBackGround(v, s, e, color).state).page.nodes
         == ClearAllMeasureBackGround(v).page.nodes
  {
    if HasColor(color) {
      var draw := OsmdDraw(v);
      forall j | s <= j <= e
        ensures OfClass(draw(j), BandClass)
      {
        assert draw(j) == OsmdBand(v.drawer, v.graphic, v.zoom, j);
      }
      DrawRangeOfClass(draw, s, e, BandClass);
      RemoveAppended(v.page, DrawRange(draw, s, e).0, BandClass);
    }
  }

  // ---------------------------------------------------------------------------------------
  // Stuck markers

  /** addStuckText(m, g, s): a marker 1.5 units left of and 2.5 units above staff entry s of
      measure (m, g); throws, appending nothing, when that entry does not exist or, after
      reading it, when there is no drawer. */
  function AddStuckText(v: Osmd, m: int, g: int, s: int): (r: Result<Osmd>)
    ensures r.Ok? <==> v.graphic.Some? && EntryAt(v.graphic.value, m, g, s).Ok? && v.drawer
    ensures r.Err? ==> r.error == TypeError
    ensures r.Ok? ==> var en := v.graphic.value.grid[m][g].entries[s];
      r.value == v.(page := Append(v.page, StuckMarker(Scale(en.x, v.zoom) - 15.0 * v.zoom,
                                                       Scale(en.y, v.zoom) - 25.0 * v.zoom)))
  {
    var sc :- Graphic(v);
    var en :- EntryAt(sc, m, g, s);
    if !v.drawer then Err(TypeError)
    else
      assert (en.x - 1.5) * 10.0 * v.zoom == Scale(en.x, v.zoom) - 15.0 * v.zoom;
      assert (en.y - 2.5) * 10.0 * v.zoom == Scale(en.y, v.zoom) - 25.0 * v.zoom;
      Ok(v.(page := Append(v.page, StuckMarker((en.x - 1.5) * 10.0 * v.zoom, (en.y - 2.5) * 10.0 * v.zoom))))
  }

  /** removeAllStuckComment: every stuck marker goes, everything else stays. */
  function RemoveAllStuckComment(v: Osmd): (r: Osmd)
    ensures forall i :: 0 <= i < |r.page.nodes| ==> !HasClass(r.page.nodes[i], StuckClass)
    ensures forall n :: n in r.page.nodes <==> n in v.page.nodes && !HasClass(n, StuckClass)
    ensures r.clauses == v.clauses && r.graphic == v.graphic && r.zoom == v.zoom
  {
    v.(page := Remove(v.page, StuckClass))
  }

  /** Removing the stuck markers undoes adding one. */
  lemma RemoveUndoesStuck(v: Osmd, m: int, g: int, s: int)
    requires AddStuckText(v, m, g, s).Ok?
    ensures RemoveAllStuckComment(AddStuckText(v, m, g, s).value).page.nodes == RemoveAllStuckComment(v).page.nodes
  {
    var en := v.graphic.value.grid[m][g].entries[s];
    var it := StuckMarker(Scale(en.x, v.zoom) - 15.0 * v.zoom, Scale(en.y, v.zoom) - 25.0 * v.zoom);
    assert AddStuckText(v, m, g, s).value.page == AppendAll(v.page, [it]);
    RemoveAppended(v.page, [it], StuckClass);
  }
}
