/** MeasureBackGround1: a coloured band behind each measure of a range, drawn into the
    container of the viewer, with its own list of the bands it drew so that hide and show can
    toggle them. Its state is kept next to the page it draws on. */
module MeasureBackground {
  import opened Common
  import opened Decimal
  import opened Dom
  import opened Score
  import opened Bands

  /** The fields of a MeasureBackGround1: `hidden`; the indices recorded by show (None while
      still undefined); `tracked`, the keys of measureBackgroundElements; `lastId`, the last
      value of measureBackgroundElementId; `graphic`, the score handed to init (None before). */
  datatype Background = Background(hidden: bool, start: Option<int>, end: Option<int>,
                                   tracked: seq<nat>, lastId: Option<string>, graphic: Option<Score>)

  /** A background object together with the page its container is part of. */
  datatype Scene = Scene(bg: Background, page: Surface)

  /** A scene after an operation, and the exception it ended with, if any. */
  datatype Effect = Effect(scene: Scene, thrown: Option<Error>)

  /** The state the constructor leaves: hidden, nothing tracked, no score yet. */
  const Fresh: Background := Background(true, None, None, [], None, None)

  /** The element id of the band of measure i: "measureBackgroundImg-" followed by i. */
  function BandId(i: int): string {
    ClassText(BandClass) + "-" + IntString(i)
  }

  /** The id starts with the class name and a dash, and the rest reads back as the measure
      index; so two measures never share an id. */
  lemma BandIdDecodes(i: int, j: int)
    ensures |BandId(i)| >= |ClassText(BandClass)| + 1 && BandId(i)[..|ClassText(BandClass)| + 1] == ClassText(BandClass) + "-"
    ensures ParseInt(BandId(i)[|ClassText(BandClass)| + 1..]) == Some(i)
    ensures BandId(i) == BandId(j) <==> i == j
  {
    var n := |ClassText(BandClass)| + 1;
    assert BandId(i)[n..] == IntString(i);
    assert BandId(j)[n..] == IntString(j);
    ParseIntString(i);
    ParseIntString(j);
  }

  /** drawerMeasureBackground(i): nothing for a measure without a stave; else the id is set,
      the band image attached, and then placed: left and width from the stave, top at the top
      stave line, height down to the bottom of the bottom line (its y plus its StaffHeight).
      An absent row throws before anything is attached; a system without stave lines throws
      after. */
  function MbBand(g: Option<Score>, zoom: real, i: int): (r: DrawResult)
    ensures r.Drawn? <==> BandOk(g, i) && StaveAt(g, i)
    ensures r.Skipped? <==> BandOk(g, i) && !StaveAt(g, i)
    ensures r.Failed? ==> (r.attached == [] <==> !(g.Some? && 0 <= i < |g.value.grid| && |g.value.grid[i]| > 0))
    ensures r.Failed? ==> r.attached == [] || r.attached == [Band(Some(BandId(i)), None)]
    ensures OfClass(r, BandClass)
    ensures r.Drawn? ==> r.item.Band? && r.item.id == Some(BandId(i)) && r.item.box.Some?
    ensures r.Drawn? ==> r.item.box.value == StaveBox(g.value.grid[i][|g.value.grid[i]| - 1], zoom)
  {
    if g.None? then Failed([])
    else
      match LastOfRow(g.value, i)
      case Err(_) => Failed([])
      case Ok(meas) =>
        match meas.stave
        case None => Skipped
        case Some(st) =>
          if |meas.parent.staffLines| == 0 then Failed([Band(Some(BandId(i)), None)])
          else Drawn(Band(Some(BandId(i)), Some(StaveBox(meas, zoom))))
  }

  /** Where the band of a measure goes: left and width from its stave, scaled by the zoom;
      top at the top stave line and height down to the bottom of the bottom line, scaled by
      10 and the zoom. */
  function StaveBox(meas: Measure, zoom: real): (b: BandBox)
    requires meas.stave.Some? && |meas.parent.staffLines| > 0
    ensures var lines := meas.parent.staffLines; var bottom := lines[|lines| - 1];
      && b.left == meas.stave.value.x * zoom && b.width == meas.stave.value.width * zoom
      && b.top == (meas.parent.y + lines[0].relY) * 10.0 * zoom
      && b.height == (bottom.relY + bottom.staffHeight - lines[0].relY) * 10.0 * zoom
  {
    var lines := meas.parent.staffLines;
    var bottom := lines[|lines| - 1];
    var y := meas.parent.y + lines[0].relY;
    var endY := meas.parent.y + bottom.relY + bottom.staffHeight;
    assert endY - y == bottom.relY + bottom.staffHeight - lines[0].relY;
    BandBox(meas.stave.value.x * zoom, meas.stave.value.width * zoom, Scale(y, zoom), Scale(endY - y, zoom))
  }

  function MbDraw(g: Option<Score>, zoom: real): int -> DrawResult {
    i => MbBand(g, zoom, i)
  }

  /** A band that was placed: it has a position and size. */
  predicate Placed(it: Item) {
    it.Band? && it.box.Some?
  }

  /** The id an element carries, if it is a band with one. */
  function IdOf(it: Item): Option<string> {
    if it.Band? then it.id else None
  }

  /** The loop of update from index i on, one call of draw per index: a drawn band is appended
      and pushed onto the tracked list; a band attached by a round that throws is not. The id
      field follows the last band created. */
  function MbLoop(draw: int -> DrawResult, i: int, e: int, sc: Scene): (r: (Scene, Option<Error>))
    ensures r.0.bg.hidden == sc.bg.hidden && r.0.bg.start == sc.bg.start && r.0.bg.end == sc.bg.end
    ensures r.0.bg.graphic == sc.bg.graphic
    ensures r.1.Some? ==> r.1.value == TypeError
    decreases if i <= e then e - i + 1 else 0
  {
    if i > e then (sc, None)
    else
      match draw(i)
      case Skipped => MbLoop(draw, i + 1, e, sc)
      case Drawn(it) =>
        var bg := sc.bg.(lastId := IdOf(it), tracked := sc.bg.tracked + [sc.page.nextKey]);
        MbLoop(draw, i + 1, e, Scene(bg, Append(sc.page, it)))
      case Failed(att) =>
        var bg := if att == [] then sc.bg else sc.bg.(lastId := IdOf(att[|att| - 1]));
        (Scene(bg, AppendAll(sc.page, att)), Some(TypeError))
  }

  /** The keys a, a + 1, ..., a + n - 1. */
  function Keys(a: nat, n: nat): (r: seq<nat>)
    ensures |r| == n
  {
    seq(n, k requires 0 <= k < n => a + k)
  }

  /** One pushed key in front of a run of keys makes a longer run. */
  lemma TrackedStep(tr: seq<nat>, t0: seq<nat>, nk: nat)
    requires |tr| >= |t0| + 1 && tr[..|t0| + 1] == t0 + [nk]
    requires tr[|t0| + 1..] == Keys(nk + 1, |tr| - |t0| - 1)
    ensures tr[..|t0|] == t0 && tr[|t0|..] == Keys(nk, |tr| - |t0|)
  {
    assert tr[..|t0|] == (t0 + [nk])[..|t0|];
    assert tr[|t0|] == nk;
    assert tr[|t0|..] == [tr[|t0|]] + tr[|t0| + 1..];
    KeysCons(nk, |tr| - |t0|);
  }

  lemma KeysCons(a: nat, n: nat)
    requires n > 0
    ensures Keys(a, n) == [a] + Keys(a + 1, n - 1)
  {
    assert forall k :: 0 <= k < n ==> Keys(a, n)[k] == ([a] + Keys(a + 1, n - 1))[k];
  }

  /** What the loop does to the page is the shared loop of the band drawers. */
  lemma {:induction false} MbLoopPage(draw: int -> DrawResult, i: int, e: int, sc: Scene)
    ensures MbLoop(draw, i, e, sc).0.page == AppendAll(sc.page, DrawRange(draw, i, e).0)
    ensures MbLoop(draw, i, e, sc).1 == DrawRange(draw, i, e).1
    decreases if i <= e then e - i + 1 else 0
  {
    if i <= e {
      match draw(i)
      case Skipped =>
        MbLoopPage(draw, i + 1, e, sc);
        assert MbLoop(draw, i, e, sc) == MbLoop(draw, i + 1, e, sc);
        assert DrawRange(draw, i, e) == DrawRange(draw, i + 1, e);
      case Failed(att) =>
      case Drawn(it) =>
        var sc1 := Scene(sc.bg.(lastId := IdOf(it), tracked := sc.bg.tracked + [sc.page.nextKey]), Append(sc.page, it));
        MbLoopPage(draw, i + 1, e, sc1);
        assert MbLoop(draw, i, e, sc) == MbLoop(draw, i + 1, e, sc1);
        var (rest, t) := DrawRange(draw, i + 1, e);
        assert DrawRange(draw, i, e) == ([it] + rest, t);
        AppendAllCons(sc.page, it, rest);
    }
  }

  /** A round places what it draws and places nothing it attaches before throwing. */
  predicate PlacesDrawn(d: DrawResult) {
    && (d.Drawn? ==> Placed(d.item))
    && (d.Failed? ==> forall k :: 0 <= k < |d.attached| ==> !Placed(d.attached[k]))
  }

  /** A tracked list `tr` that extends `t0` by the run of keys from nk, one for each leading
      placed element of `items`: the placed ones come first, and only they are tracked. */
  predicate TracksPlaced(t0: seq<nat>, tr: seq<nat>, nk: nat, items: seq<Item>) {
    && |t0| <= |tr| <= |t0| + |items|
    && tr[..|t0|] == t0
    && tr[|t0|..] == Keys(nk, |tr| - |t0|)
    && (forall k :: 0 <= k < |items| ==> (Placed(items[k]) <==> k < |tr| - |t0|))
  }

  /** The tracked list grows by the keys of the appended elements that were placed, which
      come first; a band a throwing round attached is left out. */
  lemma {:induction false} MbLoopTracked(draw: int -> DrawResult, i: int, e: int, sc: Scene)
    requires forall j :: i <= j <= e ==> PlacesDrawn(draw(j))
    ensures TracksPlaced(sc.bg.tracked, MbLoop(draw, i, e, sc).0.bg.tracked, sc.page.nextKey, DrawRange(draw, i, e).0)
    decreases if i <= e then e - i + 1 else 0
  {
    if i <= e {
      var t0 := sc.bg.tracked;
      assert PlacesDrawn(draw(i));
      match draw(i)
      case Skipped =>
        MbLoopTracked(draw, i + 1, e, sc);
        assert MbLoop(draw, i, e, sc) == MbLoop(draw, i + 1, e, sc);
        assert DrawRange(draw, i, e) == DrawRange(draw, i + 1, e);
      case Failed(att) =>
        var r := MbLoop(draw, i, e, sc).0;
        assert DrawRange(draw, i, e).0 == att;
        assert r.bg.tracked == t0;
        assert r.bg.tracked[|t0|..] == [];
      case Drawn(it) =>
        var nk := sc.page.nextKey;
        var sc1 := Scene(sc.bg.(lastId := IdOf(it), tracked := t0 + [nk]), Append(sc.page, it));
        MbLoopTracked(draw, i + 1, e, sc1);
        assert MbLoop(draw, i, e, sc) == MbLoop(draw, i + 1, e, sc1);
        var rest := DrawRange(draw, i + 1, e).0;
        assert DrawRange(draw, i, e).0 == [it] + rest;
        TracksPlacedCons(t0, MbLoop(draw, i, e, sc).0.bg.tracked, nk, it, rest);
    }
  }

  /** Starting from nothing tracked, the tracked list is the run of keys of the leading placed
      elements. */
  lemma TracksFromEmpty(tr: seq<nat>, nk: nat, items: seq<Item>)
    requires TracksPlaced([], tr, nk, items)
    ensures |tr| <= |items| && tr == Keys(nk, |tr|)
    ensures forall k :: 0 <= k < |items| ==> (Placed(items[k]) <==> k < |tr|)
  {
    assert tr == tr[0..];
  }

  /** A placed element in front: its key goes in front of the run. */
  lemma TracksPlacedCons(t0: seq<nat>, tr: seq<nat>, nk: nat, it: Item, rest: seq<Item>)
    requires Placed(it) && TracksPlaced(t0 + [nk], tr, nk + 1, rest)
    ensures TracksPlaced(t0, tr, nk, [it] + rest)
  {
    var n := |tr| - |t0|;
    TrackedStep(tr, t0, nk);
    var items := [it] + rest;
    forall k | 0 <= k < |items|
      ensures Placed(items[k]) <==> k < n
    {
      if k > 0 {
        assert items[k] == rest[k - 1];
      }
    }
  }

  /** The id field ends with that of the last element appended. */
  lemma {:induction false} MbLoopLastId(draw: int -> DrawResult, i: int, e: int, sc: Scene)
    ensures var r := MbLoop(draw, i, e, sc).0; var items := DrawRange(draw, i, e).0;
      r.bg.lastId == (if items == [] then sc.bg.lastId else IdOf(items[|items| - 1]))
    decreases if i <= e then e - i + 1 else 0
  {
    if i <= e {
      match draw(i)
      case Skipped =>
        MbLoopLastId(draw, i + 1, e, sc);
      case Failed(att) =>
      case Drawn(it) =>
        var sc1 := Scene(sc.bg.(lastId := IdOf(it), tracked := sc.bg.tracked + [sc.page.nextKey]), Append(sc.page, it));
        MbLoopLastId(draw, i + 1, e, sc1);
        var rest := DrawRange(draw, i + 1, e).0;
        var items := DrawRange(draw, i, e).0;
        assert items == [it] + rest;
        if rest != [] {
          assert items[|items| - 1] == rest[|rest| - 1];
        }
    }
  }

  /** The drawer of this class fits the tracking: what it draws is placed, what it attaches
      before throwing is not. */
  lemma MbDrawPlaces(g: Option<Score>, zoom: real)
    ensures forall j :: MbDraw(g, zoom)(j) == MbBand(g, zoom, j) && PlacesDrawn(MbDraw(g, zoom)(j))
  {
    forall j
      ensures MbDraw(g, zoom)(j) == MbBand(g, zoom, j) && PlacesDrawn(MbDraw(g, zoom)(j))
    {
      var d := MbBand(g, zoom, j);
      if d.Failed? && d.attached != [] {
        assert d.attached == [Band(Some(BandId(j)), None)];
      }
    }
  }

  /** clear: every band of the document goes, and the tracked list is emptied. */
  function Clear(sc: Scene): (r: Scene)
    ensures r.bg == sc.bg.(tracked := [])
    ensures forall i :: 0 <= i < |r.page.nodes| ==> !HasClass(r.page.nodes[i], BandClass)
    ensures forall n :: n in r.page.nodes <==> n in sc.page.nodes && !HasClass(n, BandClass)
    ensures r.page.nextKey == sc.page.nextKey
    ensures WellKeyed(sc.page) ==> WellKeyed(r.page)
  {
    Scene(sc.bg.(tracked := []), Remove(sc.page, BandClass))
  }

  /** The clamp of the end index after the loop reads MeasureList of the score, so it throws
      before init; otherwise it has no effect, as the clamped index is not used. */
  function Clamp(g: Option<Score>): Option<Error> {
    if g.None? then Some(TypeError) else None
  }

  /** update(s, e, color): clear; with a colour, one round per index s..e; then the clamp. An
      exception in the loop ends update before the clamp. */
  function Update(sc: Scene, zoom: real, s: int, e: int, color: Nullable<string>): (r: Effect)
    ensures r.scene.bg.hidden == sc.bg.hidden && r.scene.bg.start == sc.bg.start && r.scene.bg.end == sc.bg.end
    ensures r.scene.bg.graphic == sc.bg.graphic
    ensures !HasColor(color) ==> r.scene == Clear(sc)
    ensures r.thrown.Some? ==> r.thrown.value == TypeError
  {
    var c := Clear(sc);
    if HasColor(color) then
      var (after, t) := MbLoop(MbDraw(sc.bg.graphic, zoom), s, e, c);
      Effect(after, if t.Some? then t else Clamp(sc.bg.graphic))
    else Effect(c, Clamp(sc.bg.graphic))
  }

  /** update ends without an exception exactly when a score was given to init and, with a
      colour, every round s..e can complete. */
  lemma UpdateThrows(sc: Scene, zoom: real, s: int, e: int, color: Nullable<string>)
    ensures Update(sc, zoom, s, e, color).thrown.None? <==>
      sc.bg.graphic.Some? && (HasColor(color) ==> forall j :: s <= j <= e ==> BandOk(sc.bg.graphic, j))
  {
    if HasColor(color) {
      var draw := MbDraw(sc.bg.graphic, zoom);
      MbLoopPage(draw, s, e, Clear(sc));
      DrawRangeSpec(draw, s, e);
      forall j
        ensures draw(j).Failed? <==> !BandOk(sc.bg.graphic, j)
      {
        assert draw(j) == MbBand(sc.bg.graphic, zoom, j);
      }
    }
  }

  /** Element n1 + k of the page is visible, has key k0 + k and shows the band round d drew. */
  predicate AppendedAt(page: Surface, n1: nat, k0: nat, k: nat, d: DrawResult) {
    n1 + k < |page.nodes| && d.Drawn? && page.nodes[n1 + k] == Node(k0 + k, true, d.item)
  }

  /** A loop that runs to the end appends one element per drawing round, in order. */
  lemma LoopAppendsDrawn(draw: int -> DrawResult, s: int, e: int, c0: Scene)
    ensures var r := MbLoop(draw, s, e, c0); var ix := DrawnIndices(draw, s, e); var n1 := |c0.page.nodes|;
      r.1.None? ==>
        && |r.0.page.nodes| == n1 + |ix| && r.0.page.nodes[..n1] == c0.page.nodes
        && forall k: nat :: k < |ix| ==> AppendedAt(r.0.page, n1, c0.page.nextKey, k, draw(ix[k]))
  {
    var r := MbLoop(draw, s, e, c0);
    MbLoopPage(draw, s, e, c0);
    if r.1.None? {
      var items := DrawRange(draw, s, e).0;
      var ix := DrawnIndices(draw, s, e);
      DrawRangeItems(draw, s, e);
      forall k: nat | k < |ix|
        ensures AppendedAt(r.0.page, |c0.page.nodes|, c0.page.nextKey, k, draw(ix[k]))
      {
        AppendedAtItem(c0.page, items, k, draw(ix[k]));
      }
    }
  }

  /** The k-th of the items appended to a page, when it is the band d drew. */
  lemma {:induction false} AppendedAtItem(page: Surface, items: seq<Item>, k: nat, d: DrawResult)
    requires k < |items| && d.Drawn? && items[k] == d.item
    ensures AppendedAt(AppendAll(page, items), |page.nodes|, page.nextKey, k, d)
  {
    AppendAllKeys(page, items);
  }

  /** A loop that runs to the end over a scene with nothing tracked tracks the keys of the
      elements it appended, and leaves the id field at the last band's. */
  lemma LoopTracksKeys(draw: int -> DrawResult, s: int, e: int, c0: Scene)
    requires c0.bg.tracked == []
    requires forall j :: s <= j <= e ==> PlacesDrawn(draw(j))
    ensures var r := MbLoop(draw, s, e, c0); var ix := DrawnIndices(draw, s, e);
      r.1.None? ==>
        && r.0.bg.tracked == Keys(c0.page.nextKey, |ix|)
        && (ix == [] ==> r.0.bg.lastId == c0.bg.lastId)
        && (ix != [] ==> |r.0.page.nodes| > 0 && r.0.bg.lastId == IdOf(r.0.page.nodes[|r.0.page.nodes| - 1].item))
  {
    LoopTracked(draw, s, e, c0);
    LoopLastId(draw, s, e, c0);
  }

  /** The tracking half of LoopTracksKeys. */
  lemma LoopTracked(draw: int -> DrawResult, s: int, e: int, c0: Scene)
    requires c0.bg.tracked == []
    requires forall j :: s <= j <= e ==> PlacesDrawn(draw(j))
    ensures var r := MbLoop(draw, s, e, c0);
      r.1.None? ==> r.0.bg.tracked == Keys(c0.page.nextKey, |DrawnIndices(draw, s, e)|)
  {
    var r := MbLoop(draw, s, e, c0);
    MbLoopPage(draw, s, e, c0);
    if r.1.None? {
      var items := DrawRange(draw, s, e).0;
      CompletedPlaced(draw, s, e);
      MbLoopTracked(draw, s, e, c0);
      TracksAllPlaced(r.0.bg.tracked, c0.page.nextKey, items);
    }
  }

  /** The id half of LoopTracksKeys. */
  lemma LoopLastId(draw: int -> DrawResult, s: int, e: int, c0: Scene)
    ensures var r := MbLoop(draw, s, e, c0); var ix := DrawnIndices(draw, s, e);
      r.1.None? ==>
        && (ix == [] ==> r.0.bg.lastId == c0.bg.lastId)
        && (ix != [] ==> |r.0.page.nodes| > 0 && r.0.bg.lastId == IdOf(r.0.page.nodes[|r.0.page.nodes| - 1].item))
  {
    var r := MbLoop(draw, s, e, c0);
    if r.1.None? {
      var items := DrawRange(draw, s, e).0;
      var ix := DrawnIndices(draw, s, e);
      assert r.0.page == AppendAll(c0.page, items) && DrawRange(draw, s, e).1.None? by {
        MbLoopPage(draw, s, e, c0);
      }
      assert |items| == |ix| by {
        DrawRangeItems(draw, s, e);
      }
      assert r.0.bg.lastId == (if items == [] then c0.bg.lastId else IdOf(items[|items| - 1])) by {
        MbLoopLastId(draw, s, e, c0);
      }
      if items != [] {
        LastAppended(c0.page, items);
      }
    }
  }

  /** A loop that runs to the end appended one placed band per drawing round. */
  lemma CompletedPlaced(draw: int -> DrawResult, s: int, e: int)
    requires forall j :: s <= j <= e ==> PlacesDrawn(draw(j))
    ensures var items := DrawRange(draw, s, e).0;
      DrawRange(draw, s, e).1.None? ==>
        |items| == |DrawnIndices(draw, s, e)| && forall k :: 0 <= k < |items| ==> Placed(items[k])
  {
    if DrawRange(draw, s, e).1.None? {
      var items := DrawRange(draw, s, e).0;
      var ix := DrawnIndices(draw, s, e);
      DrawRangeItems(draw, s, e);
      DrawnIndicesSpec(draw, s, e);
      forall k | 0 <= k < |items|
        ensures Placed(items[k])
      {
        assert ix[k] in ix;
        assert PlacesDrawn(draw(ix[k]));
      }
    }
  }

  /** When every appended element was placed, all of them are tracked. */
  lemma TracksAllPlaced(tr: seq<nat>, nk: nat, items: seq<Item>)
    requires TracksPlaced([], tr, nk, items)
    requires forall k :: 0 <= k < |items| ==> Placed(items[k])
    ensures tr == Keys(nk, |items|)
  {
    TracksFromEmpty(tr, nk, items);
    if items != [] {
      assert Placed(items[|items| - 1]);
    }
  }

  /** The last element of the page after appending is the last item appended. */
  lemma LastAppended(page: Surface, items: seq<Item>)
    requires items != []
    ensures |AppendAll(page, items).nodes| > 0
    ensures AppendAll(page, items).nodes[|AppendAll(page, items).nodes| - 1].item == items[|items| - 1]
  {
    var r := AppendAll(page, items);
    assert r.nodes[|page.nodes| + (|items| - 1)].item == items[|items| - 1];
  }

  /** Round k of a successful update: the k-th new element is the band d drew, visible, and
      its key is the k-th tracked one. */
  predicate TrackedBand(sc: Scene, n1: nat, k: nat, d: DrawResult) {
    && k < |sc.bg.tracked| && n1 + k < |sc.page.nodes| && d.Drawn?
    && sc.page.nodes[n1 + k] == Node(sc.bg.tracked[k], true, d.item)
  }

  /** Both together: a loop that runs to the end over a scene with nothing tracked appends
      one visible element per drawing round, in order, tracks exactly those, and leaves the
      id field at the last one's. */
  lemma LoopOutcome(draw: int -> DrawResult, s: int, e: int, c0: Scene)
    requires c0.bg.tracked == []
    requires forall j :: s <= j <= e ==> PlacesDrawn(draw(j))
    ensures var r := MbLoop(draw, s, e, c0); var ix := DrawnIndices(draw, s, e); var n1 := |c0.page.nodes|;
      r.1.None? ==>
        && |r.0.page.nodes| == n1 + |ix| && r.0.page.nodes[..n1] == c0.page.nodes
        && r.0.bg.tracked == Keys(c0.page.nextKey, |ix|)
        && (forall k: nat :: k < |ix| ==> TrackedBand(r.0, n1, k, draw(ix[k])))
        && (ix == [] ==> r.0.bg.lastId == c0.bg.lastId)
        && (ix != [] ==> TrackedBand(r.0, n1, |ix| - 1, draw(ix[|ix| - 1]))
                         && r.0.bg.lastId == IdOf(draw(ix[|ix| - 1]).item))
  {
    var r := MbLoop(draw, s, e, c0);
    LoopAppendsDrawn(draw, s, e, c0);
    LoopTracksKeys(draw, s, e, c0);
    if r.1.None? {
      var ix := DrawnIndices(draw, s, e);
      var n1 := |c0.page.nodes|;
      forall k: nat | k < |ix|
        ensures TrackedBand(r.0, n1, k, draw(ix[k]))
      {
        assert AppendedAt(r.0.page, n1, c0.page.nextKey, k, draw(ix[k]));
        assert r.0.bg.tracked[k] == c0.page.nextKey + k;
      }
      if ix != [] {
        assert AppendedAt(r.0.page, n1, c0.page.nextKey, |ix| - 1, draw(ix[|ix| - 1]));
      }
    }
  }

  /** When every round of s..e can complete, the drawing rounds are those whose measure has a
      stave, in ascending order. */
  lemma DrawnStaves(g: Option<Score>, zoom: real, s: int, e: int)
    requires forall j :: s <= j <= e ==> BandOk(g, j)
    ensures var ix := DrawnIndices(MbDraw(g, zoom), s, e);
      && (forall k, l :: 0 <= k < l < |ix| ==> ix[k] < ix[l])
      && (forall j :: j in ix <==> s <= j <= e && StaveAt(g, j))
  {
    var draw := MbDraw(g, zoom);
    DrawnIndicesSpec(draw, s, e);
    forall j | s <= j <= e
      ensures draw(j).Drawn? <==> StaveAt(g, j)
    {
      assert draw(j) == MbBand(g, zoom, j);
    }
  }

  /** With a colour and no exception, update leaves the page as clear left it plus one band per
      index of s..e whose measure has a stave, ascending, and tracks exactly those bands, in
      that order; the last id is that of the last band. */
  lemma UpdateTracksBands(sc: Scene, zoom: real, s: int, e: int, c: string)
    requires c != ""
    ensures var r := Update(sc, zoom, s, e, Present(c)); var g := sc.bg.graphic;
      var ix := DrawnIndices(MbDraw(g, zoom), s, e); var cleared := Clear(sc).page;
      var n1 := |cleared.nodes|;
      r.thrown.None? ==>
        && (forall k, l :: 0 <= k < l < |ix| ==> ix[k] < ix[l])
        && (forall j :: j in ix <==> s <= j <= e && StaveAt(g, j))
        && |r.scene.page.nodes| == n1 + |ix| && r.scene.page.nodes[..n1] == cleared.nodes
        && r.scene.bg.tracked == Keys(sc.page.nextKey, |ix|)
        && (forall k: nat :: k < |ix| ==> TrackedBand(r.scene, n1, k, MbBand(g, zoom, ix[k])))
        && r.scene.bg.lastId == (if ix == [] then sc.bg.lastId else Some(BandId(ix[|ix| - 1])))
  {
    var g := sc.bg.graphic;
    var c0 := Clear(sc);
    UpdateRunsLoop(sc, zoom, s, e, c);
    if Update(sc, zoom, s, e, Present(c)).thrown.None? {
      DrawnStaves(g, zoom, s, e);
      MbOutcome(g, zoom, s, e, c0);
    }
  }

  /** With a colour, update leaves the scene the loop leaves after clear, and it ends without
      an exception only when the loop does and every round can complete. */
  lemma UpdateRunsLoop(sc: Scene, zoom: real, s: int, e: int, c: string)
    requires c != ""
    ensures var r := Update(sc, zoom, s, e, Present(c));
      var loop := MbLoop(MbDraw(sc.bg.graphic, zoom), s, e, Clear(sc));
      && r.scene == loop.0
      && (r.thrown.None? ==> loop.1.None? && forall j :: s <= j <= e ==> BandOk(sc.bg.graphic, j))
  {
    UpdateThrows(sc, zoom, s, e, Present(c));
  }

  /** The loop of this class over a scene with nothing tracked, when it runs to the end:
      one tracked, visible band per drawing round, and the id of the last one. */
  lemma MbOutcome(g: Option<Score>, zoom: real, s: int, e: int, c0: Scene)
    requires c0.bg.tracked == []
    ensures var draw := MbDraw(g, zoom); var loop := MbLoop(draw, s, e, c0);
      var ix := DrawnIndices(draw, s, e); var n1 := |c0.page.nodes|;
      loop.1.None? ==>
        && |loop.0.page.nodes| == n1 + |ix| && loop.0.page.nodes[..n1] == c0.page.nodes
        && loop.0.bg.tracked == Keys(c0.page.nextKey, |ix|)
        && (forall k: nat :: k < |ix| ==> TrackedBand(loop.0, n1, k, MbBand(g, zoom, ix[k])))
        && loop.0.bg.lastId == (if ix == [] then c0.bg.lastId else Some(BandId(ix[|ix| - 1])))
  {
    var draw := MbDraw(g, zoom);
    MbDrawPlaces(g, zoom);
    LoopOutcome(draw, s, e, c0);
    var ix := DrawnIndices(draw, s, e);
    if ix != [] {
      assert draw(ix[|ix| - 1]) == MbBand(g, zoom, ix[|ix| - 1]);
    }
  }

  /** Removing the bands after the loop leaves what removing them before it leaves, when the
      loop only ever appends bands. */
  lemma LoopThenRemove(draw: int -> DrawResult, s: int, e: int, c0: Scene)
    requires forall j :: s <= j <= e ==> OfClass(draw(j), BandClass)
    ensures Remove(MbLoop(draw, s, e, c0).0.page, BandClass).nodes == Remove(c0.page, BandClass).nodes
  {
    DrawRangeOfClass(draw, s, e, BandClass);
    MbLoopPage(draw, s, e, c0);
    RemoveAppended(c0.page, DrawRange(draw, s, e).0, BandClass);
  }

  /** Clearing after an update leaves the page clearing before it leaves: update only ever
      adds bands, even when it throws part-way. */
  lemma ClearUndoesUpdate(sc: Scene, zoom: real, s: int, e: int, color: Nullable<string>)
    ensures Clear(Update(sc, zoom, s, e, color).scene).page.nodes == Clear(sc).page.nodes
  {
    var c0 := Clear(sc);
    WithoutNone(c0.page.nodes, BandClass);
    if HasColor(color) {
      var g := sc.bg.graphic;
      MbDrawPlaces(g, zoom);
      LoopThenRemove(MbDraw(g, zoom), s, e, c0);
    }
  }

  /** A loop whose first throwing round f attaches nothing ends in the scene the loop up to
      f - 1 ends in, with an exception where that one has none. */
  lemma {:induction false} LoopStopsAt(draw: int -> DrawResult, s: int, e: int, f: int, sc: Scene)
    requires s <= f <= e && draw(f) == Failed([])
    requires forall j :: s <= j < f ==> !draw(j).Failed?
    ensures MbLoop(draw, s, e, sc).0 == MbLoop(draw, s, f - 1, sc).0
    ensures MbLoop(draw, s, e, sc).1 == Some(TypeError) && MbLoop(draw, s, f - 1, sc).1 == None
    decreases f - s
  {
    if s == f {
      assert AppendAll(sc.page, []) == sc.page;
    } else {
      assert !draw(s).Failed?;
      match draw(s)
      case Skipped =>
        LoopStopsAt(draw, s + 1, e, f, sc);
      case Drawn(it) =>
        var bg := sc.bg.(lastId := IdOf(it), tracked := sc.bg.tracked + [sc.page.nextKey]);
        LoopStopsAt(draw, s + 1, e, f, Scene(bg, Append(sc.page, it)));
    }
  }

  /** The clamp comes after the loop, so it bounds nothing: an end index past the last row
      leaves the same bands and tracked elements as the last row itself would, and only adds
      the exception of the missing row. */
  lemma ClampTooLate(sc: Scene, zoom: real, s: int, e: int, c: string)
    requires c != "" && sc.bg.graphic.Some?
    requires s <= |sc.bg.graphic.value.grid| <= e
    requires forall j :: s <= j < |sc.bg.graphic.value.grid| ==> BandOk(sc.bg.graphic, j)
    ensures var last := |sc.bg.graphic.value.grid| - 1;
      && Update(sc, zoom, s, e, Present(c)).scene == Update(sc, zoom, s, last, Present(c)).scene
      && Update(sc, zoom, s, e, Present(c)).thrown == Some(TypeError)
      && Update(sc, zoom, s, last, Present(c)).thrown == None
  {
    var g := sc.bg.graphic;
    var n := |g.value.grid|;
    var draw := MbDraw(g, zoom);
    MbDrawPlaces(g, zoom);
    forall j | s <= j < n
      ensures !draw(j).Failed?
    {
      assert BandOk(g, j);
    }
    assert draw(n) == Failed([]);
    LoopStopsAt(draw, s, e, n, Clear(sc));
  }

  /** hide: every tracked element is hidden, the rest of the page is untouched. */
  function Hide(sc: Scene): (r: Scene)
    ensures r.bg == sc.bg.(hidden := true)
    ensures |r.page.nodes| == |sc.page.nodes| && r.page.nextKey == sc.page.nextKey
    ensures forall i :: 0 <= i < |r.page.nodes| ==>
      && (r.page.nodes[i].key in sc.bg.tracked ==> !r.page.nodes[i].shown)
      && (r.page.nodes[i].key !in sc.bg.tracked ==> r.page.nodes[i] == sc.page.nodes[i])
      && r.page.nodes[i].item == sc.page.nodes[i].item && r.page.nodes[i].key == sc.page.nodes[i].key
    ensures WellKeyed(sc.page) ==> WellKeyed(r.page)
  {
    Scene(sc.bg.(hidden := true), SetShown(sc.page, sc.bg.tracked, false))
  }

  /** init(manager, graphic): the score is kept, and the object is hidden. */
  function Init(sc: Scene, g: Option<Score>): (r: Scene)
    ensures r.bg.hidden && r.bg.graphic == g
    ensures r.bg.tracked == sc.bg.tracked && r.bg.lastId == sc.bg.lastId
    ensures r.bg.start == sc.bg.start && r.bg.end == sc.bg.end
    ensures forall i :: 0 <= i < |r.page.nodes| ==> (r.page.nodes[i].key in r.bg.tracked ==> !r.page.nodes[i].shown)
    ensures |r.page.nodes| == |sc.page.nodes| && r.page.nextKey == sc.page.nextKey
    ensures forall i :: 0 <= i < |r.page.nodes| ==>
      && (r.page.nodes[i].key !in sc.bg.tracked ==> r.page.nodes[i] == sc.page.nodes[i])
      && r.page.nodes[i].item == sc.page.nodes[i].item && r.page.nodes[i].key == sc.page.nodes[i].key
  {
    Hide(Scene(sc.bg.(graphic := g, hidden := true), sc.page))
  }

  /** init then show with a negative index: the object is visible again and every tracked
      element is shown, while every other element is as it was before init. */
  lemma InitThenShow(sc: Scene, g: Option<Score>, zoom: real, s: int, e: int, color: Nullable<string>)
    requires !(s >= 0 && e >= 0)
    ensures var r := Show(Init(sc, g), zoom, s, e, color);
      && r.thrown.None? && !r.scene.bg.hidden && r.scene.bg.graphic == g
      && |r.scene.page.nodes| == |sc.page.nodes|
      && forall i :: 0 <= i < |sc.page.nodes| ==>
           r.scene.page.nodes[i] == sc.page.nodes[i].(shown := sc.page.nodes[i].shown || sc.page.nodes[i].key in sc.bg.tracked)
  {
  }

  /** show(s, e, color): the indices are recorded and every tracked element made visible;
      update runs only when both indices are non-negative. */
  function Show(sc: Scene, zoom: real, s: int, e: int, color: Nullable<string>): (r: Effect)
    ensures !r.scene.bg.hidden && r.scene.bg.start == Some(s) && r.scene.bg.end == Some(e)
    ensures r.scene.bg.graphic == sc.bg.graphic
    ensures !(s >= 0 && e >= 0) ==> r.thrown.None? && r.scene.bg.tracked == sc.bg.tracked
    ensures !(s >= 0 && e >= 0) ==> |r.scene.page.nodes| == |sc.page.nodes| && forall i :: 0 <= i < |sc.page.nodes| ==>
      r.scene.page.nodes[i] == if sc.page.nodes[i].key in sc.bg.tracked then sc.page.nodes[i].(shown := true) else sc.page.nodes[i]
  {
    var shown := Scene(sc.bg.(start := Some(s), end := Some(e), hidden := false), Revealed(sc));
    if s >= 0 && e >= 0 then Update(shown, zoom, s, e, color) else Effect(shown, None)
  }

  /** The page show leaves before its update: every tracked element made visible. */
  function Revealed(sc: Scene): Surface {
    SetShown(sc.page, sc.bg.tracked, true)
  }

  /** show with both indices non-negative runs update: it throws exactly when update would,
      with a colour it draws one band per row in the range that has a stave and tracks them,
      and the elements that are not bands stay, every tracked one visible. */
  lemma ShowDraws(sc: Scene, zoom: real, s: int, e: int, color: Nullable<string>)
    requires s >= 0 && e >= 0
    ensures var r := Show(sc, zoom, s, e, color); var g := sc.bg.graphic;
      var cleared := Remove(Revealed(sc), BandClass); var n1 := |cleared.nodes|;
      var ix := DrawnIndices(MbDraw(g, zoom), s, e);
      && !r.scene.bg.hidden && r.scene.bg.start == Some(s) && r.scene.bg.end == Some(e)
      && (r.thrown.None? <==> g.Some? && (HasColor(color) ==> forall j :: s <= j <= e ==> BandOk(g, j)))
      && (!HasColor(color) ==> r.scene.page == cleared && r.scene.bg.tracked == [])
      && (HasColor(color) && r.thrown.None? ==>
            && (forall j :: j in ix <==> s <= j <= e && StaveAt(g, j))
            && |r.scene.page.nodes| == n1 + |ix| && r.scene.page.nodes[..n1] == cleared.nodes
            && r.scene.bg.tracked == Keys(sc.page.nextKey, |ix|)
            && (forall k: nat :: k < |ix| ==> TrackedBand(r.scene, n1, k, MbBand(g, zoom, ix[k]))))
  {
    var shown := Scene(sc.bg.(start := Some(s), end := Some(e), hidden := false), Revealed(sc));
    assert Show(sc, zoom, s, e, color) == Update(shown, zoom, s, e, color);
    UpdateThrows(shown, zoom, s, e, color);
    if HasColor(color) {
      UpdateTracksBands(shown, zoom, s, e, color.value);
    }
  }

  /** Every element the tracked list refers to is visible. */
  predicate TrackedShown(sc: Scene) {
    forall i :: 0 <= i < |sc.page.nodes| && sc.page.nodes[i].key in sc.bg.tracked ==> sc.page.nodes[i].shown
  }

  /** The loop over a scene with nothing tracked and distinct keys leaves every element it
      tracks visible: those are the elements it appended. */
  lemma LoopShowsTracked(draw: int -> DrawResult, s: int, e: int, c0: Scene)
    requires c0.bg.tracked == [] && WellKeyed(c0.page)
    requires forall j :: s <= j <= e ==> PlacesDrawn(draw(j))
    ensures TrackedShown(MbLoop(draw, s, e, c0).0) && WellKeyed(MbLoop(draw, s, e, c0).0.page)
  {
    MbLoopPage(draw, s, e, c0);
    MbLoopTracked(draw, s, e, c0);
    var r := MbLoop(draw, s, e, c0).0;
    var items := DrawRange(draw, s, e).0;
    var nk := c0.page.nextKey;
    var n1 := |c0.page.nodes|;
    AppendAllShown(c0.page, items);
    AppendAllWellKeyed(c0.page, items);
    TracksFromEmpty(r.bg.tracked, nk, items);
    forall j | 0 <= j < |r.bg.tracked|
      ensures r.bg.tracked[j] >= nk
    {
    }
    forall i | 0 <= i < n1
      ensures r.page.nodes[i].key !in r.bg.tracked
    {
      assert r.page.nodes[i] == c0.page.nodes[i];
    }
  }

  /** update leaves every tracked element visible, whether or not the object is hidden, and
      keeps the keys of the page distinct. */
  lemma UpdateShowsTracked(sc: Scene, zoom: real, s: int, e: int, color: Nullable<string>)
    requires WellKeyed(sc.page)
    ensures TrackedShown(Update(sc, zoom, s, e, color).scene)
    ensures WellKeyed(Update(sc, zoom, s, e, color).scene.page)
  {
    if HasColor(color) {
      MbDrawPlaces(sc.bg.graphic, zoom);
      LoopShowsTracked(MbDraw(sc.bg.graphic, zoom), s, e, Clear(sc));
    }
  }

  /** update does not look at the hidden flag: after hide, an update draws visible bands while
      the object still says it is hidden. */
  lemma UpdateWhileHidden(sc: Scene, zoom: real, s: int, e: int, color: Nullable<string>)
    requires WellKeyed(sc.page)
    ensures Update(Hide(sc), zoom, s, e, color).scene.bg.hidden
    ensures TrackedShown(Update(Hide(sc), zoom, s, e, color).scene)
  {
    UpdateShowsTracked(Hide(sc), zoom, s, e, color);
  }

  /** After show every tracked element is visible, with or without the update. */
  lemma ShowReveals(sc: Scene, zoom: real, s: int, e: int, color: Nullable<string>)
    requires WellKeyed(sc.page)
    ensures TrackedShown(Show(sc, zoom, s, e, color).scene)
  {
    var shown := Scene(sc.bg.(start := Some(s), end := Some(e), hidden := false), Revealed(sc));
    if s >= 0 && e >= 0 {
      UpdateShowsTracked(shown, zoom, s, e, color);
    }
  }

  /** show without an update undoes hide, when every tracked element was visible before. */
  lemma ShowUndoesHide(sc: Scene, zoom: real, s: int, e: int, color: Nullable<string>)
    requires !(s >= 0 && e >= 0)
    requires TrackedShown(sc)
    ensures Show(Hide(sc), zoom, s, e, color).scene.page == sc.page
    ensures Show(Hide(sc), zoom, s, e, color) == Effect(Scene(sc.bg.(hidden := false, start := Some(s), end := Some(e)), sc.page), None)
  {
    var r := Show(Hide(sc), zoom, s, e, color).scene;
    assert |r.page.nodes| == |sc.page.nodes|;
    forall i | 0 <= i < |sc.page.nodes|
      ensures r.page.nodes[i] == sc.page.nodes[i]
    {
    }
    assert r.page.nodes == sc.page.nodes;
  }
}
