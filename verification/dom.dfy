/** The page the overlays are drawn on, reduced to an ordered list of elements. Each element
    carries a key (its identity, so that a tracked list can refer to it), a display flag and
    what it shows. The class name of what it shows decides which clear removes it. */
module Dom {
  import opened Common

  /** Position and size of a measure-background band. */
  datatype BandBox = BandBox(left: real, width: real, top: real, height: real)

  datatype Item =
      /** A clause label; its caption is a function of `number` alone (Overlays.ClauseText). */
    | ClauseLabel(measure: int, number: int, left: real, top: real)
    | CommentArea(startX: real, startY: real, endX: real, height: real)
    | CommentText(startX: real, startY: real, endX: real, height: real, word: string)
      /** A band; `box` is None when drawing threw after the image was attached. */
    | Band(id: Option<string>, box: Option<BandBox>)
    | StuckMarker(left: real, top: real)
      /** Anything else on the page (the engraved score itself, the cursor, ...). */
    | Foreign(className: ClassName)

  /** A class name: the five the overlays use, or any other. A class written with one of
      the five names is always the matching constructor, never `Other`. */
  datatype ClassName =
    | MeasureCommentName | CommentAreaName | CommentTextName | BandName | StuckName
    | Other(name: string)

  /** The class attribute as it is written on the element. */
  function ClassText(c: ClassName): string {
    match c
    case MeasureCommentName => "measureComment"
    case CommentAreaName => "commentArea"
    case CommentTextName => "commentText"
    case BandName => "measureBackgroundImg"
    case StuckName => "stuckComment"
    case Other(s) => s
  }

  const MeasureCommentClass: ClassName := MeasureCommentName
  const CommentAreaClass: ClassName := CommentAreaName
  const CommentTextClass: ClassName := CommentTextName
  const BandClass: ClassName := BandName
  const StuckClass: ClassName := StuckName

  function ClassOf(it: Item): ClassName {
    match it
    case ClauseLabel(_, _, _, _) => MeasureCommentClass
    case CommentArea(_, _, _, _) => CommentAreaClass
    case CommentText(_, _, _, _, _) => CommentTextClass
    case Band(_, _) => BandClass
    case StuckMarker(_, _) => StuckClass
    case Foreign(c) => c
  }

  datatype Node = Node(key: nat, shown: bool, item: Item)

  /** The elements in document order, and the key the next appended element receives. */
  datatype Surface = Surface(nodes: seq<Node>, nextKey: nat)

  const Blank: Surface := Surface([], 0)

  /** Keys increase along the document and are all below nextKey, so they are distinct and
      every freshly appended element has a key nobody else holds. */
  predicate WellKeyed(s: Surface) {
    && (forall i :: 0 <= i < |s.nodes| ==> s.nodes[i].key < s.nextKey)
    && (forall i, j :: 0 <= i < j < |s.nodes| ==> s.nodes[i].key < s.nodes[j].key)
  }

  predicate HasClass(n: Node, c: ClassName) {
    ClassOf(n.item) == c
  }

  /** `container.appendChild(e)` for a freshly created, visible element. */
  function Append(s: Surface, it: Item): (r: Surface)
    ensures |r.nodes| == |s.nodes| + 1 && r.nodes[..|s.nodes|] == s.nodes
    ensures r.nodes[|s.nodes|] == Node(s.nextKey, true, it)
    ensures WellKeyed(s) ==> WellKeyed(r)
  {
    Surface(s.nodes + [Node(s.nextKey, true, it)], s.nextKey + 1)
  }

  /** Appends the items one after another. */
  function AppendAll(s: Surface, items: seq<Item>): (r: Surface)
    ensures |r.nodes| == |s.nodes| + |items| && r.nodes[..|s.nodes|] == s.nodes
    ensures forall k :: 0 <= k < |items| ==> r.nodes[|s.nodes| + k].item == items[k]
    decreases |items|
  {
    if items == [] then s else AppendAll(Append(s, items[0]), items[1..])
  }

  /** Appending keeps the keys of a well-keyed page unique and ascending. */
  lemma {:induction false} AppendAllWellKeyed(s: Surface, items: seq<Item>)
    requires WellKeyed(s)
    ensures WellKeyed(AppendAll(s, items))
    decreases |items|
  {
    if items != [] {
      AppendAllWellKeyed(Append(s, items[0]), items[1..]);
    }
  }

  /** The appended elements are visible and their keys are at least the old next key. */
  lemma AppendAllShown(s: Surface, items: seq<Item>)
    ensures forall i :: |s.nodes| <= i < |AppendAll(s, items).nodes| ==>
      AppendAll(s, items).nodes[i].shown && AppendAll(s, items).nodes[i].key >= s.nextKey
  {
    var r := AppendAll(s, items);
    AppendAllKeys(s, items);
    forall i | |s.nodes| <= i < |r.nodes|
      ensures r.nodes[i].shown && r.nodes[i].key >= s.nextKey
    {
      assert r.nodes[|s.nodes| + (i - |s.nodes|)] == Node(s.nextKey + (i - |s.nodes|), true, items[i - |s.nodes|]);
    }
  }

  /** Appending a list with a head appends the head first. */
  lemma AppendAllCons(s: Surface, it: Item, rest: seq<Item>)
    ensures AppendAll(s, [it] + rest) == AppendAll(Append(s, it), rest)
  {
    assert ([it] + rest)[0] == it && ([it] + rest)[1..] == rest;
  }

  /** The appended elements are visible and take the keys nextKey, nextKey + 1, ... in order. */
  lemma {:induction false} AppendAllKeys(s: Surface, items: seq<Item>)
    ensures AppendAll(s, items).nextKey == s.nextKey + |items|
    ensures forall k :: 0 <= k < |items| ==>
      AppendAll(s, items).nodes[|s.nodes| + k] == Node(s.nextKey + k, true, items[k])
  {
    AppendAllNextKey(s, items);
    forall k | 0 <= k < |items|
      ensures AppendAll(s, items).nodes[|s.nodes| + k] == Node(s.nextKey + k, true, items[k])
    {
      AppendAllNodeAt(s, items, k);
    }
  }

  /** Appending n items moves the next key on by n. */
  lemma {:induction false} AppendAllNextKey(s: Surface, items: seq<Item>)
    ensures AppendAll(s, items).nextKey == s.nextKey + |items|
    decreases |items|
  {
    if items != [] {
      AppendAllNextKey(Append(s, items[0]), items[1..]);
    }
  }

  /** The k-th appended element is visible, holds the k-th item and has key nextKey + k. */
  lemma {:induction false} AppendAllNodeAt(s: Surface, items: seq<Item>, k: nat)
    requires k < |items|
    ensures AppendAll(s, items).nodes[|s.nodes| + k] == Node(s.nextKey + k, true, items[k])
    decreases |items|
  {
    var s1 := Append(s, items[0]);
    var r := AppendAll(s1, items[1..]);
    assert AppendAll(s, items) == r;
    if k == 0 {
      assert r.nodes[..|s1.nodes|] == s1.nodes;
      assert r.nodes[|s.nodes|] == s1.nodes[|s.nodes|];
    } else {
      AppendAllNodeAt(s1, items[1..], k - 1);
    }
  }

  /** The elements of other classes than c, in their order. */
  function Without(xs: seq<Node>, c: ClassName): (r: seq<Node>)
    ensures |r| <= |xs|
  {
    if xs == [] then []
    else if HasClass(xs[0], c) then Without(xs[1..], c)
    else [xs[0]] + Without(xs[1..], c)
  }

  /** An element survives exactly when it is of another class. */
  lemma {:induction false} WithoutMembers(xs: seq<Node>, c: ClassName)
    ensures forall n :: n in Without(xs, c) <==> n in xs && !HasClass(n, c)
  {
    if xs != [] {
      WithoutMembers(xs[1..], c);
      assert xs == [xs[0]] + xs[1..];
    }
  }

  lemma {:induction false} WithoutAppend(xs: seq<Node>, ys: seq<Node>, c: ClassName)
    ensures Without(xs + ys, c) == Without(xs, c) + Without(ys, c)
  {
    if xs == [] {
      assert xs + ys == ys;
    } else {
      assert (xs + ys)[1..] == xs[1..] + ys;
      WithoutAppend(xs[1..], ys, c);
    }
  }

  /** A list without any element of class c is left as it is. */
  lemma {:induction false} WithoutNone(xs: seq<Node>, c: ClassName)
    requires forall i :: 0 <= i < |xs| ==> !HasClass(xs[i], c)
    ensures Without(xs, c) == xs
  {
    if xs != [] {
      WithoutNone(xs[1..], c);
    }
  }

  /** Removing one class leaves nothing of that class behind. */
  lemma {:induction false} WithoutRemovesAll(xs: seq<Node>, c: ClassName)
    ensures forall i :: 0 <= i < |Without(xs, c)| ==> !HasClass(Without(xs, c)[i], c)
  {
    WithoutMembers(xs, c);
    forall i | 0 <= i < |Without(xs, c)|
      ensures !HasClass(Without(xs, c)[i], c)
    {
      assert Without(xs, c)[i] in Without(xs, c);
    }
  }

  lemma {:induction false} WithoutCommutes(xs: seq<Node>, c: ClassName, d: ClassName)
    ensures Without(Without(xs, c), d) == Without(Without(xs, d), c)
  {
    if xs != [] {
      WithoutCommutes(xs[1..], c, d);
      if !HasClass(xs[0], c) && !HasClass(xs[0], d) {
        assert ([xs[0]] + Without(xs[1..], c))[1..] == Without(xs[1..], c);
        assert ([xs[0]] + Without(xs[1..], d))[1..] == Without(xs[1..], d);
      }
    }
  }

  /** Keys strictly increase along the list. */
  predicate Ascending(xs: seq<Node>) {
    forall i, j :: 0 <= i < j < |xs| ==> xs[i].key < xs[j].key
  }

  /** A key below every key of an ascending list can go in front. */
  lemma AscendingCons(head: Node, xs: seq<Node>)
    requires Ascending(xs) && forall n :: n in xs ==> head.key < n.key
    ensures Ascending([head] + xs)
  {
    var r := [head] + xs;
    forall i, j | 0 <= i < j < |r|
      ensures r[i].key < r[j].key
    {
      assert r[j] == xs[j - 1] && xs[j - 1] in xs;
      if i > 0 {
        assert r[i] == xs[i - 1];
      }
    }
  }

  /** Filtering keeps increasing keys increasing. */
  lemma {:induction false} WithoutAscending(xs: seq<Node>, c: ClassName)
    requires Ascending(xs)
    ensures Ascending(Without(xs, c))
  {
    if xs != [] {
      var t := xs[1..];
      assert Ascending(t) by {
        forall i, j | 0 <= i < j < |t|
          ensures t[i].key < t[j].key
        {
          assert t[i] == xs[i + 1] && t[j] == xs[j + 1];
        }
      }
      WithoutAscending(t, c);
      if !HasClass(xs[0], c) {
        WithoutMembers(t, c);
        forall n | n in Without(t, c)
          ensures xs[0].key < n.key
        {
          var j :| 0 <= j < |t| && t[j] == n;
          assert xs[j + 1] == n;
        }
        AscendingCons(xs[0], Without(t, c));
      }
    }
  }

  /** Filtering keeps the page's keys increasing and below the next key. */
  lemma WithoutWellKeyed(s: Surface, c: ClassName)
    ensures WellKeyed(s) ==> WellKeyed(Surface(Without(s.nodes, c), s.nextKey))
  {
    if WellKeyed(s) {
      WithoutMembers(s.nodes, c);
      WithoutAscending(s.nodes, c);
      var r := Without(s.nodes, c);
      forall i | 0 <= i < |r|
        ensures r[i].key < s.nextKey
      {
        assert r[i] in r;
      }
    }
  }

  /** `getElementsByClassName(c)` emptied element by element: the elements of class c go,
      everything else stays in order. */
  function Remove(s: Surface, c: ClassName): (r: Surface)
    ensures WellKeyed(s) ==> WellKeyed(r)
    ensures forall i :: 0 <= i < |r.nodes| ==> !HasClass(r.nodes[i], c)
    ensures forall n :: n in r.nodes <==> n in s.nodes && !HasClass(n, c)
  {
    WithoutWellKeyed(s, c);
    WithoutRemovesAll(s.nodes, c);
    WithoutMembers(s.nodes, c);
    Surface(Without(s.nodes, c), s.nextKey)
  }

  /** The five classes the overlays are drawn with: every class name but `Other`. */
  predicate IsOverlay(c: ClassName) {
    !c.Other?
  }

  /** Every overlay element goes, every other element stays. */
  function RemoveOverlays(s: Surface): (r: Surface)
    ensures WellKeyed(s) ==> WellKeyed(r)
    ensures forall n :: n in r.nodes <==> n in s.nodes && !IsOverlay(ClassOf(n.item))
  {
    Remove(Remove(Remove(Remove(Remove(s, MeasureCommentClass), CommentAreaClass), CommentTextClass), BandClass), StuckClass)
  }

  /** A list made only of elements of class c vanishes under Without(_, c). */
  lemma {:induction false} WithoutOnly(ys: seq<Node>, c: ClassName)
    requires forall k :: 0 <= k < |ys| ==> HasClass(ys[k], c)
    ensures Without(ys, c) == []
  {
    if ys != [] {
      WithoutOnly(ys[1..], c);
    }
  }

  /** A list whose elements are each of class c or d vanishes when both are removed. */
  lemma {:induction false} WithoutEither(ys: seq<Node>, c: ClassName, d: ClassName)
    requires forall k :: 0 <= k < |ys| ==> HasClass(ys[k], c) || HasClass(ys[k], d)
    ensures Without(Without(ys, c), d) == []
  {
    if ys != [] {
      WithoutEither(ys[1..], c, d);
      if !HasClass(ys[0], c) {
        assert ([ys[0]] + Without(ys[1..], c))[1..] == Without(ys[1..], c);
      }
    }
  }

  /** Removing class c undoes appending elements of class c: the elements that stay are those
      that would have stayed before the appends. */
  lemma RemoveAppended(s: Surface, items: seq<Item>, c: ClassName)
    requires forall k :: 0 <= k < |items| ==> ClassOf(items[k]) == c
    ensures Remove(AppendAll(s, items), c).nodes == Remove(s, c).nodes
  {
    var r := AppendAll(s, items);
    var tail := r.nodes[|s.nodes|..];
    assert r.nodes == s.nodes + tail;
    forall k | 0 <= k < |tail|
      ensures HasClass(tail[k], c)
    {
      assert tail[k] == r.nodes[|s.nodes| + k] && r.nodes[|s.nodes| + k].item == items[k];
    }
    WithoutAppend(s.nodes, tail, c);
    WithoutOnly(tail, c);
  }

  /** The same for a removal of two classes, one after the other. */
  lemma {:induction false} RemoveBothAppended(s: Surface, items: seq<Item>, c: ClassName, d: ClassName)
    requires forall k :: 0 <= k < |items| ==> ClassOf(items[k]) == c || ClassOf(items[k]) == d
    ensures Remove(Remove(AppendAll(s, items), c), d).nodes == Remove(Remove(s, c), d).nodes
  {
    var r := AppendAll(s, items);
    var tail := r.nodes[|s.nodes|..];
    assert r.nodes == s.nodes + tail;
    forall k | 0 <= k < |tail|
      ensures HasClass(tail[k], c) || HasClass(tail[k], d)
    {
      assert tail[k] == r.nodes[|s.nodes| + k] && r.nodes[|s.nodes| + k].item == items[k];
    }
    WithoutAppend(s.nodes, tail, c);
    WithoutAppend(Without(s.nodes, c), Without(tail, c), d);
    WithoutEither(tail, c, d);
  }

  /** The first position holding an element of class c, if any. */
  function Find(xs: seq<Node>, c: ClassName): (r: Option<nat>)
    ensures r.Some? ==> r.value < |xs| && HasClass(xs[r.value], c)
    ensures r.Some? ==> forall j :: 0 <= j < r.value ==> !HasClass(xs[j], c)
    ensures r.None? ==> forall j :: 0 <= j < |xs| ==> !HasClass(xs[j], c)
  {
    if xs == [] then None
    else if HasClass(xs[0], c) then Some(0)
    else match Find(xs[1..], c)
      case None => None
      case Some(k) => Some(k + 1)
  }

  /** Dropping one element of class c does not change what a removal of c leaves. */
  lemma DropOne(xs: seq<Node>, i: nat, c: ClassName)
    requires i < |xs| && HasClass(xs[i], c)
    ensures Without(xs[..i] + xs[i + 1..], c) == Without(xs, c)
  {
    assert xs == xs[..i] + ([xs[i]] + xs[i + 1..]);
    WithoutAppend(xs[..i], [xs[i]] + xs[i + 1..], c);
    WithoutAppend(xs[..i], xs[i + 1..], c);
  }

  /** The loop the original runs over the live collection: while some element of class c is
      left, remove the first one. It ends with exactly what Remove describes. */
  method RemoveLive(s: Surface, c: ClassName) returns (r: Surface)
    ensures r == Remove(s, c)
  {
    r := s;
    var found := Find(r.nodes, c);
    while found.Some?
      invariant r.nextKey == s.nextKey
      invariant Without(r.nodes, c) == Without(s.nodes, c)
      invariant found == Find(r.nodes, c)
      decreases |r.nodes|
    {
      DropOne(r.nodes, found.value, c);
      r := r.(nodes := r.nodes[..found.value] + r.nodes[found.value + 1..]);
      found := Find(r.nodes, c);
    }
    WithoutNone(r.nodes, c);
  }

  /** Sets the display flag of the elements whose key is listed; the others are untouched. */
  function SetShown(s: Surface, keys: seq<nat>, v: bool): (r: Surface)
    ensures |r.nodes| == |s.nodes| && r.nextKey == s.nextKey
    ensures forall i :: 0 <= i < |s.nodes| ==>
      r.nodes[i] == if s.nodes[i].key in keys then s.nodes[i].(shown := v) else s.nodes[i]
    ensures WellKeyed(s) ==> WellKeyed(r)
  {
    Surface(seq(|s.nodes|, i requires 0 <= i < |s.nodes| =>
              if s.nodes[i].key in keys then s.nodes[i].(shown := v) else s.nodes[i]),
            s.nextKey)
  }
}
