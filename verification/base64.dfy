/** Base64 as in demo/js/Base64.js: the `btoa`/`atob` pair, which work on Latin-1 strings,
    and the `encode`/`decode` pair, which wrap the same alphabet around the UTF-8
    transcoder of module Utf8. Each source routine is written out as it computes, and a
    reference definition of RFC 4648 section 4 is given beside it; lemmas connect the two. */
module Base64 {
  import opened Common
  import opened Bits
  import opened JsStrings

  // ---------------------------------------------------------------------------
  // The alphabet table `chars`
  // ---------------------------------------------------------------------------

  /** `chars.charAt(v)`: A-Z, a-z, 0-9, '+', '/' for 0..63 and '=' at 64. */
  function CharAt(v: int): (c: Unit)
    requires 0 <= v <= 64
  {
    if v < 26 then 65 + v
    else if v < 52 then 97 + (v - 26)
    else if v < 62 then 48 + (v - 52)
    else if v == 62 then 43
    else if v == 63 then 47
    else 61
  }

  const Pad: Unit := 61

  /** `chars.indexOf(c)` for a one-unit string: the table position of `c`, or -1. */
  function IndexOf(c: Unit): (v: int)
    ensures -1 <= v <= 64
    ensures v >= 0 ==> CharAt(v) == c
  {
    if 65 <= c <= 90 then c - 65
    else if 97 <= c <= 122 then c - 71
    else if 48 <= c <= 57 then c + 4
    else if c == 43 then 62
    else if c == 47 then 63
    else if c == 61 then 64
    else -1
  }

  /** The table is a bijection between 0..64 and its 65 characters. */
  lemma IndexOfCharAt(v: int)
    requires 0 <= v <= 64
    ensures IndexOf(CharAt(v)) == v
  {
  }

  /** A unit outside the table is not `CharAt` of any position. */
  lemma NotInTable(c: Unit, v: int)
    requires 0 <= v <= 64
    requires IndexOf(c) == -1
    ensures CharAt(v) != c
  {
  }

  predicate InAlphabet(c: Unit) { IndexOf(c) >= 0 }

  predicate AllInAlphabet(s: JsString) {
    forall i :: 0 <= i < |s| ==> InAlphabet(s[i])
  }

  // ---------------------------------------------------------------------------
  // Reference: RFC 4648 section 4 with '=' padding
  // ---------------------------------------------------------------------------

  /** One group of 1 to 3 bytes as 4 characters, padded with '='. */
  function EncodeGroup(b: JsString): (r: JsString)
    requires 1 <= |b| <= 3 && IsLatin1(b)
    ensures |r| == 4 && AllInAlphabet(r)
  {
    var b0 := b[0];
    var b1 := if |b| > 1 then b[1] else 0;
    var b2 := if |b| > 2 then b[2] else 0;
    IndexOfCharAt(b0 / 4);
    IndexOfCharAt(b0 % 4 * 16 + b1 / 16);
    IndexOfCharAt(b1 % 16 * 4 + b2 / 64);
    IndexOfCharAt(b2 % 64);
    IndexOfCharAt(64);
    [ CharAt(b0 / 4),
      CharAt(b0 % 4 * 16 + b1 / 16),
      if |b| > 1 then CharAt(b1 % 16 * 4 + b2 / 64) else Pad,
      if |b| > 2 then CharAt(b2 % 64) else Pad ]
  }

  /** The reference encoding of a byte string. */
  function EncodeStd(b: JsString): (r: JsString)
    requires IsLatin1(b)
    ensures |r| == 4 * ((|b| + 2) / 3)
    ensures AllInAlphabet(r)
  {
    if |b| == 0 then []
    else if |b| <= 3 then EncodeGroup(b)
    else
      assert IsLatin1(b[..3]) && IsLatin1(b[3..]);
      GroupCount(|b|);
      AlphabetConcat(EncodeGroup(b[..3]), EncodeStd(b[3..]));
      EncodeGroup(b[..3]) + EncodeStd(b[3..])
  }

  /** One group fewer, three bytes fewer. */
  lemma GroupCount(n: nat)
    requires n > 3
    ensures (n - 3 + 2) / 3 == (n + 2) / 3 - 1
  {
  }

  lemma AlphabetConcat(a: JsString, b: JsString)
    requires AllInAlphabet(a) && AllInAlphabet(b)
    ensures AllInAlphabet(a + b)
  {
    assert forall i :: 0 <= i < |a + b| ==> (a + b)[i] == if i < |a| then a[i] else b[i - |a|];
  }

  /** Exactly the last `p` units of `r` are '='. */
  predicate PaddedBy(r: JsString, p: nat) {
    forall i :: 0 <= i < |r| ==> (r[i] == Pad <==> i >= |r| - p)
  }

  /** '=' appears only at the end, exactly as often as the final group is short of three
      bytes. */
  lemma {:induction false} EncodeStdPadding(b: JsString)
    requires IsLatin1(b)
    ensures PaddedBy(EncodeStd(b), (3 - |b| % 3) % 3)
  {
    if |b| == 0 {
    } else if |b| <= 3 {
      GroupHasNoPadBefore(b);
    } else {
      assert IsLatin1(b[3..]);
      EncodeStdPadding(b[3..]);
      PadShift(|b|, |b[3..]|);
      PaddingStep(b, (3 - |b| % 3) % 3);
    }
  }

  /** A full first group adds no padding in front of the rest's. */
  lemma {:induction false} PaddingStep(b: JsString, p: nat)
    requires IsLatin1(b) && |b| > 3 && p <= 2
    requires IsLatin1(b[3..]) && PaddedBy(EncodeStd(b[3..]), p)
    ensures PaddedBy(EncodeStd(b), p)
  {
    var c := b[3..];
    assert IsLatin1(b[..3]);
    var g, t := EncodeGroup(b[..3]), EncodeStd(c);
    GroupHasNoPadBefore(b[..3]);
    EncodeStdNonEmpty(c);
    PaddedConcat(g, t, p);
    assert EncodeStd(b) == g + t;
  }

  /** Three bytes more need the same padding. */
  lemma PadShift(nb: nat, nc: nat)
    requires nb == nc + 3
    ensures (3 - nb % 3) % 3 == (3 - nc % 3) % 3 <= 2
  {
  }

  /** Some input gives at least one group of output. */
  lemma EncodeStdNonEmpty(b: JsString)
    requires IsLatin1(b) && |b| >= 1
    ensures |EncodeStd(b)| >= 4
  {
    if |b| > 3 {
      assert IsLatin1(b[..3]) && IsLatin1(b[3..]);
      assert EncodeStd(b) == EncodeGroup(b[..3]) + EncodeStd(b[3..]);
    }
  }

  /** Padding at the end of `t` is padding at the end of `g + t` when `g` has none. */
  lemma PaddedConcat(g: JsString, t: JsString, p: nat)
    requires PaddedBy(g, 0) && PaddedBy(t, p) && p <= |t|
    ensures PaddedBy(g + t, p)
  {
    var r := g + t;
    forall i | 0 <= i < |r|
      ensures r[i] == Pad <==> i >= |r| - p
    {
      if i < |g| {
        assert r[i] == g[i];
      } else {
        assert r[i] == t[i - |g|];
      }
    }
  }

  /** In a group's encoding, only the positions the missing bytes leave are '='. */
  lemma GroupHasNoPadBefore(b: JsString)
    requires 1 <= |b| <= 3 && IsLatin1(b)
    ensures PaddedBy(EncodeGroup(b), 3 - |b|)
  {
    var g := EncodeGroup(b);
    var b1 := if |b| > 1 then b[1] else 0;
    var b2 := if |b| > 2 then b[2] else 0;
    IndexOfCharAt(b[0] / 4);
    IndexOfCharAt(b[0] % 4 * 16 + b1 / 16);
    IndexOfCharAt(b1 % 16 * 4 + b2 / 64);
    IndexOfCharAt(b2 % 64);
  }

  // ---------------------------------------------------------------------------
  // btoa (lines 15-34): the fractional-index stream encoder
  // ---------------------------------------------------------------------------
  // The loop keeps `idx` in steps of 3/4. Step k (k = 1, 2, ...) reads the unit at
  // floor(3k/4), shifts it into `block`, and emits `63 & block >> (8 - 2 * (3k mod 4))`
  // from the current table. Before step k the loop goes on while `charAt(floor(3(k-1)/4))`
  // exists or `idx` has a fraction; the table switches to "=" the first time that
  // character is missing, and `"=".charAt(v)` is "=" for v == 0 and "" otherwise.

  predicate BtoaContinues(n: nat, k: nat)
    requires k >= 1
  {
    3 * (k - 1) / 4 < n || 3 * (k - 1) % 4 != 0
  }

  /** Whether the table is "=" when step k runs. */
  predicate BtoaPadding(n: nat, k: nat)
    requires k >= 1
  {
    3 * (k - 1) / 4 >= n
  }

  /** The step at which the loop condition first fails: after ceil(n/3) groups of four. */
  function BtoaLastStep(n: nat): nat
  {
    4 * ((n + 2) / 3) + 1
  }

  /** The loop goes on only before its last step. */
  lemma ContinuesBeforeLast(n: nat, k: nat)
    requires 1 <= k <= BtoaLastStep(n) && BtoaContinues(n, k)
    ensures k < BtoaLastStep(n)
  {
    LastStepStops(n);
  }

  /** At its last step the loop has read every unit and the index has no fraction. */
  lemma LastStepStops(n: nat)
    ensures !BtoaContinues(n, BtoaLastStep(n))
  {
    var q := (n + 2) / 3;
    var k := BtoaLastStep(n);
    assert 3 * (k - 1) == 4 * (3 * q);
    assert 3 * (k - 1) / 4 == 3 * q && 3 * (k - 1) % 4 == 0;
  }

  /** `63 & block >> (8 - 2 * (3k mod 4))` with `block` ending in the units `prev`, `cur`. */
  function BtoaValue(k: nat, prev: int, cur: int): int
    requires 0 <= prev < 0x100 && 0 <= cur < 0x100
  {
    ShiftRight(prev * 256 + cur, 8 - 2 * (3 * k % 4)) % 64
  }

  /** What step k appends, given the 16 low bits of `block` (`prev` then `cur`). */
  function BtoaEmit(n: nat, k: nat, prev: int, cur: int): (r: JsString)
    requires k >= 1 && 0 <= prev < 0x100 && 0 <= cur < 0x100
    ensures |r| <= 1
  {
    var v := BtoaValue(k, prev, cur);
    if !BtoaPadding(n, k) then [CharAt(v)]
    else if v == 0 then [Pad]
    else []
  }

  /** Steps k, k+1, ... of the loop; `prev` is the unit step k-1 read (0 before step 1). */
  function BtoaSteps(s: JsString, k: nat, prev: int): Result<JsString>
    requires 1 <= k <= BtoaLastStep(|s|) && 0 <= prev < 0x100
    decreases BtoaLastStep(|s|) - k
  {
    if !BtoaContinues(|s|, k) then Ok([])
    else
      ContinuesBeforeLast(|s|, k);
      var cur := CodeOrZero(s, 3 * k / 4);
      if cur > 0xFF then Err(InvalidCharacter)
      else
        var rest :- BtoaSteps(s, k + 1, cur);
        Ok(BtoaEmit(|s|, k, prev, cur) + rest)
  }

  /** `btoa(input)`: throws InvalidCharacterError on a unit above 0xFF. */
  function Btoa(s: JsString): Result<JsString>
  {
    BtoaSteps(s, 1, 0)
  }

  lemma Pow2Small()
    ensures Pow2(0) == 1 && Pow2(2) == 4 && Pow2(4) == 16 && Pow2(6) == 64 && Pow2(8) == 256
  {
    assert Pow2(2) == 4;
    assert Pow2(4) == 16;
    assert Pow2(6) == 64;
  }

  /** The loop only stops at a group boundary: at k = 4m + 1 with 3m >= n. */
  lemma BtoaStopsAtBoundary(n: nat, m: nat)
    ensures 4 * m + 1 <= BtoaLastStep(n) <==> 3 * m < n + 3
    ensures BtoaContinues(n, 4 * m + 1) <==> 3 * m < n
    ensures BtoaContinues(n, 4 * m + 2) && BtoaContinues(n, 4 * m + 3) && BtoaContinues(n, 4 * m + 4)
    ensures !BtoaPadding(n, 4 * m + 1) <==> 3 * m < n
    ensures !BtoaPadding(n, 4 * m + 2) <==> 3 * m < n
    ensures !BtoaPadding(n, 4 * m + 3) <==> 3 * m + 1 < n
    ensures !BtoaPadding(n, 4 * m + 4) <==> 3 * m + 2 < n
  {
    GroupReads(m);
  }

  /** All four steps of a group that starts inside the input run, and a step follows them. */
  lemma GroupRuns(n: nat, m: nat)
    requires 3 * m < n
    ensures 4 * m + 5 <= BtoaLastStep(n)
    ensures BtoaContinues(n, 4 * m + 1) && BtoaContinues(n, 4 * m + 2)
    ensures BtoaContinues(n, 4 * m + 3) && BtoaContinues(n, 4 * m + 4)
  {
    BtoaStopsAtBoundary(n, m);
    BtoaStopsAtBoundary(n, m + 1);
  }

  /** The four values of one group's steps, in terms of the group's bytes. */
  lemma {:induction false} BtoaGroupValues(n: nat, m: nat, prev: int, b0: int, b1: int, b2: int, b3: int)
    requires 0 <= prev < 0x100 && 0 <= b0 < 0x100 && 0 <= b1 < 0x100 && 0 <= b2 < 0x100 && 0 <= b3 < 0x100
    ensures BtoaValue(4 * m + 1, prev, b0) == b0 / 4
    ensures BtoaValue(4 * m + 2, b0, b1) == b0 % 4 * 16 + b1 / 16
    ensures BtoaValue(4 * m + 3, b1, b2) == b1 % 16 * 4 + b2 / 64
    ensures BtoaValue(4 * m + 4, b2, b3) == b2 % 64
  {
    Pow2Small();
    GroupReads(m);
    EmitFirst(prev, b0);
    EmitSecond(b0, b1);
    EmitThird(b1, b2);
    assert (b2 * 256 + b3) / 256 == b2;
  }

  lemma EmitFirst(prev: int, b0: int)
    requires 0 <= prev < 0x100 && 0 <= b0 < 0x100
    ensures (prev * 256 + b0) / 4 % 64 == b0 / 4
  {
    DivModUnique(prev * 256 + b0, 4, prev * 64 + b0 / 4, b0 % 4);
    DivModUnique(prev * 64 + b0 / 4, 64, prev, b0 / 4);
  }

  lemma EmitSecond(b0: int, b1: int)
    requires 0 <= b0 < 0x100 && 0 <= b1 < 0x100
    ensures (b0 * 256 + b1) / 16 % 64 == b0 % 4 * 16 + b1 / 16
  {
    DivModUnique(b0 * 256 + b1, 16, b0 * 16 + b1 / 16, b1 % 16);
    DivModUnique(b0 * 16 + b1 / 16, 64, b0 / 4, b0 % 4 * 16 + b1 / 16);
  }

  lemma EmitThird(b1: int, b2: int)
    requires 0 <= b1 < 0x100 && 0 <= b2 < 0x100
    ensures (b1 * 256 + b2) / 64 % 64 == b1 % 16 * 4 + b2 / 64
  {
    DivModUnique(b1 * 256 + b2, 64, b1 * 4 + b2 / 64, b2 % 64);
    DivModUnique(b1 * 4 + b2 / 64, 64, b1 / 16, b1 % 16 * 4 + b2 / 64);
  }

  /** `e` put in front of a successful result; a failure is passed on. */
  function Prepend(e: JsString, r: Result<JsString>): Result<JsString>
  {
    match r
    case Ok(x) => Ok(e + x)
    case Err(err) => Err(err)
  }

  lemma PrependTwice(e1: JsString, e2: JsString, r: Result<JsString>)
    ensures Prepend(e1, Prepend(e2, r)) == Prepend(e1 + e2, r)
  {
    match r
    case Ok(x) => assert e1 + (e2 + x) == (e1 + e2) + x;
    case Err(_) =>
  }

  /** One step that reads a unit in range: its emit goes in front of the later steps. */
  lemma BtoaStep(s: JsString, k: nat, prev: int, cur: int)
    requires 1 <= k < BtoaLastStep(|s|) && 0 <= prev < 0x100
    requires BtoaContinues(|s|, k)
    requires cur == CodeOrZero(s, 3 * k / 4) && cur <= 0xFF
    ensures BtoaSteps(s, k, prev) == Prepend(BtoaEmit(|s|, k, prev, cur), BtoaSteps(s, k + 1, cur))
  {
  }

  /** The unit read at each step of group m, and the step's place in its quarter cycle. */
  lemma GroupReads(m: nat)
    ensures 3 * (4 * m) / 4 == 3 * m && 3 * (4 * m) % 4 == 0
    ensures 3 * (4 * m + 1) / 4 == 3 * m && 3 * (4 * m + 1) % 4 == 3
    ensures 3 * (4 * m + 2) / 4 == 3 * m + 1 && 3 * (4 * m + 2) % 4 == 2
    ensures 3 * (4 * m + 3) / 4 == 3 * m + 2 && 3 * (4 * m + 3) % 4 == 1
    ensures 3 * (4 * m + 4) / 4 == 3 * m + 3 && 3 * (4 * m + 4) % 4 == 0
  {
    DivModUnique(3 * (4 * m), 4, 3 * m, 0);
    DivModUnique(3 * (4 * m + 1), 4, 3 * m, 3);
    DivModUnique(3 * (4 * m + 2), 4, 3 * m + 1, 2);
    DivModUnique(3 * (4 * m + 3), 4, 3 * m + 2, 1);
    DivModUnique(3 * (4 * m + 4), 4, 3 * m + 3, 0);
  }

  /** The four steps of a group, with every unit they read in range, unfold to four emits. */
  lemma {:induction false} BtoaUnfoldGroup(s: JsString, m: nat, prev: int, b0: int, b1: int, b2: int, b3: int)
    requires 3 * m < |s| && 0 <= prev < 0x100
    requires b0 == CodeOrZero(s, 3 * m) && b1 == CodeOrZero(s, 3 * m + 1)
    requires b2 == CodeOrZero(s, 3 * m + 2) && b3 == CodeOrZero(s, 3 * m + 3)
    requires b0 < 0x100 && b1 < 0x100 && b2 < 0x100 && b3 < 0x100
    ensures 4 * m + 5 <= BtoaLastStep(|s|)
    ensures BtoaSteps(s, 4 * m + 1, prev) ==
              Prepend(BtoaEmit(|s|, 4 * m + 1, prev, b0) + BtoaEmit(|s|, 4 * m + 2, b0, b1)
                      + BtoaEmit(|s|, 4 * m + 3, b1, b2) + BtoaEmit(|s|, 4 * m + 4, b2, b3),
                      BtoaSteps(s, 4 * m + 5, b3))
  {
    GroupAt(|s|, m, 4 * m + 1);
    BtoaFourSteps(s, 4 * m + 1, prev, b0, b1, b2, b3);
  }

  /** Four running steps that read units in range unfold to their four emits. */
  lemma {:induction false} BtoaFourSteps(s: JsString, k: nat, prev: int, b0: int, b1: int, b2: int, b3: int)
    requires 1 <= k && k + 4 <= BtoaLastStep(|s|) && 0 <= prev < 0x100
    requires BtoaContinues(|s|, k) && BtoaContinues(|s|, k + 1)
    requires BtoaContinues(|s|, k + 2) && BtoaContinues(|s|, k + 3)
    requires b0 == CodeOrZero(s, 3 * k / 4) && b1 == CodeOrZero(s, 3 * (k + 1) / 4)
    requires b2 == CodeOrZero(s, 3 * (k + 2) / 4) && b3 == CodeOrZero(s, 3 * (k + 3) / 4)
    requires b0 < 0x100 && b1 < 0x100 && b2 < 0x100 && b3 < 0x100
    ensures BtoaSteps(s, k, prev) ==
              Prepend(BtoaEmit(|s|, k, prev, b0) + BtoaEmit(|s|, k + 1, b0, b1)
                      + BtoaEmit(|s|, k + 2, b1, b2) + BtoaEmit(|s|, k + 3, b2, b3),
                      BtoaSteps(s, k + 4, b3))
  {
    var n := |s|;
    var e1 := BtoaEmit(n, k, prev, b0);
    var e2 := BtoaEmit(n, k + 1, b0, b1);
    var e3 := BtoaEmit(n, k + 2, b1, b2);
    var e4 := BtoaEmit(n, k + 3, b2, b3);
    var r5 := BtoaSteps(s, k + 4, b3);
    BtoaTwoSteps(s, k + 2, b1, b2, b3);
    BtoaTwoSteps(s, k, prev, b0, b1);
    PrependTwice(e1 + e2, e3 + e4, r5);
    assert (e1 + e2) + (e3 + e4) == e1 + e2 + e3 + e4;
  }

  /** Two consecutive steps that read units in range. */
  lemma BtoaTwoSteps(s: JsString, k: nat, prev: int, c0: int, c1: int)
    requires 1 <= k && k + 1 < BtoaLastStep(|s|) && 0 <= prev < 0x100
    requires BtoaContinues(|s|, k) && BtoaContinues(|s|, k + 1)
    requires c0 == CodeOrZero(s, 3 * k / 4) && c0 <= 0xFF
    requires c1 == CodeOrZero(s, 3 * (k + 1) / 4) && c1 <= 0xFF
    ensures BtoaSteps(s, k, prev)
      == Prepend(BtoaEmit(|s|, k, prev, c0) + BtoaEmit(|s|, k + 1, c0, c1), BtoaSteps(s, k + 2, c1))
  {
    BtoaStep(s, k + 1, c0, c1);
    BtoaStep(s, k, prev, c0);
    PrependTwice(BtoaEmit(|s|, k, prev, c0), BtoaEmit(|s|, k + 1, c0, c1), BtoaSteps(s, k + 2, c1));
  }

  /** A step that reads a unit above 0xFF throws. */
  lemma BtoaStepFails(s: JsString, k: nat, prev: int)
    requires 1 <= k < BtoaLastStep(|s|) && 0 <= prev < 0x100
    requires BtoaContinues(|s|, k) && CodeOrZero(s, 3 * k / 4) > 0xFF
    ensures BtoaSteps(s, k, prev) == Err(InvalidCharacter)
  {
  }

  /** A unit above 0xFF among the four a group's steps read makes the whole run fail. */
  lemma BtoaStepsFailsInGroup(s: JsString, m: nat, prev: int)
    requires 3 * m < |s| && 0 <= prev < 0x100
    requires CodeOrZero(s, 3 * m) > 0xFF || CodeOrZero(s, 3 * m + 1) > 0xFF
          || CodeOrZero(s, 3 * m + 2) > 0xFF || CodeOrZero(s, 3 * m + 3) > 0xFF
    ensures 4 * m + 1 <= BtoaLastStep(|s|)
    ensures BtoaSteps(s, 4 * m + 1, prev) == Err(InvalidCharacter)
  {
    GroupAt(|s|, m, 4 * m + 1);
    BtoaFourFail(s, 4 * m + 1, prev);
  }

  /** The four steps of group m, counted from its first step k. */
  lemma GroupAt(n: nat, m: nat, k: nat)
    requires 3 * m < n && k == 4 * m + 1
    ensures k + 4 <= BtoaLastStep(n)
    ensures BtoaContinues(n, k) && BtoaContinues(n, k + 1) && BtoaContinues(n, k + 2) && BtoaContinues(n, k + 3)
    ensures 3 * k / 4 == 3 * m && 3 * (k + 1) / 4 == 3 * m + 1
    ensures 3 * (k + 2) / 4 == 3 * m + 2 && 3 * (k + 3) / 4 == 3 * m + 3
  {
    GroupRuns(n, m);
    GroupReads(m);
  }

  /** Four running steps, one of which reads a unit above 0xFF, make the run from the first
      of them throw. */
  lemma BtoaFourFail(s: JsString, k: nat, prev: int)
    requires 1 <= k && k + 3 < BtoaLastStep(|s|) && 0 <= prev < 0x100
    requires BtoaContinues(|s|, k) && BtoaContinues(|s|, k + 1)
    requires BtoaContinues(|s|, k + 2) && BtoaContinues(|s|, k + 3)
    requires CodeOrZero(s, 3 * k / 4) > 0xFF || CodeOrZero(s, 3 * (k + 1) / 4) > 0xFF
          || CodeOrZero(s, 3 * (k + 2) / 4) > 0xFF || CodeOrZero(s, 3 * (k + 3) / 4) > 0xFF
    ensures BtoaSteps(s, k, prev) == Err(InvalidCharacter)
  {
    var b0 := CodeOrZero(s, 3 * k / 4);
    var b1 := CodeOrZero(s, 3 * (k + 1) / 4);
    var b2 := CodeOrZero(s, 3 * (k + 2) / 4);
    if b0 > 0xFF {
      BtoaStepFails(s, k, prev);
    } else if b1 > 0xFF {
      BtoaStepFails(s, k + 1, b0);
      BtoaFailsAfter(s, k, prev, b0);
    } else if b2 > 0xFF {
      BtoaStepFails(s, k + 2, b1);
      BtoaFailsAfter(s, k + 1, b0, b1);
      BtoaFailsAfter(s, k, prev, b0);
    } else {
      BtoaStepFails(s, k + 3, b2);
      BtoaFailsAfter(s, k + 2, b1, b2);
      BtoaFailsAfter(s, k + 1, b0, b1);
      BtoaFailsAfter(s, k, prev, b0);
    }
  }

  /** A step that reads a unit in range throws when the steps after it throw. */
  lemma BtoaFailsAfter(s: JsString, k: nat, prev: int, cur: int)
    requires 1 <= k < BtoaLastStep(|s|) && 0 <= prev < 0x100
    requires BtoaContinues(|s|, k) && cur == CodeOrZero(s, 3 * k / 4) && cur <= 0xFF
    requires BtoaSteps(s, k + 1, cur) == Err(InvalidCharacter)
    ensures BtoaSteps(s, k, prev) == Err(InvalidCharacter)
  {
  }

  /** From any group boundary, the stream encoder produces the reference encoding of the
      rest of the input, or fails exactly when a unit above 0xFF remains. */
  lemma {:induction false} BtoaFromGroup(s: JsString, m: nat, prev: int)
    requires 3 * m <= |s| && 0 <= prev < 0x100
    ensures 4 * m + 1 <= BtoaLastStep(|s|)
    ensures BtoaSteps(s, 4 * m + 1, prev) ==
              if IsLatin1(s[3 * m..]) then Ok(EncodeStd(s[3 * m..])) else Err(InvalidCharacter)
    decreases |s| - 3 * m
  {
    var n := |s|;
    BtoaStopsAtBoundary(n, m);
    var t := s[3 * m..];
    if 3 * m == n {
      assert t == [];
    } else {
      var b0 := CodeOrZero(s, 3 * m);
      var b1 := CodeOrZero(s, 3 * m + 1);
      var b2 := CodeOrZero(s, 3 * m + 2);
      var b3 := CodeOrZero(s, 3 * m + 3);
      if b0 > 0xFF || b1 > 0xFF || b2 > 0xFF || b3 > 0xFF {
        BtoaStepsFailsInGroup(s, m, prev);
        NotLatin1InGroup(s, m);
      } else if n - 3 * m <= 3 {
        BtoaLastGroup(s, m, prev);
      } else {
        BtoaFromGroup(s, m + 1, b3);
        BtoaInnerGroup(s, m, prev);
      }
    }
  }

  lemma NotLatin1InGroup(s: JsString, m: nat)
    requires 3 * m < |s|
    requires CodeOrZero(s, 3 * m) > 0xFF || CodeOrZero(s, 3 * m + 1) > 0xFF
          || CodeOrZero(s, 3 * m + 2) > 0xFF || CodeOrZero(s, 3 * m + 3) > 0xFF
    ensures !IsLatin1(s[3 * m..])
  {
    var t := s[3 * m..];
    if CodeOrZero(s, 3 * m) > 0xFF { assert t[0] == s[3 * m]; }
    else if CodeOrZero(s, 3 * m + 1) > 0xFF { assert t[1] == s[3 * m + 1]; }
    else if CodeOrZero(s, 3 * m + 2) > 0xFF { assert t[2] == s[3 * m + 2]; }
    else { assert t[3] == s[3 * m + 3]; }
  }

  /** The final group: its four steps are the whole rest of the run. */
  lemma BtoaLastGroup(s: JsString, m: nat, prev: int)
    requires 3 * m < |s| <= 3 * m + 3 && 0 <= prev < 0x100
    requires CodeOrZero(s, 3 * m) <= 0xFF && CodeOrZero(s, 3 * m + 1) <= 0xFF
    requires CodeOrZero(s, 3 * m + 2) <= 0xFF
    ensures 4 * m + 1 <= BtoaLastStep(|s|)
    ensures IsLatin1(s[3 * m..])
    ensures BtoaSteps(s, 4 * m + 1, prev) == Ok(EncodeStd(s[3 * m..]))
  {
    var n := |s|;
    var b0 := CodeOrZero(s, 3 * m);
    var b1 := CodeOrZero(s, 3 * m + 1);
    var b2 := CodeOrZero(s, 3 * m + 2);
    var b3 := CodeOrZero(s, 3 * m + 3);
    var t := s[3 * m..];
    ShortTailLatin1(s, m);
    assert EncodeStd(t) == EncodeGroup(t);
    BtoaUnfoldGroup(s, m, prev, b0, b1, b2, b3);
    BtoaStops(s, m + 1, b3);
    assert 4 * m + 5 == 4 * (m + 1) + 1;
    BtoaGroupEmits(s, m, prev, b0, b1, b2, b3);
    var e := BtoaEmit(n, 4 * m + 1, prev, b0) + BtoaEmit(n, 4 * m + 2, b0, b1)
             + BtoaEmit(n, 4 * m + 3, b1, b2) + BtoaEmit(n, 4 * m + 4, b2, b3);
    assert e + [] == e;
    assert t[..|t|] == t;
  }

  /** At a group boundary past the end the loop stops without output. */
  lemma BtoaStops(s: JsString, m: nat, prev: int)
    requires |s| <= 3 * m < |s| + 3 && 0 <= prev < 0x100
    ensures 4 * m + 1 <= BtoaLastStep(|s|)
    ensures BtoaSteps(s, 4 * m + 1, prev) == Ok([])
  {
    BtoaStopsAtBoundary(|s|, m);
  }

  lemma ShortTailLatin1(s: JsString, m: nat)
    requires 3 * m < |s| <= 3 * m + 3
    requires CodeOrZero(s, 3 * m) <= 0xFF && CodeOrZero(s, 3 * m + 1) <= 0xFF
    requires CodeOrZero(s, 3 * m + 2) <= 0xFF
    ensures IsLatin1(s[3 * m..])
  {
    var t := s[3 * m..];
    forall i | 0 <= i < |t| ensures t[i] < 0x100 {
      assert t[i] == s[3 * m + i];
      assert t[i] == CodeOrZero(s, 3 * m + i);
    }
  }

  /** A group with more input after it: its encoding, then the rest. */
  lemma BtoaInnerGroup(s: JsString, m: nat, prev: int)
    requires 3 * m + 3 < |s| && 0 <= prev < 0x100
    requires CodeOrZero(s, 3 * m) <= 0xFF && CodeOrZero(s, 3 * m + 1) <= 0xFF
    requires CodeOrZero(s, 3 * m + 2) <= 0xFF && CodeOrZero(s, 3 * m + 3) <= 0xFF
    requires 4 * (m + 1) + 1 <= BtoaLastStep(|s|)
    requires BtoaSteps(s, 4 * (m + 1) + 1, s[3 * m + 3]) ==
              if IsLatin1(s[3 * (m + 1)..]) then Ok(EncodeStd(s[3 * (m + 1)..])) else Err(InvalidCharacter)
    ensures 4 * m + 1 <= BtoaLastStep(|s|)
    ensures BtoaSteps(s, 4 * m + 1, prev) ==
              if IsLatin1(s[3 * m..]) then Ok(EncodeStd(s[3 * m..])) else Err(InvalidCharacter)
  {
    var b0 := CodeOrZero(s, 3 * m);
    var b1 := CodeOrZero(s, 3 * m + 1);
    var b2 := CodeOrZero(s, 3 * m + 2);
    var b3 := CodeOrZero(s, 3 * m + 3);
    var t := s[3 * m..];
    BtoaUnfoldGroup(s, m, prev, b0, b1, b2, b3);
    BtoaGroupEmits(s, m, prev, b0, b1, b2, b3);
    assert 4 * m + 5 == 4 * (m + 1) + 1;
    assert t[3..] == s[3 * (m + 1)..];
    Latin1Split(t);
    if IsLatin1(t) {
      EncodeStdInner(t);
    }
  }

  /** A string longer than a group is Latin-1 exactly when its first group and the rest are. */
  lemma Latin1Split(t: JsString)
    requires |t| > 3
    ensures IsLatin1(t) <==> IsLatin1(t[..3]) && IsLatin1(t[3..])
  {
    if IsLatin1(t[..3]) && IsLatin1(t[3..]) {
      forall i | 0 <= i < |t| ensures t[i] < 0x100 {
        if i >= 3 { assert t[i] == t[3..][i - 3]; } else { assert t[i] == t[..3][i]; }
      }
    }
  }

  /** The reference encoding of a string longer than a group: its first group, then the rest. */
  lemma EncodeStdInner(t: JsString)
    requires |t| > 3 && IsLatin1(t)
    ensures IsLatin1(t[..3]) && IsLatin1(t[3..])
    ensures EncodeStd(t) == EncodeGroup(t[..3]) + EncodeStd(t[3..])
  {
    Latin1Split(t);
  }

  /** Each of a group's four emits, with padding where the input has run out. */
  lemma {:induction false} BtoaEmitsOfGroup(n: nat, m: nat, prev: int, b0: int, b1: int, b2: int, b3: int)
    requires 3 * m < n && 0 <= prev < 0x100
    requires 0 <= b0 < 0x100 && 0 <= b1 < 0x100 && 0 <= b2 < 0x100 && 0 <= b3 < 0x100
    requires 3 * m + 1 >= n ==> b1 == 0 && b2 == 0
    requires 3 * m + 2 >= n ==> b2 == 0 && b3 == 0
    ensures BtoaEmit(n, 4 * m + 1, prev, b0) == [CharAt(b0 / 4)]
    ensures BtoaEmit(n, 4 * m + 2, b0, b1) == [CharAt(b0 % 4 * 16 + b1 / 16)]
    ensures BtoaEmit(n, 4 * m + 3, b1, b2) == if 3 * m + 1 < n then [CharAt(b1 % 16 * 4 + b2 / 64)] else [Pad]
    ensures BtoaEmit(n, 4 * m + 4, b2, b3) == if 3 * m + 2 < n then [CharAt(b2 % 64)] else [Pad]
  {
    BtoaStopsAtBoundary(n, m);
    BtoaGroupValues(n, m, prev, b0, b1, b2, b3);
  }

  /** The emits of one group spell its reference encoding, padding included. */
  lemma {:induction false} BtoaGroupEmits(s: JsString, m: nat, prev: int, b0: int, b1: int, b2: int, b3: int)
    requires 3 * m < |s| && 0 <= prev < 0x100
    requires b0 == CodeOrZero(s, 3 * m) && b1 == CodeOrZero(s, 3 * m + 1)
    requires b2 == CodeOrZero(s, 3 * m + 2) && b3 == CodeOrZero(s, 3 * m + 3)
    requires b0 < 0x100 && b1 < 0x100 && b2 < 0x100 && b3 < 0x100
    ensures var glen := if |s| - 3 * m >= 3 then 3 else |s| - 3 * m;
      var g := s[3 * m..][..glen];
      IsLatin1(g) &&
      BtoaEmit(|s|, 4 * m + 1, prev, b0) + BtoaEmit(|s|, 4 * m + 2, b0, b1)
        + BtoaEmit(|s|, 4 * m + 3, b1, b2) + BtoaEmit(|s|, 4 * m + 4, b2, b3) == EncodeGroup(g)
  {
    var n := |s|;
    var glen := if n - 3 * m >= 3 then 3 else n - 3 * m;
    var g := s[3 * m..][..glen];
    assert |g| == glen;
    assert g[0] == b0;
    assert glen > 1 ==> g[1] == b1;
    assert glen > 2 ==> g[2] == b2;
    assert IsLatin1(g);
    GroupCharsOf(g, b0, b1, b2);
    BtoaEmitsOfGroup(n, m, prev, b0, b1, b2, b3);
  }

  /** The reference encoding of a group, from its bytes, with zeros for the missing ones. */
  lemma GroupCharsOf(g: JsString, b0: int, b1: int, b2: int)
    requires 1 <= |g| <= 3 && IsLatin1(g)
    requires g[0] == b0 && (if |g| > 1 then g[1] == b1 else b1 == 0) && (if |g| > 2 then g[2] == b2 else b2 == 0)
    ensures EncodeGroup(g) == [CharAt(b0 / 4)] + [CharAt(b0 % 4 * 16 + b1 / 16)]
      + (if |g| > 1 then [CharAt(b1 % 16 * 4 + b2 / 64)] else [Pad])
      + (if |g| > 2 then [CharAt(b2 % 64)] else [Pad])
  {
  }

  /** btoa is the RFC 4648 encoding on Latin-1 input and throws otherwise. */
  lemma BtoaIsEncodeStd(s: JsString)
    ensures IsLatin1(s) ==> Btoa(s) == Ok(EncodeStd(s))
    ensures !IsLatin1(s) <==> Btoa(s) == Err(InvalidCharacter)
  {
    BtoaFromGroup(s, 0, 0);
    assert s[0..] == s;
  }

  // ---------------------------------------------------------------------------
  // atob (lines 38-59)
  // ---------------------------------------------------------------------------

  /** `input.replace(/=+$/, '')`: the trailing run of '=' is dropped. */
  function StripTrailingPad(s: JsString): (r: JsString)
    ensures |r| <= |s| && r == s[..|r|]
    ensures |r| == 0 || r[|r| - 1] != Pad
    ensures forall i :: |r| <= i < |s| ==> s[i] == Pad
  {
    if |s| > 0 && s[|s| - 1] == Pad then StripTrailingPad(s[..|s| - 1]) else s
  }

  /** The shift `-2 * bc & 6` after the counter has been incremented: 6, 4, 2, 0 for
      bc mod 4 = 1, 2, 3, 0 (on an even number, `& 6` is the remainder modulo 8). */
  function AtobShift(bc: nat): (sh: nat)
    ensures sh <= 6 && sh % 2 == 0
  {
    (-2 * bc) % 8
  }

  /** The byte `(bs >> shift) & 0xff` released once the counter has reached `bc`. */
  function AtobByte(bs: nat, bc: nat): int
  {
    ShiftRight(bs, AtobShift(bc)) % 256
  }

  /** The loop of atob over the stripped input. `bc` counts table characters seen and
      `bs` holds the bits of the current quartet; a character outside the table
      (indexOf -1) is skipped without touching either. From the second character of a
      quartet on, each one releases a byte. */
  function AtobSteps(t: JsString, bc: nat, bs: nat): (r: JsString)
    decreases |t|
  {
    if |t| == 0 then []
    else
      var v := IndexOf(t[0]);
      if v == -1 then AtobSteps(t[1..], bc, bs)
      else
        var bs' := AtobBits(bc, bs, v);
        var out := if bc % 4 != 0 then [AtobByte(bs', bc + 1)] else [];
        out + AtobSteps(t[1..], bc + 1, bs')
  }

  /** `atob(input)`: throws when the stripped length leaves one character over. */
  function Atob(s: JsString): (r: Result<JsString>)
    ensures r.Err? <==> |StripTrailingPad(s)| % 4 == 1
  {
    var t := StripTrailingPad(s);
    if |t| % 4 == 1 then Err(InvalidCharacter) else Ok(AtobSteps(t, 0, 0))
  }

  /** atob skips what is not in the table: removing such a unit changes nothing. */
  lemma AtobSkips(x: JsString, c: Unit, y: JsString, bc: nat, bs: nat)
    requires IndexOf(c) == -1
    ensures AtobSteps(x + [c] + y, bc, bs) == AtobSteps(x + y, bc, bs)
    decreases |x|
  {
    if |x| == 0 {
      assert (x + [c] + y)[1..] == y;
      assert x + y == y;
    } else {
      assert (x + [c] + y)[0] == x[0];
      assert (x + [c] + y)[1..] == x[1..] + [c] + y;
      assert (x + y)[1..] == x[1..] + y;
      var v := IndexOf(x[0]);
      if v == -1 {
        AtobSkips(x[1..], c, y, bc, bs);
      } else {
        AtobSkips(x[1..], c, y, bc + 1, AtobBits(bc, bs, v));
      }
    }
  }

  /** The encoding without its '=' padding: what atob actually reads. */
  function EncodeUnpadded(b: JsString): (r: JsString)
    requires IsLatin1(b)
  {
    if |b| == 0 then []
    else if |b| <= 3 then EncodeGroup(b)[..|b| + 1]
    else EncodeGroup(b[..3]) + EncodeUnpadded(b[3..])
  }

  /** The number of '=' the reference encoding appends. */
  function PadCount(n: nat): (p: nat)
    ensures p <= 2
  {
    (3 - n % 3) % 3
  }

  /** `k` units of '='. */
  function Pads(k: nat): (r: JsString)
    ensures |r| == k && forall i :: 0 <= i < k ==> r[i] == Pad
  {
    seq(k, _ => Pad)
  }

  /** A short group is its first |b| + 1 characters and then '='. */
  lemma GroupSplits(b: JsString)
    requires 1 <= |b| <= 3 && IsLatin1(b)
    ensures PadCount(|b|) == 3 - |b|
    ensures EncodeGroup(b) == EncodeGroup(b)[..|b| + 1] + Pads(PadCount(|b|))
  {
    var g := EncodeGroup(b);
    if |b| == 1 {
      assert Pads(2) == [Pad, Pad];
    } else if |b| == 2 {
      assert Pads(1) == [Pad];
    } else {
      assert Pads(0) == [];
    }
  }

  /** The reference encoding is the unpadded one followed by its '=' padding. */
  lemma {:induction false} EncodeStdSplits(b: JsString)
    requires IsLatin1(b)
    ensures EncodeStd(b) == EncodeUnpadded(b) + Pads(PadCount(|b|))
  {
    if |b| == 0 {
      assert Pads(0) == [];
    } else if |b| <= 3 {
      GroupSplits(b);
    } else {
      var c := b[3..];
      assert IsLatin1(c) && IsLatin1(b[..3]);
      EncodeStdSplits(c);
      PadShift(|b|, |c|);
      assert PadCount(|c|) == PadCount(|b|);
      var g := EncodeGroup(b[..3]);
      var u := EncodeUnpadded(c);
      var ps := Pads(PadCount(|b|));
      assert EncodeStd(b) == g + (u + ps);
      assert EncodeUnpadded(b) == g + u;
      assert g + (u + ps) == (g + u) + ps;
    }
  }

  /** A string whose '=' run starts exactly at `L` is cut back to its first `L` units. */
  lemma {:induction false} StripExact(r: JsString, L: nat)
    requires L <= |r|
    requires forall i :: L <= i < |r| ==> r[i] == Pad
    requires L == 0 || r[L - 1] != Pad
    ensures StripTrailingPad(r) == r[..L]
    decreases |r|
  {
    if |r| > L {
      var q := r[..|r| - 1];
      assert q[..L] == r[..L];
      StripExact(q, L);
    } else {
      assert r[..L] == r;
    }
  }

  /** Stripping the trailing '=' of the encoding leaves exactly the unpadded encoding. */
  lemma StripEncodeStd(b: JsString)
    requires IsLatin1(b)
    ensures StripTrailingPad(EncodeStd(b)) == EncodeUnpadded(b)
  {
    var r := EncodeStd(b);
    var u := EncodeUnpadded(b);
    var L := |u|;
    EncodeStdPadding(b);
    EncodeStdSplits(b);
    if L > 0 {
      assert r[L - 1] != Pad;
    }
    assert r[..L] == u;
    StripExact(r, L);
  }

  /** The bits of a quartet once the character at table position `v` has joined `bs`. */
  function AtobBits(bc: nat, bs: nat, v: nat): nat
  {
    if bc % 4 != 0 then bs * 64 + v else v
  }

  /** A table character that opens a quartet releases nothing and starts `bs` afresh. */
  lemma AtobOpen(t: JsString, bc: nat, bs: nat)
    requires |t| >= 1 && 0 <= IndexOf(t[0]) && bc % 4 == 0
    ensures AtobSteps(t, bc, bs) == AtobSteps(t[1..], bc + 1, IndexOf(t[0]))
  {
  }

  /** A later table character of a quartet joins `bs` and releases one byte. */
  lemma AtobJoin(t: JsString, bc: nat, bs: nat)
    requires |t| >= 1 && 0 <= IndexOf(t[0]) && bc % 4 != 0
    ensures AtobSteps(t, bc, bs)
      == [AtobByte(bs * 64 + IndexOf(t[0]), bc + 1)] + AtobSteps(t[1..], bc + 1, bs * 64 + IndexOf(t[0]))
  {
  }

  /** The first two table characters of a quartet release its first byte. */
  lemma AtobFirstPair(t: JsString, v0: nat, v1: nat, bs: nat)
    requires |t| >= 2 && IndexOf(t[0]) == v0 < 64 && IndexOf(t[1]) == v1 < 64
    ensures AtobSteps(t, 0, bs) == [AtobByte(v0 * 64 + v1, 2)] + AtobSteps(t[2..], 2, v0 * 64 + v1)
  {
    AtobOpen(t, 0, bs);
    assert t[1..][0] == t[1] && t[1..][1..] == t[2..];
    AtobJoin(t[1..], 1, v0);
  }

  /** The last two table characters of a quartet release its second and third bytes. */
  lemma AtobSecondPair(t: JsString, v2: nat, v3: nat, s2: nat)
    requires |t| >= 2 && IndexOf(t[0]) == v2 < 64 && IndexOf(t[1]) == v3 < 64
    ensures AtobSteps(t, 2, s2)
      == [AtobByte(s2 * 64 + v2, 3), AtobByte((s2 * 64 + v2) * 64 + v3, 4)]
         + AtobSteps(t[2..], 4, (s2 * 64 + v2) * 64 + v3)
  {
    var s3 := s2 * 64 + v2;
    AtobJoin(t, 2, s2);
    assert t[1..][0] == t[1] && t[1..][1..] == t[2..];
    AtobJoin(t[1..], 3, s3);
    var x := AtobSteps(t[2..], 4, s3 * 64 + v3);
    ConsChain(AtobSteps(t, 2, s2), AtobSteps(t[1..], 3, s3), x, AtobByte(s3, 3), AtobByte(s3 * 64 + v3, 4));
  }

  /** Four table characters in a row. */
  lemma AtobFour(t: JsString, v0: nat, v1: nat, v2: nat, v3: nat, bs: nat)
    requires |t| >= 4 && IndexOf(t[0]) == v0 < 64 && IndexOf(t[1]) == v1 < 64
    requires IndexOf(t[2]) == v2 < 64 && IndexOf(t[3]) == v3 < 64
    ensures AtobSteps(t, 0, bs)
      == [AtobByte(v0 * 64 + v1, 2), AtobByte((v0 * 64 + v1) * 64 + v2, 3),
          AtobByte(((v0 * 64 + v1) * 64 + v2) * 64 + v3, 4)]
         + AtobSteps(t[4..], 4, ((v0 * 64 + v1) * 64 + v2) * 64 + v3)
  {
    var s2 := v0 * 64 + v1;
    var s3 := s2 * 64 + v2;
    var s4 := s3 * 64 + v3;
    AtobFirstPair(t, v0, v1, bs);
    assert t[2..][0] == t[2] && t[2..][1] == t[3] && t[2..][2..] == t[4..];
    AtobSecondPair(t[2..], v2, v3, s2);
    var x := AtobSteps(t[4..], 4, s4);
    ConsPairChain(AtobSteps(t, 0, bs), AtobSteps(t[2..], 2, s2), x,
                  AtobByte(s2, 2), AtobByte(s3, 3), AtobByte(s4, 4));
  }

  /** `p` is `[a] + ([b] + x)`. */
  lemma ConsChain(p: JsString, y: JsString, x: JsString, a: int, b: int)
    requires 0 <= a < 0x1_0000 && 0 <= b < 0x1_0000
    requires p == [a] + y && y == [b] + x
    ensures p == [a, b] + x
  {
    assert [a] + ([b] + x) == [a, b] + x;
  }

  /** `p` is `[a] + ([b, c] + x)`. */
  lemma ConsPairChain(p: JsString, y: JsString, x: JsString, a: int, b: int, c: int)
    requires 0 <= a < 0x1_0000 && 0 <= b < 0x1_0000 && 0 <= c < 0x1_0000
    requires p == [a] + y && y == [b, c] + x
    ensures p == [a, b, c] + x
  {
    assert [a] + ([b, c] + x) == [a, b, c] + x;
  }

  /** The 24 bits a quartet leaves in `bs`. */
  function QuartetBits(b0: int, b1: int, b2: int): nat
    requires 0 <= b0 < 0x100 && 0 <= b1 < 0x100 && 0 <= b2 < 0x100
  {
    ((b0 / 4 * 64 + (b0 % 4 * 16 + b1 / 16)) * 64 + (b1 % 16 * 4 + b2 / 64)) * 64 + b2 % 64
  }

  /** One full quartet of table characters releases its three bytes. */
  lemma AtobQuartet(b0: int, b1: int, b2: int, rest: JsString, bs: nat)
    requires 0 <= b0 < 0x100 && 0 <= b1 < 0x100 && 0 <= b2 < 0x100
    ensures AtobSteps(EncodeGroup([b0, b1, b2]) + rest, 0, bs)
      == [b0, b1, b2] + AtobSteps(rest, 4, QuartetBits(b0, b1, b2))
  {
    var v0, v1, v2, v3 := b0 / 4, b0 % 4 * 16 + b1 / 16, b1 % 16 * 4 + b2 / 64, b2 % 64;
    FullGroupChars(b0, b1, b2);
    AtobArith(b0, b1, b2, v0, v1, v2, v3);
    IndexOfCharAt(v0); IndexOfCharAt(v1); IndexOfCharAt(v2); IndexOfCharAt(v3);
    var t := EncodeGroup([b0, b1, b2]) + rest;
    assert t[0] == CharAt(v0) && t[1] == CharAt(v1) && t[2] == CharAt(v2) && t[3] == CharAt(v3);
    assert t[4..] == rest;
    AtobFour(t, v0, v1, v2, v3, bs);
  }

  /** The four characters of a full group. */
  lemma FullGroupChars(b0: int, b1: int, b2: int)
    requires 0 <= b0 < 0x100 && 0 <= b1 < 0x100 && 0 <= b2 < 0x100
    ensures IsLatin1([b0, b1, b2])
    ensures EncodeGroup([b0, b1, b2])
      == [CharAt(b0 / 4), CharAt(b0 % 4 * 16 + b1 / 16), CharAt(b1 % 16 * 4 + b2 / 64), CharAt(b2 % 64)]
  {
    assert IsLatin1([b0, b1, b2]);
  }

  /** Only the counter modulo 4 matters to the rest of the loop. */
  lemma {:induction false} AtobPhase(t: JsString, bc: nat, bc': nat, bs: nat)
    requires bc % 4 == bc' % 4
    ensures AtobSteps(t, bc, bs) == AtobSteps(t, bc', bs)
    decreases |t|
  {
    if |t| > 0 {
      var v := IndexOf(t[0]);
      if v == -1 {
        AtobPhase(t[1..], bc, bc', bs);
      } else {
        var bs' := AtobBits(bc, bs, v);
        assert AtobBits(bc', bs, v) == bs';
        PhaseStep(bc, bc');
        AtobPhase(t[1..], bc + 1, bc' + 1, bs');
      }
    }
  }

  /** Counters equal modulo 4 stay so, and shift alike. */
  lemma PhaseStep(bc: nat, bc': nat)
    requires bc % 4 == bc' % 4
    ensures (bc + 1) % 4 == (bc' + 1) % 4 && AtobShift(bc + 1) == AtobShift(bc' + 1)
  {
    ShiftAfter(bc);
    ShiftAfter(bc');
  }

  /** The counter after bc, modulo 4, and its shift, from bc modulo 4 alone. */
  lemma ShiftAfter(bc: nat)
    ensures (bc + 1) % 4 == (if bc % 4 == 3 then 0 else bc % 4 + 1)
    ensures AtobShift(bc + 1) == 6 - 2 * (bc % 4)
  {
    var q, r := bc / 4, bc % 4;
    DivModUnique(-2 * (bc + 1), 8, -q - 1, 6 - 2 * r);
    if r == 3 {
      DivModUnique(bc + 1, 4, q + 1, 0);
    } else {
      DivModUnique(bc + 1, 4, q, r + 1);
    }
  }

  lemma FirstByte(b0: int, b1: int, v0: nat, v1: nat)
    requires 0 <= b0 < 0x100 && 0 <= b1 < 0x100
    requires v0 == b0 / 4 && v1 == b0 % 4 * 16 + b1 / 16
    ensures AtobByte(v0 * 64 + v1, 2) == b0
  {
    AtobBytesAt(v0 * 64 + v1);
    DivModUnique(v0 * 64 + v1, 16, b0, b1 / 16);
    DivModUnique(b0, 256, 0, b0);
  }

  lemma {:induction false} SecondByte(b0: int, b1: int, b2: int, v0: nat, v1: nat, v2: nat)
    requires 0 <= b0 < 0x100 && 0 <= b1 < 0x100 && 0 <= b2 < 0x100
    requires v0 == b0 / 4 && v1 == b0 % 4 * 16 + b1 / 16 && v2 == b1 % 16 * 4 + b2 / 64
    ensures AtobByte((v0 * 64 + v1) * 64 + v2, 3) == b1
  {
    AtobBytesAt((v0 * 64 + v1) * 64 + v2);
    DivModUnique((v0 * 64 + v1) * 64 + v2, 4, b0 * 256 + b1, b2 / 64);
    DivModUnique(b0 * 256 + b1, 256, b0, b1);
  }

  lemma ThirdByte(b1: int, b2: int, v: nat, v2: nat, v3: nat)
    requires 0 <= b1 < 0x100 && 0 <= b2 < 0x100
    requires v2 == b1 % 16 * 4 + b2 / 64 && v3 == b2 % 64
    ensures (v * 64 + v2) * 64 + v3 == (v * 16 + v2 / 4) * 256 + b2
  {
    DivModUnique(v2, 4, b1 % 16, b2 / 64);
  }

  /** The bytes atob releases from the quartet of [b0, b1, b2]. */
  lemma {:induction false} AtobArith(b0: int, b1: int, b2: int, v0: nat, v1: nat, v2: nat, v3: nat)
    requires 0 <= b0 < 0x100 && 0 <= b1 < 0x100 && 0 <= b2 < 0x100
    requires v0 == b0 / 4 && v1 == b0 % 4 * 16 + b1 / 16
    requires v2 == b1 % 16 * 4 + b2 / 64 && v3 == b2 % 64
    ensures AtobByte(v0 * 64 + v1, 2) == b0
    ensures AtobByte((v0 * 64 + v1) * 64 + v2, 3) == b1
    ensures AtobByte(((v0 * 64 + v1) * 64 + v2) * 64 + v3, 4) == b2
  {
    FirstByte(b0, b1, v0, v1);
    SecondByte(b0, b1, b2, v0, v1, v2);
    LastByte(b1, b2, v0 * 64 + v1, v2, v3);
  }

  lemma LastByte(b1: int, b2: int, s2: nat, v2: nat, v3: nat)
    requires 0 <= b1 < 0x100 && 0 <= b2 < 0x100
    requires v2 == b1 % 16 * 4 + b2 / 64 && v3 == b2 % 64
    ensures AtobByte((s2 * 64 + v2) * 64 + v3, 4) == b2
  {
    var s4 := (s2 * 64 + v2) * 64 + v3;
    AtobBytesAt(s4);
    ThirdByte(b1, b2, s2, v2, v3);
    DivModUnique(s4, 256, s2 * 16 + v2 / 4, b2);
  }

  /** The bytes released as the counter reaches 2, 3 and 4: `bs >> 4`, `bs >> 2` and `bs`,
      each cut to eight bits. */
  lemma AtobBytesAt(x: nat)
    ensures AtobByte(x, 2) == x / 16 % 256
    ensures AtobByte(x, 3) == x / 4 % 256
    ensures AtobByte(x, 4) == x % 256
  {
    assert AtobShift(2) == 4 && AtobShift(3) == 2 && AtobShift(4) == 0;
  }

  /** A final group of one byte: two characters release it. */
  lemma AtobTailOne(b0: int, bs: nat)
    requires 0 <= b0 < 0x100
    ensures AtobSteps(EncodeGroup([b0])[..2], 0, bs) == [b0]
  {
    var v0, v1 := b0 / 4, b0 % 4 * 16;
    IndexOfCharAt(v0); IndexOfCharAt(v1);
    AtobArith(b0, 0, 0, v0, v1, 0, 0);
    assert IsLatin1([b0]);
    var t := EncodeGroup([b0])[..2];
    assert EncodeGroup([b0]) == [CharAt(v0), CharAt(v1), Pad, Pad];
    assert t[0] == CharAt(v0) && t[1] == CharAt(v1) && t[2..] == [];
    AtobFirstPair(t, v0, v1, bs);
    assert AtobSteps([], 2, v0 * 64 + v1) == [];
    assert [AtobByte(v0 * 64 + v1, 2)] + [] == [b0];
  }

  /** Three table characters that end the input. */
  lemma AtobThree(t: JsString, v0: nat, v1: nat, v2: nat, bs: nat)
    requires |t| == 3 && IndexOf(t[0]) == v0 < 64 && IndexOf(t[1]) == v1 < 64 && IndexOf(t[2]) == v2 < 64
    ensures AtobSteps(t, 0, bs) == [AtobByte(v0 * 64 + v1, 2), AtobByte((v0 * 64 + v1) * 64 + v2, 3)]
  {
    var s2 := v0 * 64 + v1;
    var s3 := s2 * 64 + v2;
    AtobFirstPair(t, v0, v1, bs);
    assert t[2..][0] == t[2] && t[2..][1..] == [];
    AtobJoin(t[2..], 2, s2);
    assert AtobSteps([], 3, s3) == [];
    assert [AtobByte(s3, 3)] + [] == [AtobByte(s3, 3)];
    ConsChain(AtobSteps(t, 0, bs), AtobSteps(t[2..], 2, s2), [], AtobByte(s2, 2), AtobByte(s3, 3));
  }

  /** A final group of two bytes: three characters release them. */
  lemma AtobTailTwo(b0: int, b1: int, bs: nat)
    requires 0 <= b0 < 0x100 && 0 <= b1 < 0x100
    ensures AtobSteps(EncodeGroup([b0, b1])[..3], 0, bs) == [b0, b1]
  {
    var v0, v1, v2 := b0 / 4, b0 % 4 * 16 + b1 / 16, b1 % 16 * 4;
    AtobArith(b0, b1, 0, v0, v1, v2, 0);
    assert IsLatin1([b0, b1]);
    var t := EncodeGroup([b0, b1])[..3];
    IndexOfCharAt(v0); IndexOfCharAt(v1); IndexOfCharAt(v2);
    assert t == [CharAt(v0), CharAt(v1), CharAt(v2)];
    AtobThree(t, v0, v1, v2, bs);
  }

  /** atob undoes the unpadded encoding from the start of a quartet. */
  lemma {:induction false} AtobUnpadded(b: JsString, bs: nat)
    requires IsLatin1(b)
    ensures AtobSteps(EncodeUnpadded(b), 0, bs) == b
    decreases |b|, 1
  {
    if |b| == 0 {
    } else if |b| == 1 {
      assert b == [b[0]];
      AtobTailOne(b[0], bs);
    } else if |b| == 2 {
      assert b == [b[0], b[1]];
      AtobTailTwo(b[0], b[1], bs);
    } else {
      AtobFullGroup(b, bs);
    }
  }

  /** The inductive step of `AtobUnpadded`: a leading group of three bytes. */
  lemma {:induction false} AtobFullGroup(b: JsString, bs: nat)
    requires IsLatin1(b) && |b| >= 3
    ensures AtobSteps(EncodeUnpadded(b), 0, bs) == b
    decreases |b|, 0
  {
    var g := b[..3];
    var c := b[3..];
    assert g == [b[0], b[1], b[2]];
    assert b == g + c;
    var q := QuartetBits(b[0], b[1], b[2]);
    if |b| == 3 {
      assert EncodeUnpadded(b) == EncodeGroup(g) + [];
      AtobQuartet(b[0], b[1], b[2], [], bs);
      assert AtobSteps([], 4, q) == [];
    } else {
      assert IsLatin1(c);
      var u := EncodeUnpadded(c);
      assert EncodeUnpadded(b) == EncodeGroup(g) + u;
      AtobQuartet(b[0], b[1], b[2], u, bs);
      AtobPhase(u, 4, 0, q);
      AtobUnpadded(c, q);
    }
  }

  /** Decoding the reference encoding of a byte string gives the bytes back. */
  lemma AtobEncodeStd(b: JsString)
    requires IsLatin1(b)
    ensures Atob(EncodeStd(b)) == Ok(b)
  {
    StripEncodeStd(b);
    EncodeUnpaddedLength(b);
    AtobUnpadded(b, 0);
  }

  /** The unpadded encoding never leaves one character over in its last quartet. */
  lemma {:induction false} EncodeUnpaddedLength(b: JsString)
    requires IsLatin1(b)
    ensures |EncodeUnpadded(b)| % 4 != 1
    decreases |b|
  {
    if 1 <= |b| <= 3 {
      assert |EncodeUnpadded(b)| == |b| + 1;
    } else if |b| > 3 {
      var c := b[3..];
      assert IsLatin1(b[..3]) && IsLatin1(c);
      EncodeUnpaddedLength(c);
      assert EncodeUnpadded(b) == EncodeGroup(b[..3]) + EncodeUnpadded(c);
      QuartetMod(|EncodeUnpadded(c)|);
    }
  }

  lemma QuartetMod(l: nat)
    ensures (4 + l) % 4 == l % 4
  {
  }

  /** `atob(btoa(s)) == s` for every string btoa accepts. */
  lemma AtobBtoa(s: JsString)
    requires IsLatin1(s)
    ensures Btoa(s).Ok? && Atob(Btoa(s).value) == Ok(s)
  {
    BtoaIsEncodeStd(s);
    AtobEncodeStd(s);
  }
}
