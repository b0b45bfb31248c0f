/** JavaScript strings as the codecs see them: sequences of UTF-16 code units. */
module JsStrings {

  /** One UTF-16 code unit, the element `charCodeAt` returns. */
  type Unit = x: int | 0 <= x < 0x1_0000

  type JsString = seq<Unit>

  const CR: Unit := 13
  const LF: Unit := 10

  /** Every unit fits in a byte (the Latin-1 range btoa accepts). */
  predicate IsLatin1(s: JsString) {
    forall i :: 0 <= i < |s| ==> s[i] < 0x100
  }

  /** `charCodeAt(i)` as the bit operators see it: past the end it is NaN, which `|`, `&`,
      `>>` and `<<` all read as 0. */
  function CodeOrZero(s: JsString, i: nat): (c: Unit)
    ensures i < |s| ==> c == s[i]
    ensures i >= |s| ==> c == 0
  {
    if i < |s| then s[i] else 0
  }

  /** There is a CR immediately followed by LF at position i. */
  predicate CrlfAt(s: JsString, i: nat) {
    i + 1 < |s| && s[i] == CR && s[i + 1] == LF
  }

  predicate HasCrlf(s: JsString) {
    exists i: nat | i < |s| :: CrlfAt(s, i)
  }

  /** `s.replace(/\r\n/g, "\n")`: CR LF pairs, found left to right without overlap, become LF. */
  function ReplaceCrlf(s: JsString): (r: JsString)
    ensures |r| <= |s|
  {
    if |s| == 0 then []
    else if CrlfAt(s, 0) then [LF] + ReplaceCrlf(s[2..])
    else [s[0]] + ReplaceCrlf(s[1..])
  }

  /** The rewrite changes the string exactly when it holds a CR LF pair. */
  lemma {:induction false} ReplaceCrlfIdentity(s: JsString)
    ensures ReplaceCrlf(s) == s <==> !HasCrlf(s)
  {
    if |s| == 0 {
    } else if CrlfAt(s, 0) {
      assert HasCrlf(s);
      assert |ReplaceCrlf(s)| < |s|;
    } else {
      ReplaceCrlfIdentity(s[1..]);
      if HasCrlf(s) {
        var i: nat :| i < |s| && CrlfAt(s, i);
        assert i > 0;
        var t := s[1..];
        assert t[i - 1] == s[i] && t[i] == s[i + 1];
        assert CrlfAt(t, i - 1);
      }
      if HasCrlf(s[1..]) {
        var t := s[1..];
        var i: nat :| i < |t| && CrlfAt(t, i);
        assert t[i] == s[i + 1] && t[i + 1] == s[i + 2];
        assert CrlfAt(s, i + 1);
      }
      assert ReplaceCrlf(s) == [s[0]] + ReplaceCrlf(s[1..]);
      if ReplaceCrlf(s) == s {
        assert ReplaceCrlf(s[1..]) == s[1..];
      }
      if ReplaceCrlf(s[1..]) == s[1..] {
        assert s == [s[0]] + s[1..];
      }
    }
  }

  /** Nothing but CR units disappear: the rewrite drops exactly the CR of each CR LF pair and
      keeps every LF and every other unit, in order, so it shortens the string by one unit
      per pair. */
  lemma {:induction false} ReplaceCrlfKeepsOthers(s: JsString)
    ensures ReplaceCrlf(s) == DropPairedCr(s)
    ensures |ReplaceCrlf(s)| == |s| - CountCrlf(s)
    ensures IsLatin1(s) ==> IsLatin1(ReplaceCrlf(s))
  {
    if |s| == 0 {
    } else if CrlfAt(s, 0) {
      ReplaceCrlfKeepsOthers(s[2..]);
      assert !CrlfAt(s[1..], 0) && s[1..][1..] == s[2..];
    } else {
      ReplaceCrlfKeepsOthers(s[1..]);
    }
  }

  /** The string without every CR that an LF directly follows, decided unit by unit. */
  function DropPairedCr(s: JsString): JsString
  {
    if |s| == 0 then []
    else (if CrlfAt(s, 0) then [] else [s[0]]) + DropPairedCr(s[1..])
  }

  /** The number of CR LF pairs the global replace rewrites. */
  function CountCrlf(s: JsString): nat
  {
    if |s| == 0 then 0
    else if CrlfAt(s, 0) then 1 + CountCrlf(s[2..])
    else CountCrlf(s[1..])
  }
}
