/** The `encode`/`decode` pair of demo/js/Base64.js: text goes through the UTF-8
    transcoder and then through a group-of-three encoder over the same 65-character
    table as btoa; decoding strips everything outside the table first. */
module Base64Text {
  import opened Common
  import opened Bits
  import opened JsStrings
  import opened Base64
  import opened Utf8

  // ---------------------------------------------------------------------------
  // encode (lines 61-83)
  // ---------------------------------------------------------------------------

  /** The four table positions of one loop iteration of `encode`. `chr2` and `chr3`
      are NaN past the end: NaN reads as 0 under the bit operators, and `isNaN(chr2)`
      forces enc3 = enc4 = 64, `isNaN(chr3)` forces enc4 = 64. */
  function EncodeIndices(t: JsString): (r: seq<int>)
    requires |t| >= 1 && IsLatin1(t)
    ensures |r| == 4
  {
    var chr1, chr2, chr3 := t[0], CodeOrZero(t, 1), CodeOrZero(t, 2);
    var enc1 := chr1 / 4;
    var enc2 := Or(chr1 % 4 * 16, chr2 / 16);
    var enc3 := if |t| < 2 then 64 else Or(chr2 % 16 * 4, chr3 / 64);
    var enc4 := if |t| < 2 || |t| < 3 then 64 else chr3 % 64;
    [enc1, enc2, enc3, enc4]
  }

  /** The encoder loop over the UTF-8 bytes, three at a time. */
  function EncodeSteps(t: JsString): (r: JsString)
    requires IsLatin1(t)
    decreases |t|
  {
    if |t| == 0 then []
    else
      var e := EncodeIndices(t);
      assert forall j :: 0 <= j < 4 ==> 0 <= e[j] <= 64 by {
        EncodeIndicesRange(t);
      }
      var rest := if |t| >= 3 then t[3..] else [];
      [CharAt(e[0]), CharAt(e[1]), CharAt(e[2]), CharAt(e[3])] + EncodeSteps(rest)
  }

  /** Every index the encoder computes lies in the table, and 64, the padding '=', comes out
      exactly in the places the missing second and third units force it. */
  lemma EncodeIndicesRange(t: JsString)
    requires |t| >= 1 && IsLatin1(t)
    ensures forall j :: 0 <= j < 4 ==> 0 <= EncodeIndices(t)[j] <= 64
    ensures forall j :: 0 <= j < 4 ==> (EncodeIndices(t)[j] == 64 <==> (j == 2 && |t| < 2) || (j == 3 && |t| < 3))
  {
    var chr1, chr2, chr3 := t[0], CodeOrZero(t, 1), CodeOrZero(t, 2);
    assert chr2 < 0x100 && chr3 < 0x100;
    Pow2Values();
    OrTag(chr1 % 4, chr2 / 16, 4);
    OrTag(chr2 % 16, chr3 / 64, 2);
  }

  /** `encode(input)`. */
  function Encode(s: JsString): (r: JsString)
  {
    EncodeSteps(Utf8Encode(s))
  }

  // ---------------------------------------------------------------------------
  // decode (lines 86-111)
  // ---------------------------------------------------------------------------

  /** `input.replace(/[^A-Za-z0-9\+\/\=]/g, "")`: only the table's characters stay. */
  function KeepAlphabet(s: JsString): (r: JsString)
    ensures AllInAlphabet(r) && |r| <= |s|
  {
    if |s| == 0 then []
    else if InAlphabet(s[0]) then [s[0]] + KeepAlphabet(s[1..])
    else KeepAlphabet(s[1..])
  }

  /** `chars.indexOf(input.charAt(i))`: past the end `charAt` gives "" and
      `indexOf("")` is 0. */
  function EncAt(t: JsString, i: nat): (v: nat)
    requires AllInAlphabet(t)
    ensures v <= 64
  {
    if i < |t| then IndexOf(t[i]) else 0
  }

  /** The units one loop iteration of `decode` appends. */
  function DecodeGroup(t: JsString): (r: JsString)
    requires |t| >= 1 && AllInAlphabet(t)
    ensures 1 <= |r| <= 3
  {
    var enc1, enc2, enc3, enc4 := EncAt(t, 0), EncAt(t, 1), EncAt(t, 2), EncAt(t, 3);
    var chr1 := Or(enc1 * 4, enc2 / 16);
    var chr2 := Or(enc2 % 16 * 16, enc3 / 4);
    var chr3 := Or(enc3 % 4 * 64, enc4);
    [chr1] + (if enc3 != 64 then [chr2] else []) + (if enc4 != 64 then [chr3] else [])
  }

  /** The decoder loop over the filtered input, four characters at a time. */
  function DecodeSteps(t: JsString): (r: JsString)
    requires AllInAlphabet(t)
    decreases |t|
  {
    if |t| == 0 then []
    else
      var rest := if |t| >= 4 then t[4..] else [];
      assert AllInAlphabet(rest) by {
        if |t| >= 4 {
          AlphabetSuffix(t, 4);
        }
      }
      DecodeGroup(t) + DecodeSteps(rest)
  }

  lemma AlphabetSuffix(t: JsString, k: nat)
    requires AllInAlphabet(t) && k <= |t|
    ensures AllInAlphabet(t[k..])
  {
    assert forall i :: 0 <= i < |t| - k ==> t[k..][i] == t[k + i];
  }

  /** `decode(input)`. */
  function Decode(s: JsString): (r: JsString)
  {
    Utf8Decode(DecodeSteps(KeepAlphabet(s)))
  }

  // ---------------------------------------------------------------------------
  // The encoder is the reference encoding
  // ---------------------------------------------------------------------------

  /** The OR-joins of `encode` are additions: the bits they join do not overlap. */
  lemma EncodeIndicesArith(t: JsString)
    requires |t| >= 1 && IsLatin1(t)
    ensures var chr1, chr2, chr3 := t[0], CodeOrZero(t, 1), CodeOrZero(t, 2);
      EncodeIndices(t) == [chr1 / 4, chr1 % 4 * 16 + chr2 / 16,
                           if |t| < 2 then 64 else chr2 % 16 * 4 + chr3 / 64,
                           if |t| < 3 then 64 else chr3 % 64]
  {
    var chr1, chr2, chr3 := t[0], CodeOrZero(t, 1), CodeOrZero(t, 2);
    assert chr2 < 0x100 && chr3 < 0x100;
    OrBelow16(chr1 % 4, chr2 / 16);
    OrBelow4(chr2 % 16, chr3 / 64);
  }

  /** One iteration of `encode` writes the reference encoding of its group. */
  lemma EncodeGroupIsStd(t: JsString)
    requires |t| >= 1 && IsLatin1(t)
    ensures var g := if |t| >= 3 then t[..3] else t;
      var e := EncodeIndices(t);
      (forall j :: 0 <= j < 4 ==> 0 <= e[j] <= 64)
      && [CharAt(e[0]), CharAt(e[1]), CharAt(e[2]), CharAt(e[3])] == EncodeGroup(g)
  {
    EncodeIndicesRange(t);
    EncodeIndicesArith(t);
    var g := if |t| >= 3 then t[..3] else t;
    assert |g| == if |t| >= 3 then 3 else |t|;
    assert g[0] == t[0];
    assert CodeOrZero(g, 1) == CodeOrZero(t, 1) && CodeOrZero(g, 2) == CodeOrZero(t, 2);
  }

  /** `encode` on bytes is the reference encoding. */
  lemma {:induction false} EncodeStepsIsStd(t: JsString)
    requires IsLatin1(t)
    ensures EncodeSteps(t) == EncodeStd(t)
    decreases |t|
  {
    if |t| > 0 {
      EncodeGroupIsStd(t);
      if |t| > 3 {
        assert IsLatin1(t[3..]);
        EncodeStepsIsStd(t[3..]);
      } else if |t| == 3 {
        assert t[..3] == t;
        assert EncodeSteps(t[3..]) == [];
      }
    }
  }

  /** The output of `encode` has the reference length and uses only the table. */
  lemma EncodeShape(s: JsString)
    ensures var r := Encode(s);
      |r| == 4 * ((|Utf8Encode(s)| + 2) / 3) && AllInAlphabet(r)
  {
    EncodeStepsIsStd(Utf8Encode(s));
  }

  /** On ASCII text without CR LF, `encode` and `btoa` agree. */
  lemma EncodeIsBtoaOnAscii(s: JsString)
    requires forall i :: 0 <= i < |s| ==> s[i] < 128
    requires !HasCrlf(s)
    ensures Btoa(s) == Ok(Encode(s))
  {
    ReplaceCrlfIdentity(s);
    AsciiUnchanged(s);
    EncodeStepsIsStd(s);
    BtoaIsEncodeStd(s);
  }

  // ---------------------------------------------------------------------------
  // The decoder undoes the reference encoding
  // ---------------------------------------------------------------------------

  /** The table positions of a full group, recovered by `decode`. */
  lemma DecodeFullGroup(b0: int, b1: int, b2: int, rest: JsString)
    requires 0 <= b0 < 0x100 && 0 <= b1 < 0x100 && 0 <= b2 < 0x100
    requires AllInAlphabet(rest)
    ensures var g := EncodeGroup([b0, b1, b2]);
      AllInAlphabet(g + rest) && DecodeGroup(g + rest) == [b0, b1, b2]
  {
    var v0, v1, v2, v3 := b0 / 4, b0 % 4 * 16 + b1 / 16, b1 % 16 * 4 + b2 / 64, b2 % 64;
    FullGroupChars(b0, b1, b2);
    AlphabetConcat(EncodeGroup([b0, b1, b2]), rest);
    DecodeFourChars(v0, v1, v2, v3, rest);
    DecodeBytes(b0, b1, b2, v0, v1, v2, v3);
  }

  /** One iteration of `decode` over four table characters. */
  lemma DecodeFourChars(v0: nat, v1: nat, v2: nat, v3: nat, rest: JsString)
    requires v0 < 64 && v1 < 64 && v2 < 64 && v3 < 64
    requires AllInAlphabet([CharAt(v0), CharAt(v1), CharAt(v2), CharAt(v3)] + rest)
    ensures DecodeGroup([CharAt(v0), CharAt(v1), CharAt(v2), CharAt(v3)] + rest)
      == [Or(v0 * 4, v1 / 16), Or(v1 % 16 * 16, v2 / 4), Or(v2 % 4 * 64, v3)]
  {
    var u := [CharAt(v0), CharAt(v1), CharAt(v2), CharAt(v3)] + rest;
    IndexOfCharAt(v0); IndexOfCharAt(v1); IndexOfCharAt(v2); IndexOfCharAt(v3);
    assert u[0] == CharAt(v0) && u[1] == CharAt(v1) && u[2] == CharAt(v2) && u[3] == CharAt(v3);
    assert EncAt(u, 0) == v0 && EncAt(u, 1) == v1 && EncAt(u, 2) == v2 && EncAt(u, 3) == v3;
    var x0, x1, x2 := Or(v0 * 4, v1 / 16), Or(v1 % 16 * 16, v2 / 4), Or(v2 % 4 * 64, v3);
    assert DecodeGroup(u) == [x0] + [x1] + [x2];
  }

  /** The OR-joins of `decode` reassemble the three bytes of a full group. */
  lemma DecodeBytes(b0: int, b1: int, b2: int, v0: nat, v1: nat, v2: nat, v3: nat)
    requires 0 <= b0 < 0x100 && 0 <= b1 < 0x100 && 0 <= b2 < 0x100
    requires v0 == b0 / 4 && v1 == b0 % 4 * 16 + b1 / 16
    requires v2 == b1 % 16 * 4 + b2 / 64 && v3 == b2 % 64
    ensures Or(v0 * 4, v1 / 16) == b0
    ensures Or(v1 % 16 * 16, v2 / 4) == b1
    ensures Or(v2 % 4 * 64, v3) == b2
  {
    Pow2Values();
    DivModUnique(v1, 16, b0 % 4, b1 / 16);
    DivModUnique(v2, 4, b1 % 16, b2 / 64);
    OrTag(v0, v1 / 16, 2);
    OrTag(v1 % 16, v2 / 4, 4);
    OrTag(v2 % 4, v3, 6);
  }

  /** A final group of one or two bytes, with its '=' padding. */
  lemma DecodeShortGroup(b: JsString)
    requires 1 <= |b| <= 2 && IsLatin1(b)
    ensures AllInAlphabet(EncodeGroup(b)) && DecodeGroup(EncodeGroup(b)) == b
  {
    var g := EncodeGroup(b);
    var b0 := b[0];
    var b1 := if |b| > 1 then b[1] else 0;
    var v0, v1, v2 := b0 / 4, b0 % 4 * 16 + b1 / 16, b1 % 16 * 4 + 0 / 64;
    IndexOfCharAt(v0); IndexOfCharAt(v1); IndexOfCharAt(v2); IndexOfCharAt(64);
    assert g == [CharAt(v0), CharAt(v1), if |b| > 1 then CharAt(v2) else Pad, Pad];
    assert AllInAlphabet(g);
    DecodeBytes(b0, b1, 0, v0, v1, v2, 0);
    if |b| == 1 {
      assert DecodeGroup(g) == [b0];
    } else {
      assert DecodeGroup(g) == [b0, b1];
    }
  }

  /** The loop takes one group of four and goes on with the rest. */
  lemma DecodeStepsCons(g: JsString, rest: JsString)
    requires |g| == 4 && AllInAlphabet(g + rest)
    ensures AllInAlphabet(rest)
    ensures DecodeSteps(g + rest) == DecodeGroup(g + rest) + DecodeSteps(rest)
  {
    var u := g + rest;
    AlphabetSuffix(u, 4);
    assert u[4..] == rest;
  }

  /** `decode`'s loop undoes the reference encoding of any byte string. */
  lemma {:induction false} DecodeStepsStd(b: JsString)
    requires IsLatin1(b)
    ensures DecodeSteps(EncodeStd(b)) == b
    decreases |b|, 1
  {
    if |b| == 0 {
    } else if |b| <= 2 {
      DecodeShortGroup(b);
      DecodeStepsCons(EncodeGroup(b), []);
      assert EncodeGroup(b) + [] == EncodeStd(b);
    } else {
      DecodeFullStep(b);
    }
  }

  /** The inductive step of `DecodeStepsStd`: a leading group of three bytes. */
  lemma {:induction false} DecodeFullStep(b: JsString)
    requires IsLatin1(b) && |b| >= 3
    ensures DecodeSteps(EncodeStd(b)) == b
    decreases |b|, 0
  {
    var g := b[..3];
    var c := b[3..];
    assert g == [b[0], b[1], b[2]];
    assert IsLatin1(c);
    var t := EncodeStd(c);
    var e := EncodeGroup(g);
    DecodeFullGroup(b[0], b[1], b[2], t);
    DecodeStepsCons(e, t);
    if |b| == 3 {
      assert b[..3] == b && c == [];
      assert t == [] && e + t == e;
      assert EncodeStd(b) == e;
    } else {
      assert EncodeStd(b) == e + t;
      DecodeStepsStd(c);
    }
    assert b == g + c;
  }

  /** The filter keeps a string made of table characters as it is. */
  lemma {:induction false} KeepAlphabetKeeps(t: JsString)
    requires AllInAlphabet(t)
    ensures KeepAlphabet(t) == t
    decreases |t|
  {
    if |t| > 0 {
      assert AllInAlphabet(t[1..]) by {
        assert forall i :: 0 <= i < |t| - 1 ==> t[1..][i] == t[i + 1];
      }
      KeepAlphabetKeeps(t[1..]);
      assert t == [t[0]] + t[1..];
    }
  }

  /** Characters outside the table make no difference to `decode`. */
  lemma {:induction false} DecodeIgnoresOthers(s: JsString)
    ensures Decode(KeepAlphabet(s)) == Decode(s)
  {
    KeepAlphabetKeeps(KeepAlphabet(s));
  }

  /** `decode(encode(s))` is `s` with every CR LF replaced by LF. */
  lemma {:induction false} DecodeEncode(s: JsString)
    ensures Decode(Encode(s)) == ReplaceCrlf(s)
  {
    var u := Utf8Encode(s);
    EncodeStepsIsStd(u);
    KeepAlphabetKeeps(EncodeStd(u));
    DecodeStepsStd(u);
    Utf8RoundTrip(s);
  }

  /** Unpadded input of two characters: past the end `indexOf("")` is 0, not the '='
      position 64, so `decode` appends two NUL units where `atob` stops. */
  lemma DecodeUnpaddedQuirk()
    ensures Decode([81, 81]) == [65, 0, 0]
    ensures Atob([81, 81]) == Ok([65])
  {
    DecodeQuirk();
    AtobQuirk();
  }

  lemma DecodeQuirk()
    ensures Decode([81, 81]) == [65, 0, 0]
  {
    var t: JsString := [81, 81];
    assert AllInAlphabet(t) by {
      assert IndexOf(81) == 16;
    }
    KeepAlphabetKeeps(t);
    QuirkGroup(t);
    assert DecodeSteps(t) == DecodeGroup(t) + DecodeSteps([]);
    QuirkUtf8();
  }

  lemma AtobQuirk()
    ensures Atob([81, 81]) == Ok([65])
  {
    var t: JsString := [81, 81];
    assert StripTrailingPad(t) == t;
    assert IndexOf(81) == 16;
    assert t[1..] == [81] && t[1..][1..] == [];
    AtobOpen(t, 0, 0);
    AtobJoin(t[1..], 1, 16);
    QuirkByte();
    var x := AtobSteps([], 2, 16 * 64 + 16);
    assert x == [];
    assert AtobSteps(t, 0, 0) == [65] + x;
    assert |t| % 4 == 2;
    assert [65] + x == [65];
    assert Atob(t) == Ok(AtobSteps(t, 0, 0));
  }

  /** `(1040 >> 4) & 0xff` is 65. */
  lemma QuirkByte()
    ensures AtobByte(16 * 64 + 16, 2) == 65
  {
    Pow2Values();
    assert AtobShift(2) == 4;
  }

  lemma QuirkGroup(t: JsString)
    requires t == [81, 81] && AllInAlphabet(t)
    ensures DecodeGroup(t) == [65, 0, 0]
  {
    assert IndexOf(81) == 16;
    assert EncAt(t, 0) == 16 && EncAt(t, 1) == 16 && EncAt(t, 2) == 0 && EncAt(t, 3) == 0;
    Pow2Values();
    OrTag(16, 1, 2);
    assert Or(0, 0) == 0;
  }

  lemma QuirkUtf8()
    ensures Utf8Decode([65, 0, 0]) == [65, 0, 0]
  {
    var u: JsString := [65, 0, 0];
    assert u[1..] == [0, 0] && u[1..][1..] == [0] && u[1..][1..][1..] == [];
  }
}
