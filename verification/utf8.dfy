/** The private `_utf8_encode` / `_utf8_decode` pair of demo/js/Base64.js. The encoder
    works per UTF-16 code unit with the one-, two- and three-byte patterns of section 3
    of RFC 3629 (a surrogate pair becomes two three-byte sequences); bytes are again code
    units, each at most 0xFF. */
module Utf8 {
  import opened Bits
  import opened JsStrings

  /** The bytes `_utf8_encode` appends for one code unit. */
  function UnitBytes(c: Unit): (r: JsString)
    ensures 1 <= |r| <= 3 && IsLatin1(r)
    ensures |r| == 1 <==> c < 128
    ensures |r| == 2 <==> 128 <= c < 2048
  {
    if c < 128 then [c]
    else if c > 127 && c < 2048 then [Or(c / 64, 192), Or(c % 64, 128)]
    else [Or(c / 4096, 224), Or(c / 64 % 64, 128), Or(c % 64, 128)]
  }

  /** The loop of `_utf8_encode` after the CR LF rewrite. */
  function EncodeUnits(t: JsString): (r: JsString)
    ensures IsLatin1(r)
    ensures |t| <= |r| <= 3 * |t|
  {
    if |t| == 0 then [] else UnitBytes(t[0]) + EncodeUnits(t[1..])
  }

  /** `_utf8_encode(string)`. */
  function Utf8Encode(s: JsString): (r: JsString)
  {
    EncodeUnits(ReplaceCrlf(s))
  }

  function Min(a: nat, b: nat): nat { if a < b then a else b }

  /** `_utf8_decode(utftext)`: a unit below 128 is itself; one in 192..223 leads two;
      every other one leads three. A continuation past the end reads as 0 (NaN & 63). */
  function Utf8Decode(u: JsString): (r: JsString)
    ensures |r| <= |u|
  {
    if |u| == 0 then []
    else
      var c := u[0];
      if c < 128 then [c] + Utf8Decode(u[1..])
      else if c > 191 && c < 224 then
        var c2 := CodeOrZero(u, 1);
        [Or(c % 32 * 64, c2 % 64)] + Utf8Decode(u[Min(2, |u|)..])
      else
        var c2 := CodeOrZero(u, 1);
        var c3 := CodeOrZero(u, 2);
        [Or(Or(c % 16 * 4096, c2 % 64 * 64), c3 % 64)] + Utf8Decode(u[Min(3, |u|)..])
  }

  /** The byte patterns: a lead byte says how many bytes follow, each continuation
      carries six bits, and the bits reassemble the unit. */
  lemma UnitBytesShape(c: Unit)
    ensures var r := UnitBytes(c);
      && (c < 128 ==> r[0] == c)
      && (128 <= c < 2048 ==> r[0] == 192 + c / 64 && r[1] == 128 + c % 64 && 194 <= r[0] < 224)
      && (2048 <= c ==> r[0] == 224 + c / 4096 && r[1] == 128 + c / 64 % 64 && r[2] == 128 + c % 64
                        && 224 <= r[0] < 240)
  {
    Pow2Values();
    if 128 <= c < 2048 {
      OrTag(3, c / 64, 6);
      OrTag(2, c % 64, 6);
    } else if 2048 <= c {
      OrTag(14, c / 4096, 4);
      OrTag(2, c / 64 % 64, 6);
      OrTag(2, c % 64, 6);
    }
  }

  /** Decoding the bytes of one unit, followed by anything, gives the unit back first. */
  lemma DecodeUnitBytes(c: Unit, rest: JsString)
    ensures Utf8Decode(UnitBytes(c) + rest) == [c] + Utf8Decode(rest)
  {
    UnitBytesShape(c);
    var r := UnitBytes(c);
    if c < 128 {
      assert (r + rest)[1..] == rest;
    } else if c < 2048 {
      assert r == [r[0], r[1]];
      DecodeTwoBytes(c, r[0], r[1], rest);
    } else {
      assert r == [r[0], r[1], r[2]];
      DecodeThreeBytes(c, r[0], r[1], r[2], rest);
    }
  }

  lemma DecodeTwoBytes(c: Unit, x: Unit, y: Unit, rest: JsString)
    requires 128 <= c < 2048
    requires x == 192 + c / 64 && y == 128 + c % 64
    ensures Utf8Decode([x, y] + rest) == [c] + Utf8Decode(rest)
  {
    Pow2Values();
    var u := [x, y] + rest;
    assert u[Min(2, |u|)..] == rest;
    assert x % 32 == c / 64;
    assert y % 64 == c % 64;
    OrDisjoint(c / 64, c % 64, 6);
  }

  lemma DecodeThreeBytes(c: Unit, x: Unit, y: Unit, z: Unit, rest: JsString)
    requires 2048 <= c
    requires x == 224 + c / 4096 && y == 128 + c / 64 % 64 && z == 128 + c % 64
    ensures Utf8Decode([x, y, z] + rest) == [c] + Utf8Decode(rest)
  {
    var u := [x, y, z] + rest;
    assert u[Min(3, |u|)..] == rest;
    ThreeByteValue(c, x, y, z);
  }

  lemma SplitSixBits(c: nat)
    ensures c == c / 4096 * 4096 + c / 64 % 64 * 64 + c % 64
  {
    var q := c / 64;
    assert c == q * 64 + c % 64;
    assert q == q / 64 * 64 + q % 64;
    assert q / 64 == c / 4096;
  }

  /** The three-byte branch of the decoder reassembles the unit. */
  lemma ThreeByteValue(c: Unit, x: Unit, y: Unit, z: Unit)
    requires 2048 <= c
    requires x == 224 + c / 4096 && y == 128 + c / 64 % 64 && z == 128 + c % 64
    ensures Or(Or(x % 16 * 4096, y % 64 * 64), z % 64) == c
  {
    var hi := c / 4096;
    var mid := c / 64 % 64;
    var lo := c % 64;
    ThreeBytePieces(c, x, y, z);
    OrThree(hi, mid, lo);
  }

  /** The payload bits each of the three bytes carries. */
  lemma ThreeBytePieces(c: Unit, x: Unit, y: Unit, z: Unit)
    requires 2048 <= c
    requires x == 224 + c / 4096 && y == 128 + c / 64 % 64 && z == 128 + c % 64
    ensures c / 4096 < 16 && x % 16 == c / 4096 && y % 64 == c / 64 % 64 && z % 64 == c % 64
    ensures c == c / 4096 * 4096 + c / 64 % 64 * 64 + c % 64
  {
    SplitSixBits(c);
    assert x == 14 * 16 + c / 4096;
    assert y == 2 * 64 + c / 64 % 64;
    assert z == 2 * 64 + c % 64;
  }

  /** Fields in disjoint bit ranges are joined by OR as by addition. */
  lemma {:induction false} OrThree(hi: nat, mid: nat, lo: nat)
    requires mid < 64 && lo < 64
    ensures Or(Or(hi * 4096, mid * 64), lo) == hi * 4096 + mid * 64 + lo
  {
    Pow2Values();
    OrDisjoint(hi, mid * 64, 12);
    OrDisjoint(hi * 64 + mid, lo, 6);
    assert hi * 4096 + mid * 64 == (hi * 64 + mid) * 64;
  }

  /** The transcoder round trip on any string without the CR LF rewrite. */
  lemma {:induction false} DecodeEncodeUnits(t: JsString)
    ensures Utf8Decode(EncodeUnits(t)) == t
  {
    if |t| > 0 {
      DecodeUnitBytes(t[0], EncodeUnits(t[1..]));
      DecodeEncodeUnits(t[1..]);
      assert t == [t[0]] + t[1..];
    }
  }

  /** `_utf8_decode(_utf8_encode(s))` is `s` with every CR LF replaced by LF. */
  lemma {:induction false} Utf8RoundTrip(s: JsString)
    ensures Utf8Decode(Utf8Encode(s)) == ReplaceCrlf(s)
  {
    DecodeEncodeUnits(ReplaceCrlf(s));
  }

  /** `_utf8_encode` changes nothing on ASCII text without CR LF. */
  lemma {:induction false} AsciiUnchanged(t: JsString)
    requires forall i :: 0 <= i < |t| ==> t[i] < 128
    ensures EncodeUnits(t) == t
  {
    if |t| > 0 {
      AsciiUnchanged(t[1..]);
      assert t == [t[0]] + t[1..];
    }
  }

  /** The encoded length is the sum of 1, 2 or 3 per unit. */
  function EncodedLength(t: JsString): nat
  {
    if |t| == 0 then 0
    else (if t[0] < 128 then 1 else if t[0] < 2048 then 2 else 3) + EncodedLength(t[1..])
  }

  lemma {:induction false} EncodeUnitsLength(t: JsString)
    ensures |EncodeUnits(t)| == EncodedLength(t)
  {
    if |t| > 0 {
      EncodeUnitsLength(t[1..]);
    }
  }
}
