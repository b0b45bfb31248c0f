/** setColoringMode: validation of a custom colour set and the note-to-colour map it installs. */
module Coloring {
  import opened Common

  datatype ColoringMode = XmlMode | AutoColoring | CustomColorSet

  /** The keys of ColoringSetCurrent: the seven note names and the rest, whose key is -1. */
  datatype NoteKey = C | D | E | F | G | A | B | Rest

  /** noteIndices, in the order the colours are given. */
  const NoteIndices: seq<NoteKey> := [C, D, E, F, G, A, B, Rest]

  /** The coloring part of EngravingRules. */
  datatype Rules = Rules(mode: ColoringMode, colors: map<NoteKey, string>)

  predicate IsHexDigit(c: char) {
    '0' <= c <= '9' || 'a' <= c <= 'f' || 'A' <= c <= 'F'
  }

  /** `/^\#[0-9a-fA-F]{6}$/.test(s)`. */
  predicate IsHexColor(s: string) {
    |s| == 7 && s[0] == '#' && forall i :: 1 <= i < 7 ==> IsHexDigit(s[i])
  }

  /** The checks on coloringSetCustom, in the order they throw: first the count, then each
      string in turn. */
  function ValidateCustom(custom: Option<seq<string>>): (r: Result<seq<string>>)
    ensures r.Ok? <==> custom.Some? && |custom.value| == 8 && forall i :: 0 <= i < 8 ==> IsHexColor(custom.value[i])
    ensures r.Ok? ==> r.value == custom.value
    ensures r.Err? && (custom.None? || |custom.value| != 8) ==> r.error == InvalidColorCount
    ensures r.Err? && custom.Some? && |custom.value| == 8 ==> r.error == InvalidColorString
  {
    if custom.None? || |custom.value| != 8 then Err(InvalidColorCount)
    else if AllHex(custom.value, 0) then Ok(custom.value)
    else Err(InvalidColorString)
  }

  /** The for-of loop over the strings, from position k on. */
  function AllHex(xs: seq<string>, k: nat): (b: bool)
    requires k <= |xs|
    ensures b <==> forall i :: k <= i < |xs| ==> IsHexColor(xs[i])
    decreases |xs| - k
  {
    k == |xs| || (IsHexColor(xs[k]) && AllHex(xs, k + 1))
  }

  /** The dictionary after the first n rounds of `setValue(noteIndices[i], colorSetString[i])`. */
  function Fill(cs: seq<string>, n: nat): map<NoteKey, string>
    requires n <= |NoteIndices| && |cs| == 8
  {
    if n == 0 then map[] else Fill(cs, n - 1)[NoteIndices[n - 1] := cs[n - 1]]
  }

  /** After n rounds, the first n keys are present, each with its own colour. */
  lemma {:induction false} FillSpec(cs: seq<string>, n: nat)
    requires n <= |NoteIndices| && |cs| == 8
    ensures Fill(cs, n).Keys == set i | 0 <= i < n :: NoteIndices[i]
    ensures forall i :: 0 <= i < n ==> Fill(cs, n)[NoteIndices[i]] == cs[i]
  {
    if n > 0 {
      FillSpec(cs, n - 1);
      forall i | 0 <= i < n - 1
        ensures NoteIndices[i] != NoteIndices[n - 1]
      {
      }
    }
  }

  /** The map both colour-set modes install: C..B take entries 0..6, the rest takes entry 7
      (set once by the loop and once more afterwards). */
  function ColorMap(cs: seq<string>): (m: map<NoteKey, string>)
    requires |cs| == 8
  {
    Fill(cs, 8)[Rest := cs[7]]
  }

  /** ColorMap assigns every key, note i of noteIndices getting colour i. */
  lemma ColorMapSpec(cs: seq<string>)
    requires |cs| == 8
    ensures forall k: NoteKey :: k in ColorMap(cs)
    ensures forall i :: 0 <= i < 8 ==> ColorMap(cs)[NoteIndices[i]] == cs[i]
  {
    FillSpec(cs, 8);
    forall k: NoteKey
      ensures k in ColorMap(cs)
    {
      assert k == NoteIndices[match k case C => 0 case D => 1 case E => 2 case F => 3
                                          case G => 4 case A => 5 case B => 6 case Rest => 7];
    }
  }

  /** setColoringMode. `autoColors` are the values of AutoColorSet, in key order (eight of them:
      C to B and the rest note). */
  function SetColoringMode(rules: Rules, mode: ColoringMode, custom: Option<seq<string>>,
                           autoColors: seq<string>): (r: Result<Rules>)
    requires |autoColors| == 8
    ensures mode == XmlMode ==> r == Ok(rules.(mode := XmlMode))
    ensures mode == AutoColoring ==> r.Ok?
    ensures mode == CustomColorSet ==> (r.Ok? <==> ValidateCustom(custom).Ok?)
    ensures r.Err? ==> r.error == ValidateCustom(custom).error
    ensures r.Ok? && mode != XmlMode ==> r.value.mode == mode
  {
    if mode == XmlMode then Ok(rules.(mode := XmlMode))
    else
      var cs :- if mode == CustomColorSet then ValidateCustom(custom) else Ok(autoColors);
      Ok(Rules(mode, ColorMap(cs)))
  }

  /** An accepted custom set maps noteIndices[i] to the i-th string. (A rejected one throws
      before anything is assigned, so the Err result carries no new rules.) */
  lemma CustomColorsInstalled(rules: Rules, custom: seq<string>, autoColors: seq<string>)
    requires |autoColors| == 8
    requires |custom| == 8 && forall i :: 0 <= i < 8 ==> IsHexColor(custom[i])
    ensures SetColoringMode(rules, CustomColorSet, Some(custom), autoColors).Ok?
    ensures var m := SetColoringMode(rules, CustomColorSet, Some(custom), autoColors).value.colors;
      forall i :: 0 <= i < 8 ==> NoteIndices[i] in m && m[NoteIndices[i]] == custom[i]
  {
    ColorMapSpec(custom);
  }

  /** The automatic mode maps noteIndices[i] to the i-th AutoColorSet value. */
  lemma AutoColorsInstalled(rules: Rules, custom: Option<seq<string>>, autoColors: seq<string>)
    requires |autoColors| == 8
    ensures var m := SetColoringMode(rules, AutoColoring, custom, autoColors).value.colors;
      forall i :: 0 <= i < 8 ==> NoteIndices[i] in m && m[NoteIndices[i]] == autoColors[i]
  {
    ColorMapSpec(autoColors);
  }
}
