/** Page formats: the table of standard sizes, the id normalisation of StringToPageFormat and
    the guard of setCustomPageFormat. */
module PageFormats {
  import opened Common

  /** A page dimension in millimetres; every format that is not endless has positive sides. */
  type Dim = r: real | r > 0.0 witness 1.0

  /** `id` is None for a custom format built without an id string. Endless is
      PageFormat.UndefinedPageFormat: no fixed page height. */
  datatype PageFormat = Format(width: Dim, height: Dim, id: Option<string>) | Endless

  function AspectRatio(f: PageFormat): (r: real)
    requires f.Format?
    ensures r > 0.0
  {
    f.width / f.height
  }

  /** PageFormatStandards. */
  const Standards: map<string, PageFormat> := map[
    "A3_L" := Format(420.0, 297.0, Some("A3_L")),
    "A3_P" := Format(297.0, 420.0, Some("A3_P")),
    "A4_L" := Format(297.0, 210.0, Some("A4_L")),
    "A4_P" := Format(210.0, 297.0, Some("A4_P")),
    "A5_L" := Format(210.0, 148.0, Some("A5_L")),
    "A5_P" := Format(148.0, 210.0, Some("A5_P")),
    "A6_L" := Format(148.0, 105.0, Some("A6_L")),
    "A6_P" := Format(105.0, 148.0, Some("A6_P")),
    "Endless" := Endless,
    "Letter_L" := Format(279.4, 215.9, Some("Letter_L")),
    "Letter_P" := Format(215.9, 279.4, Some("Letter_P"))
  ]

  predicate OccursAt(s: string, pat: string, i: nat) {
    i + |pat| <= |s| && s[i..i + |pat|] == pat
  }

  /** The first position at or after k where pat occurs. */
  function IndexFrom(s: string, pat: string, k: nat): (r: Option<nat>)
    ensures r.Some? ==> k <= r.value && OccursAt(s, pat, r.value)
    ensures r.Some? ==> forall j :: k <= j < r.value ==> !OccursAt(s, pat, j)
    ensures r.None? ==> forall j :: k <= j ==> !OccursAt(s, pat, j)
    decreases |s| - k
  {
    if k + |pat| > |s| then None
    else if s[k..k + |pat|] == pat then Some(k)
    else IndexFrom(s, pat, k + 1)
  }

  /** `s.replace(pat, rep)` with a string pattern: only the first occurrence is replaced. */
  function ReplaceFirst(s: string, pat: string, rep: string): (r: string)
  {
    match IndexFrom(s, pat, 0)
    case None => s
    case Some(i) => s[..i] + rep + s[i + |pat|..]
  }

  /** ReplaceFirst changes nothing when the pattern does not occur, and otherwise puts rep in
      place of the first occurrence, keeping what is before and after it. */
  lemma ReplaceFirstSpec(s: string, pat: string, rep: string)
    ensures (forall j: nat :: !OccursAt(s, pat, j)) ==> ReplaceFirst(s, pat, rep) == s
    ensures forall i: nat :: OccursAt(s, pat, i) && (forall j: nat :: j < i ==> !OccursAt(s, pat, j)) ==>
      ReplaceFirst(s, pat, rep) == s[..i] + rep + s[i + |pat|..]
  {
    var r := IndexFrom(s, pat, 0);
    forall i: nat | OccursAt(s, pat, i) && (forall j: nat :: j < i ==> !OccursAt(s, pat, j))
      ensures r == Some(i)
    {
    }
  }

  /** A pattern holding a character the string lacks does not occur in it. */
  lemma Absent(s: string, pat: string, c: char)
    requires c in pat && c !in s
    ensures forall j: nat :: !OccursAt(s, pat, j)
  {
    var k :| 0 <= k < |pat| && pat[k] == c;
    forall j: nat
      ensures !OccursAt(s, pat, j)
    {
      if j + |pat| <= |s| {
        assert s[j..j + |pat|][k] == s[j + k] != c;
      }
    }
  }

  /** The pattern occurs at i and its first character appears nowhere before i. */
  lemma FirstAt(s: string, pat: string, i: nat, rep: string)
    requires |pat| > 0 && OccursAt(s, pat, i)
    requires forall j :: 0 <= j < i ==> s[j] != pat[0]
    ensures ReplaceFirst(s, pat, rep) == s[..i] + rep + s[i + |pat|..]
  {
    forall j: nat | j < i
      ensures !OccursAt(s, pat, j)
    {
      if j + |pat| <= |s| {
        assert s[j..j + |pat|][0] == s[j] != pat[0];
      }
    }
    ReplaceFirstSpec(s, pat, rep);
  }

  /** StringToPageFormat: " " to "_", "Landscape" to "L", "Portrait" to "P" (each first
      occurrence only), then a table lookup that defaults to Endless. */
  function Normalise(id: string): string {
    ReplaceFirst(ReplaceFirst(ReplaceFirst(id, " ", "_"), "Landscape", "L"), "Portrait", "P")
  }

  function StringToPageFormat(id: string): (f: PageFormat)
    ensures Normalise(id) in Standards ==> f == Standards[Normalise(id)]
    ensures Normalise(id) !in Standards ==> f == Endless
    ensures f.Format? ==> Normalise(id) in Standards && f.id == Some(Normalise(id))
  {
    var key := Normalise(id);
    if key in Standards then Standards[key] else Endless
  }

  /** Every table key is its own normal form, so it selects its own entry. */
  lemma {:induction false} StandardIdsSelectThemselves(id: string)
    requires id in Standards
    ensures StringToPageFormat(id) == Standards[id]
  {
    assert ' ' !in id && 'c' !in id && 'i' !in id;
    Absent(id, " ", ' ');
    ReplaceFirstSpec(id, " ", "_");
    Absent(id, "Landscape", 'c');
    ReplaceFirstSpec(id, "Landscape", "L");
    Absent(id, "Portrait", 'i');
    ReplaceFirstSpec(id, "Portrait", "P");
  }

  /** A first occurrence at i, with the result spelled out. */
  lemma ReplacedAt(s: string, pat: string, i: nat, rep: string, expected: string)
    requires |pat| > 0 && OccursAt(s, pat, i)
    requires forall j :: 0 <= j < i ==> s[j] != pat[0]
    requires s[..i] + rep + s[i + |pat|..] == expected
    ensures ReplaceFirst(s, pat, rep) == expected
  {
    FirstAt(s, pat, i, rep);
  }

  lemma LandscapeSpace()
    ensures ReplaceFirst("A4 Landscape", " ", "_") == "A4_Landscape"
  {
    var id := "A4 Landscape";
    assert id[2..3] == " ";
    assert id[..2] + "_" + id[3..] == "A4_Landscape";
    ReplacedAt(id, " ", 2, "_", "A4_Landscape");
  }

  lemma LandscapeWord()
    ensures ReplaceFirst("A4_Landscape", "Landscape", "L") == "A4_L"
  {
    var mid := "A4_Landscape";
    assert mid[3..12] == "Landscape";
    assert mid[..3] + "L" + mid[12..] == "A4_L";
    ReplacedAt(mid, "Landscape", 3, "L", "A4_L");
  }

  /** The spelled-out names reach the same entries: "A4 Landscape" is A4_L. */
  lemma SpelledLandscape()
    ensures StringToPageFormat("A4 Landscape") == Standards["A4_L"]
  {
    LandscapeSpace();
    LandscapeWord();
    Absent("A4_L", "Portrait", 'i');
    ReplaceFirstSpec("A4_L", "Portrait", "P");
  }

  lemma PortraitSpace()
    ensures ReplaceFirst("Letter Portrait", " ", "_") == "Letter_Portrait"
  {
    var id := "Letter Portrait";
    assert id[6..7] == " ";
    assert id[..6] + "_" + id[7..] == "Letter_Portrait";
    ReplacedAt(id, " ", 6, "_", "Letter_Portrait");
  }

  lemma PortraitNoLandscape()
    ensures ReplaceFirst("Letter_Portrait", "Landscape", "L") == "Letter_Portrait"
  {
    Absent("Letter_Portrait", "Landscape", 'c');
    ReplaceFirstSpec("Letter_Portrait", "Landscape", "L");
  }

  lemma PortraitWord()
    ensures ReplaceFirst("Letter_Portrait", "Portrait", "P") == "Letter_P"
  {
    var mid := "Letter_Portrait";
    assert mid[7..15] == "Portrait";
    assert mid[..7] + "P" + mid[15..] == "Letter_P";
    ReplacedAt(mid, "Portrait", 7, "P", "Letter_P");
  }

  /** "Letter Portrait" is Letter_P. */
  lemma SpelledPortrait()
    ensures StringToPageFormat("Letter Portrait") == Standards["Letter_P"]
  {
    PortraitSpace();
    PortraitNoLandscape();
    PortraitWord();
  }

  /** setCustomPageFormat: only positive sizes replace the current format. */
  function SetCustomPageFormat(current: PageFormat, width: real, height: real): (r: PageFormat)
    ensures width > 0.0 && height > 0.0 ==> r.Format? && r.width == width && r.height == height && r.id.None?
    ensures !(width > 0.0 && height > 0.0) ==> r == current
  {
    if width > 0.0 && height > 0.0 then Format(width, height, None) else current
  }

  /** PageFormat.Equals: same width and height (the endless format counts as 0 by 0). */
  predicate SameSize(a: PageFormat, b: PageFormat) {
    match (a, b)
    case (Endless, Endless) => true
    case (Format(w1, h1, _), Format(w2, h2, _)) => w1 == w2 && h1 == h2
    case _ => false
  }

  /** setPageFormat: the new format, and whether the backend must be rebuilt. */
  function SetPageFormat(current: PageFormat, id: string): (r: (PageFormat, bool))
    ensures r.0 == StringToPageFormat(id)
    ensures r.1 <==> !SameSize(r.0, current)
  {
    var f := StringToPageFormat(id);
    (f, !SameSize(f, current))
  }
}
