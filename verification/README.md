# OpenSheetMusicDisplay overlays, measure backgrounds and Base64.js in Dafny

This project models three parts of the daqiit fork of OpenSheetMusicDisplay as pure
functions over immutable values, and proves what they promise.

- **The overlay bookkeeping of `OpenSheetMusicDisplayLowVersion`.** This covers:
  - clause labels and the `clauseComments` registry;
  - comment areas and comment texts, including the per-system segmentation of
    `addCommentAreaByVoiceEntry`;
  - measure-background bands and stuck markers;
  - the partial redraw filter.

  The file's small pure helpers are modelled too: the string dispatch at the top of `load`,
  `reset`/`IsReadyToRender`/`render`, `setColoringMode`, the page formats, the canvas size
  limit of the render backends, and the `handleResize` debounce.
- **`MeasureBackGround1`** (`MeasureBackGround.ts`): a hidden flag, a start/end range, a
  tracked list of band elements and the id of the last band. It supports `init`, `hide`,
  `show`, `update`, `clear` and the band drawer.
- **`demo/js/Base64.js`**: `btoa`, `atob`, `encode`, `decode` and the per-code-unit UTF-8
  transcoder `_utf8_encode` / `_utf8_decode`.

## How the pieces are represented

- **The document** (`Dom.Surface`) is a sequence of nodes, in document order.
  - Each node has a unique key, a display flag and an item.
  - The item determines the class name: one of the five overlay classes (`Dom.ClassName`), or
    any other class for foreign elements.
  - `appendChild` appends a node.
  - The `while (elements.length > 0) remove(elements[0])` loops over a live collection become
    `Dom.Remove`. The method `Dom.RemoveLive` runs that loop and is proved to leave exactly
    what `Dom.Remove` describes.
- **The laid-out score** (`Score.Score`) is the `MeasureList` grid of measures plus the music
  systems of the first page. Each measure has a number, a position, an optional VexFlow
  stave, staff entries and its parent system.
- **JavaScript strings** in the codecs and in `load` are sequences of UTF-16 code units
  (`JsStrings.JsString`). Bitwise `|` is `Bits.Or`, an exact OR on naturals. `>>` and `&`
  with a low mask on non-negative values become division and remainder.
- **Exceptions.**
  - A read of a property of `undefined` becomes `Error.TypeError`.
  - The explicit throws become `LayoutNotReady`, `InvalidCharacter`, `InvalidColorCount`
    and `InvalidColorString`.
  - Every loop that can throw part-way returns what it had already appended together with
    the exception, because the DOM appends before the throw stay.
- **The drawer.** `Viewer.Osmd.drawer` says whether a render has created the drawer, with
  its first backend; nothing removes it again. The operations that add overlays,
  `clearCommentArea` and the redraws all reach `this.drawer.Backends[0]`. Before the first
  render each of them throws a TypeError at that point, after any score lookups that come
  first, and appends nothing.
- **Loops.** The two band-drawing loops share one model of the loop (`Bands.DrawRange`),
  parameterised by what one round does.

The source's behaviour is kept where it looks unintended:

- `MeasureBackGround1.update` clamps the end index only after the drawing loop, so the clamp
  bounds nothing. Drawing past the last row throws a TypeError after the earlier bands are
  attached. `MeasureBackground.ClampTooLate` and `Overlays.NoClamp` prove the behaviour as written.
- The viewer's own band drawer and the comment frames use the bottom stave line's y twice,
  where `MeasureBackGround1` adds the line's staff height. Both are modelled as written.
- The leftmost-measure scan in `addCommentAreaByVoiceEntry` uses 0 as "not yet found", so a
  measure at x = 0 is passed over (`Overlays.SentinelSkipsZero`).
- `decode` reads past the end of an unpadded final group as table index 0, not as the `=`
  index 64. So it appends NUL units where `atob` stops (`Base64Text.DecodeUnpaddedQuirk`).
- `addMultipleClauseComment` pushes an index onto the registry before its label is created,
  so a label that throws leaves that index registered without a label.

## Model

| member | source | states |
|---|---|---|
| Dom.Append | src/OpenSheetMusicDisplay/OpenSheetMusicDisplayLowVersion.ts:1009 | `appendChild` keeps every earlier element in place and adds one visible element, with a fresh key, at the end; unique ascending keys stay so |
| Dom.AppendAllKeys | src/OpenSheetMusicDisplay/OpenSheetMusicDisplayLowVersion.ts:1146 | appending n items gives them the keys nextKey .. nextKey + n - 1 in order, all visible, each holding its item |
| Dom.Remove | src/OpenSheetMusicDisplay/OpenSheetMusicDisplayLowVersion.ts:1025-1028 | removing a class leaves no element of it, keeps exactly the elements of other classes, and keeps keys unique and ascending |
| Dom.RemoveOverlays | src/OpenSheetMusicDisplay/OpenSheetMusicDisplayLowVersion.ts:249-257 | every element of the five overlay classes goes, every other element stays, and keys stay unique and ascending |
| Dom.RemoveLive | src/OpenSheetMusicDisplay/OpenSheetMusicDisplayLowVersion.ts:1025-1028 | the loop that removes the first element of the live collection until it is empty ends with exactly the page `Dom.Remove` gives |
| Dom.RemoveAppended | src/OpenSheetMusicDisplay/OpenSheetMusicDisplayLowVersion.ts:1100-1103 | removing class c after appending only elements of class c leaves what removing c before the appends leaves |
| Dom.WithoutCommutes | src/OpenSheetMusicDisplay/OpenSheetMusicDisplayLowVersion.ts:1077-1084 | removing one class and then another leaves the same as the other order |
| Dom.SetShown | src/OpenSheetMusicDisplay/MeasureBackGround.ts:39-41 | setting `style.display` on the tracked elements changes the flag of exactly the elements whose key is listed and nothing else |
| Score.LastOfRow | src/OpenSheetMusicDisplay/MeasureBackGround.ts:93 | `MeasureList[m].last()` succeeds exactly when row m exists and is not empty, and is then its last measure; otherwise a TypeError |
| Score.EntryAt | src/OpenSheetMusicDisplay/OpenSheetMusicDisplayLowVersion.ts:1155 | `MeasureList[m][g].staffEntries[s]` succeeds exactly when all three indices are in range, and is then that entry |
| Viewer.Reset | src/OpenSheetMusicDisplay/OpenSheetMusicDisplayLowVersion.ts:554-561 | after reset the viewer is not ready to render, no sheet is loaded and the zoom is 1; the registry, the drawer and the page are untouched |
| Viewer.Render | src/OpenSheetMusicDisplay/OpenSheetMusicDisplayLowVersion.ts:189-261 | render succeeds exactly when `IsReadyToRender` holds, and fails with the layout error otherwise. On success the clause registry is empty and a drawer exists. When a drawer existed before, the page keeps exactly its elements that are not overlays; otherwise it keeps all of them |
| Viewer.Dispatch | src/OpenSheetMusicDisplay/OpenSheetMusicDisplayLowVersion.ts:100-143 | for a string, each branch is taken exactly when its prefix test holds and every earlier one fails (zip, BOM, XML, short URL, long string); the reload drops exactly the BOM; a document goes to the partwise search; anything else is rejected, logged only for a string |
| Viewer.Load | src/OpenSheetMusicDisplay/OpenSheetMusicDisplayLowVersion.ts:96-98 | load resets the viewer before it dispatches, whatever the content: the sheet and score are forgotten and the zoom is 1, while the clause registry, the drawer and the page are kept |
| Viewer.BomIsStripped | src/OpenSheetMusicDisplay/OpenSheetMusicDisplayLowVersion.ts:118-121 | a string that starts with the BOM is loaded again with exactly those three units removed |
| Viewer.BackendSizesSpec | src/OpenSheetMusicDisplay/OpenSheetMusicDisplayLowVersion.ts:275-296 | one backend per page; on a canvas the width is `min(width, 32767)` for every page and the height is the page height cut to 32767; on SVG nothing is cut |
| Viewer.CanvasWithinLimit | src/OpenSheetMusicDisplay/OpenSheetMusicDisplayLowVersion.ts:278-291 | no canvas backend exceeds 32767 on either side |
| Coloring.ValidateCustom | src/OpenSheetMusicDisplay/OpenSheetMusicDisplayLowVersion.ts:487-498 | a custom colour set is accepted, unchanged, exactly when it has 8 strings, each `#` and six hex digits; a missing set or a wrong count gives the count error, otherwise a bad string gives the colour error |
| Coloring.SetColoringMode | src/OpenSheetMusicDisplay/OpenSheetMusicDisplayLowVersion.ts:479-515 | XML mode only records the mode and leaves the colour map untouched; automatic mode always succeeds; custom mode succeeds exactly when the set is accepted, and otherwise throws the validation error; on success the mode is recorded |
| Coloring.ColorMapSpec | src/OpenSheetMusicDisplay/OpenSheetMusicDisplayLowVersion.ts:507-511 | the map has exactly the eight note keys and maps the i-th note index (C..B, then the rest key -1) to the i-th colour string |
| Coloring.CustomColorsInstalled | src/OpenSheetMusicDisplay/OpenSheetMusicDisplayLowVersion.ts:486-512 | an accepted custom set maps note i to custom string i, the rest key to string 7 |
| Coloring.AutoColorsInstalled | src/OpenSheetMusicDisplay/OpenSheetMusicDisplayLowVersion.ts:500-512 | automatic colouring maps note i to the i-th AutoColorSet value |
| PageFormats.ReplaceFirstSpec | src/OpenSheetMusicDisplay/OpenSheetMusicDisplayLowVersion.ts:684-686 | `replace` with a string pattern changes nothing when the pattern is absent, and otherwise replaces only its first occurrence, keeping what is before and after |
| PageFormats.StringToPageFormat | src/OpenSheetMusicDisplay/OpenSheetMusicDisplayLowVersion.ts:683-693 | an id whose normal form is a key of the standard table gives that key's entry, and any other id gives the endless format; a sized format carries the normal form as its id |
| PageFormats.StandardIdsSelectThemselves | src/OpenSheetMusicDisplay/OpenSheetMusicDisplayLowVersion.ts:669-693 | every id of the standard table selects its own format |
| PageFormats.SpelledLandscape | src/OpenSheetMusicDisplay/OpenSheetMusicDisplayLowVersion.ts:684-685 | "A4 Landscape" is normalised to and selects A4_L |
| PageFormats.SpelledPortrait | src/OpenSheetMusicDisplay/OpenSheetMusicDisplayLowVersion.ts:684-686 | "Letter Portrait" is normalised to and selects Letter_P |
| PageFormats.SetPageFormat | src/OpenSheetMusicDisplay/OpenSheetMusicDisplayLowVersion.ts:696-700 | the new format is the looked-up one, and a backend rebuild is requested exactly when its size differs from the current one |
| PageFormats.SetCustomPageFormat | src/OpenSheetMusicDisplay/OpenSheetMusicDisplayLowVersion.ts:702-707 | positive sizes install a format of exactly that size without id; any other size leaves the current format |
| Redraw.RedrawAllMeasure | src/OpenSheetMusicDisplay/OpenSheetMusicDisplayLowVersion.ts:922-929 | every measure of the grid is drawn, once, in row-major order |
| Redraw.RedrawAllMeasureOn | src/OpenSheetMusicDisplay/OpenSheetMusicDisplayLowVersion.ts:922-929 | on a viewer the full redraw fails with a TypeError without a laid-out score, and without a drawer unless every row is empty; otherwise it draws exactly the measures of the grid |
| Redraw.RedrawMeasure | src/OpenSheetMusicDisplay/OpenSheetMusicDisplayLowVersion.ts:931-940 | exactly the measures, from every staff group, whose number lies in s+1 .. e+1 are drawn, in row-major order |
| Redraw.RedrawMeasureOn | src/OpenSheetMusicDisplay/OpenSheetMusicDisplayLowVersion.ts:931-940 | on a viewer the partial redraw fails with a TypeError without a laid-out score, and without a drawer whenever a measure is in range; otherwise it draws exactly the in-range measures of the grid |
| Redraw.WideRangeRedrawsAll | src/OpenSheetMusicDisplay/OpenSheetMusicDisplayLowVersion.ts:935 | when every measure number lies in s+1 .. e+1, the partial redraw is the full redraw |
| Redraw.EmptyRangeDrawsNothing | src/OpenSheetMusicDisplay/OpenSheetMusicDisplayLowVersion.ts:935 | a range with e < s draws nothing |
| Resize.ResizeStart | src/OpenSheetMusicDisplay/OpenSheetMusicDisplayLowVersion.ts:602-612 | a resize records its time; the start callback runs and a timer is set 200 ms ahead exactly when no timer was pending |
| Resize.ResizeEnd | src/OpenSheetMusicDisplay/OpenSheetMusicDisplayLowVersion.ts:614-622 | the end callback runs exactly when at least 200 ms passed since the last resize, and then no timer is left; otherwise the timer is set again |
| Resize.Step | src/OpenSheetMusicDisplay/OpenSheetMusicDisplayLowVersion.ts:602-622 | each event runs at most one callback, the one the state expects, and running it flips whether a timer is pending; an end only runs 200 ms after the last resize; a resize while disabled changes nothing |
| Resize.RunAlternates | src/OpenSheetMusicDisplay/OpenSheetMusicDisplayLowVersion.ts:596-622 | over any run of events the callbacks alternate between start and end, and a timer is pending afterwards exactly as the parity of callbacks predicts |
| Resize.FromIdle | src/OpenSheetMusicDisplay/OpenSheetMusicDisplayLowVersion.ts:597-598 | from the initial state the callbacks are start, end, start, ...; a timer is pending exactly when the last one was a start |
| Overlays.ClauseTextInjective | src/OpenSheetMusicDisplay/OpenSheetMusicDisplayLowVersion.ts:1006 | two clause captions are equal exactly when their numbers are |
| Overlays.ClauseLabelFor | src/OpenSheetMusicDisplay/OpenSheetMusicDisplayLowVersion.ts:993-1008 | the label of measure m carries m and its clause number, left-aligned with the measure and centred vertically on its top (half of 12 · 10 · zoom above it) |
| Overlays.AddClauseComment | src/OpenSheetMusicDisplay/OpenSheetMusicDisplayLowVersion.ts:989-1010 | succeeds exactly when row m has a first measure and a drawer exists, and then appends only that measure's label; otherwise a TypeError before anything is appended |
| Overlays.AddMultipleClauseComment | src/OpenSheetMusicDisplay/OpenSheetMusicDisplayLowVersion.ts:1013-1015 | null input changes nothing; undefined input throws a TypeError at `.length` |
| Overlays.RegistryGrows | src/OpenSheetMusicDisplay/OpenSheetMusicDisplayLowVersion.ts:1015-1019 | the registry only grows at its end, and only by indices it did not already hold; score and zoom are untouched; the only exception is a TypeError |
| Overlays.RegistryNoDup | src/OpenSheetMusicDisplay/OpenSheetMusicDisplayLowVersion.ts:1016-1017 | a registry without repeats gains none, even when the input repeats an index |
| Overlays.ClauseRegistry | src/OpenSheetMusicDisplay/OpenSheetMusicDisplayLowVersion.ts:1013-1022 | never registers an index twice, keeps the old entries in place, registers only input indices, and without an exception every input index ends up registered |
| Overlays.ClauseLabels | src/OpenSheetMusicDisplay/OpenSheetMusicDisplayLowVersion.ts:1015-1019 | the labels are appended after the old page, one per newly registered index, in registry order, each numbered by that index's first position in the input plus one; only a throwing round leaves its index unlabelled |
| Overlays.RemoveAllClauseComment | src/OpenSheetMusicDisplay/OpenSheetMusicDisplayLowVersion.ts:1024-1030 | every clause label goes, every other element stays, and the registry is emptied |
| Overlays.RemoveClausesUndoesAdd | src/OpenSheetMusicDisplay/OpenSheetMusicDisplayLowVersion.ts:1013-1030 | removing the clause labels after any addMultipleClauseComment, even one that threw, leaves the page that removing them before it leaves |
| Overlays.AddCommentArea | src/OpenSheetMusicDisplay/OpenSheetMusicDisplayLowVersion.ts:1032-1051 | throws a TypeError, changing nothing, exactly when there is no drawer; otherwise exactly one visible comment area holding the span startX..endX, startY and the height is appended under the next key after the unchanged page, and nothing else in the viewer changes |
| Overlays.AddCommentText | src/OpenSheetMusicDisplay/OpenSheetMusicDisplayLowVersion.ts:1053-1071 | throws a TypeError, changing nothing, exactly when there is no drawer; otherwise exactly one visible comment text holding the span, startY, the height and the caption `word` is appended under the next key after the unchanged page, and nothing else in the viewer changes |
| Overlays.AreaBox | src/OpenSheetMusicDisplay/OpenSheetMusicDisplayLowVersion.ts:1040-1048 | the area element sits inside a double border a tenth of the height wide, its content box running from startX to endX and starting at startY, `height` high |
| Overlays.CaptionBox | src/OpenSheetMusicDisplay/OpenSheetMusicDisplayLowVersion.ts:1062-1069 | the caption button is centred over startX..endX, 0.6 of the height wide and 0.2 high, its top 0.4 of the height above startY |
| Overlays.ClearCommentArea | src/OpenSheetMusicDisplay/OpenSheetMusicDisplayLowVersion.ts:1073-1086 | throws a TypeError exactly when there is no drawer; otherwise exactly the elements of neither comment class survive, and registry, score and zoom are untouched |
| Overlays.ClearUndoesComments | src/OpenSheetMusicDisplay/OpenSheetMusicDisplayLowVersion.ts:1073-1086 | after any run of comment appends, clearCommentArea fails exactly when it fails before them, and otherwise leaves what it leaves before them |
| Overlays.LeftmostIsMinimum | src/OpenSheetMusicDisplay/OpenSheetMusicDisplayLowVersion.ts:963-969 | when no scaled measure x is 0, the scan yields the smallest scaled x of the system |
| Overlays.SentinelSkipsZero | src/OpenSheetMusicDisplay/OpenSheetMusicDisplayLowVersion.ts:965 | a measure at x = 0 is passed over: the scan over [0, 5] at zoom 1 gives 50 |
| Overlays.SegmentAt | src/OpenSheetMusicDisplay/OpenSheetMusicDisplayLowVersion.ts:956-985 | a round succeeds exactly when its system exists, the voice entry it needs is defined, with a border the system has stave lines, and a drawer exists for addCommentArea and addCommentText; the first segment starts at the start voice x, the last ends at the end voice x, the others span from the leftmost measure to the system's right edge |
| Overlays.SegmentsSpec | src/OpenSheetMusicDisplay/OpenSheetMusicDisplayLowVersion.ts:956-986 | the loop yields the segments of consecutive systems from startId on: all of startId..endId when no round throws, otherwise exactly those before the first round that throws |
| Overlays.SegmentItemsAreCalls | src/OpenSheetMusicDisplay/OpenSheetMusicDisplayLowVersion.ts:977-985 | one round of the loop appends exactly what its addCommentArea call (when a border is drawn) and its addCommentText call append |
| Overlays.SegmentItemsSpec | src/OpenSheetMusicDisplay/OpenSheetMusicDisplayLowVersion.ts:977-985 | with a border the items alternate frame, caption per segment; without one they are the captions alone |
| Overlays.VoicePrelude | src/OpenSheetMusicDisplay/OpenSheetMusicDisplayLowVersion.ts:946-953 | the lookups before the loop succeed exactly when both staff entries exist, and yield the two voice x values (absent for an undefined voice entry) and the Ids of the two measures' systems |
| Overlays.AddCommentAreaByVoiceEntry | src/OpenSheetMusicDisplay/OpenSheetMusicDisplayLowVersion.ts:943-987 | a failed lookup throws before anything is appended; otherwise the loop over the systems runs |
| Overlays.CommentPerSystem | src/OpenSheetMusicDisplay/OpenSheetMusicDisplayLowVersion.ts:956-986 | without an exception there is one caption per system from startId to endId, in order, after the old page, each preceded by a frame exactly when a border is asked for, spanning that system's segment |
| Overlays.NoDrawerNoComments | src/OpenSheetMusicDisplay/OpenSheetMusicDisplayLowVersion.ts:977-985 | without a drawer the loop leaves the viewer unchanged, and throws exactly when it has a system to visit |
| Overlays.OsmdBand | src/OpenSheetMusicDisplay/OpenSheetMusicDisplayLowVersion.ts:1105-1150 | a round draws exactly when a drawer exists and row i has a staved last measure whose system has stave lines; it skips a measure without a stave and otherwise throws; without a drawer or with an absent row it throws before attaching, and a band attached before a later throw stays unplaced |
| Overlays.OsmdBox | src/OpenSheetMusicDisplay/OpenSheetMusicDisplayLowVersion.ts:1122-1131 | left and width are the stave's scaled by the zoom; top is the first stave line, and height runs to twice the bottom line's y, scaled by 10 and the zoom |
| Overlays.DrawMeasureBackGround | src/OpenSheetMusicDisplay/OpenSheetMusicDisplayLowVersion.ts:1090-1097 | without a colour (null, undefined or empty) nothing happens; registry, score and zoom are untouched |
| Overlays.BandsInOrder | src/OpenSheetMusicDisplay/OpenSheetMusicDisplayLowVersion.ts:1090-1097 | with a colour it throws exactly when some round cannot complete, so without a drawer every non-empty range throws; otherwise the page gains exactly one band per index of s..e whose measure has a stave, in ascending order |
| Overlays.NoClamp | src/OpenSheetMusicDisplay/OpenSheetMusicDisplayLowVersion.ts:1093 | a range that reaches past the last row throws instead of being clamped |
| Overlays.NoDrawerNoBands | src/OpenSheetMusicDisplay/OpenSheetMusicDisplayLowVersion.ts:1090-1106 | without a drawer, drawMeasureBackGround leaves the viewer unchanged, and throws exactly when a colour is given and the range is not empty |
| Overlays.ClearAllMeasureBackGround | src/OpenSheetMusicDisplay/OpenSheetMusicDisplayLowVersion.ts:1098-1104 | every band goes and every other element stays |
| Overlays.ClearUndoesBands | src/OpenSheetMusicDisplay/OpenSheetMusicDisplayLowVersion.ts:1090-1104 | clearing the bands after drawing them, even after a drawing that threw part-way, leaves what clearing before leaves |
| Overlays.AddStuckText | src/OpenSheetMusicDisplay/OpenSheetMusicDisplayLowVersion.ts:1153-1179 | succeeds exactly when the staff entry exists and a drawer exists, and then appends one marker 1.5 units left of and 2.5 units above the entry, scaled; otherwise a TypeError before anything is appended |
| Overlays.RemoveAllStuckComment | src/OpenSheetMusicDisplay/OpenSheetMusicDisplayLowVersion.ts:1181-1186 | every stuck marker goes and every other element stays |
| Overlays.RemoveUndoesStuck | src/OpenSheetMusicDisplay/OpenSheetMusicDisplayLowVersion.ts:1153-1186 | removing the stuck markers after adding one leaves what removing them before leaves |
| Bands.DrawRangeSpec | src/OpenSheetMusicDisplay/OpenSheetMusicDisplayLowVersion.ts:1093-1095 | the band loop runs to the end exactly when no round throws, and then appends the bands of the drawing rounds in ascending order; otherwise it stops at the first throwing round, keeping the bands before it and what that round attached |
| Bands.DrawRange | src/OpenSheetMusicDisplay/OpenSheetMusicDisplayLowVersion.ts:1093-1095 | a band loop that runs to the end has appended the bands of the drawing rounds, in order; the only exception it ends with is a TypeError |
| Bands.DrawnIndicesSpec | src/OpenSheetMusicDisplay/MeasureBackGround.ts:54-56 | the drawing rounds are listed strictly ascending, exactly those of s..e that draw, each with its band |
| Bands.DrawRangeOfClass | src/OpenSheetMusicDisplay/MeasureBackGround.ts:103 | when every round appends only band elements, so does the loop |
| MeasureBackground.BandIdDecodes | src/OpenSheetMusicDisplay/MeasureBackGround.ts:97 | a band id is the class name, a dash and the index; the index reads back from it, so two measures never share an id |
| MeasureBackground.MbBand | src/OpenSheetMusicDisplay/MeasureBackGround.ts:90-136 | a round draws exactly when row i exists with a staved last measure whose system has stave lines; it then carries the id for i and the stave's box; a measure without a stave is skipped; an absent row throws before attaching, a system without lines after attaching the band with its id |
| MeasureBackground.StaveBox | src/OpenSheetMusicDisplay/MeasureBackGround.ts:108-117 | left and width are the stave's scaled by the zoom; top is `(systemY + firstLineY) * 10 * zoom` and height `(bottomLineY + StaffHeight - firstLineY) * 10 * zoom` |
| MeasureBackground.Clear | src/OpenSheetMusicDisplay/MeasureBackGround.ts:65-73 | no band remains, every other element stays, the tracked list is emptied and nothing else in the object changes |
| MeasureBackground.Update | src/OpenSheetMusicDisplay/MeasureBackGround.ts:50-63 | update always clears first; without a colour it does nothing else; it never touches the hidden flag or the recorded range; the only exception is a TypeError |
| MeasureBackground.UpdateThrows | src/OpenSheetMusicDisplay/MeasureBackGround.ts:50-60 | update ends without an exception exactly when init gave a score and, with a colour, every round s..e can complete |
| MeasureBackground.UpdateTracksBands | src/OpenSheetMusicDisplay/MeasureBackGround.ts:50-57 | with a colour and no exception, the page is the cleared page plus one band per index of s..e whose measure has a stave, ascending, each tracked in that order and drawn by the drawer; the last id is that of the last band |
| MeasureBackground.LoopTracksKeys | src/OpenSheetMusicDisplay/MeasureBackGround.ts:132 | a loop that runs to the end tracks exactly the keys of the elements it appended, and leaves the id field at the last band's |
| MeasureBackground.ClearUndoesUpdate | src/OpenSheetMusicDisplay/MeasureBackGround.ts:50-73 | clearing after any update, even one that threw part-way, leaves the page that clearing before it leaves |
| MeasureBackground.ClampTooLate | src/OpenSheetMusicDisplay/MeasureBackGround.ts:54-60 | an end index past the last row gives the same bands and tracked list as the last row itself, plus a TypeError, so the clamp after the loop bounds nothing |
| MeasureBackground.Hide | src/OpenSheetMusicDisplay/MeasureBackGround.ts:37-49 | every tracked element is hidden, every other element is untouched, nothing is removed, and the object is marked hidden |
| MeasureBackground.Init | src/OpenSheetMusicDisplay/MeasureBackGround.ts:27-33 | the score given is stored, the object is marked hidden and every tracked element is hidden; the tracked list, last id and range are kept, and every other element of the page is untouched |
| MeasureBackground.Show | src/OpenSheetMusicDisplay/MeasureBackGround.ts:77-89 | the range is recorded and the object is no longer hidden; with a negative index no update runs, and exactly the tracked elements become visible (the update branch is stated by MeasureBackground.ShowDraws) |
| MeasureBackground.UpdateShowsTracked | src/OpenSheetMusicDisplay/MeasureBackGround.ts:50-57 | after update every tracked element is visible and the page's keys stay unique |
| MeasureBackground.UpdateWhileHidden | src/OpenSheetMusicDisplay/MeasureBackGround.ts:50-57 | update ignores the hidden flag: after hide, an update leaves visible tracked bands while the object still says it is hidden |
| MeasureBackground.ShowDraws | src/OpenSheetMusicDisplay/MeasureBackGround.ts:77-89 | with both indices non-negative show runs update: it throws exactly when update would; with a colour one band per row in range that has a stave is drawn and tracked, in order, after the remaining non-band elements, every tracked one of which was made visible; without a colour the bands are cleared and nothing is tracked |
| MeasureBackground.InitThenShow | src/OpenSheetMusicDisplay/MeasureBackGround.ts:27-33 | show with a negative index after init makes the object visible again and shows every tracked element, leaving every other element as it was before init |
| MeasureBackground.ShowReveals | src/OpenSheetMusicDisplay/MeasureBackGround.ts:77-89 | after show every tracked element is visible, whether or not update ran |
| MeasureBackground.ShowUndoesHide | src/OpenSheetMusicDisplay/MeasureBackGround.ts:77-89 | show without an update restores the page hide changed, when every tracked element was visible before |
| Base64.IndexOfCharAt | demo/js/Base64.js:5 | `indexOf` of the character at any position 0..64 of the 65-character table gives that position back, so no character repeats |
| Base64.EncodeStd | demo/js/Base64.js:15-34 | the reference encoding (section 4 of RFC 4648) of a Latin-1 string has length 4·⌈n/3⌉ and uses only the table |
| Base64.EncodeStdPadding | demo/js/Base64.js:15-34 | '=' appears only at the end of the reference encoding, as often as the final group is short of three bytes |
| Base64.BtoaIsEncodeStd | demo/js/Base64.js:15-34 | btoa's fractional-index loop yields the reference encoding on Latin-1 input, and throws exactly when some unit is above 0xFF |
| Base64.StripTrailingPad | demo/js/Base64.js:40 | the result is a prefix, does not end in '=', and only '=' was dropped |
| Base64.Atob | demo/js/Base64.js:39-43 | atob throws exactly when the stripped length leaves one character over modulo 4 |
| Base64.AtobSkips | demo/js/Base64.js:50-56 | a unit outside the table changes nothing in atob's loop |
| Base64.AtobEncodeStd | demo/js/Base64.js:38-59 | atob of the reference encoding of a Latin-1 string gives it back |
| Base64.AtobBtoa | demo/js/Base64.js:15-59 | `atob(btoa(s)) == s` for every Latin-1 string |
| Utf8.UnitBytes | demo/js/Base64.js:118-128 | a unit below 128 gives one byte, below 2048 two, otherwise three, each at most 0xFF |
| Utf8.UnitBytesShape | demo/js/Base64.js:118-128 | a unit below 128 is its own byte; a two-byte form has a lead byte in 194..223 holding the high bits and a continuation byte 128 plus the low six bits; a three-byte form has a lead byte in 224..239 and two continuation bytes of six bits each |
| Utf8.EncodeUnits | demo/js/Base64.js:117-129 | the output is Latin-1 and between one and three times as long as the input |
| Utf8.DecodeUnitBytes | demo/js/Base64.js:137-151 | decoding the bytes of one unit, followed by anything, gives the unit back first |
| Utf8.Utf8RoundTrip | demo/js/Base64.js:114-154 | `_utf8_decode(_utf8_encode(s))` is s with every CR LF replaced by LF |
| Utf8.AsciiUnchanged | demo/js/Base64.js:114-131 | `_utf8_encode` leaves ASCII text without CR LF unchanged |
| JsStrings.ReplaceCrlfIdentity | demo/js/Base64.js:115 | the CR LF rewrite changes a string exactly when it holds a CR LF pair |
| JsStrings.ReplaceCrlfKeepsOthers | demo/js/Base64.js:115 | the rewrite equals dropping every CR that an LF directly follows, keeping every other unit in order; so it shortens the string by one unit per CR LF pair, and Latin-1 text stays Latin-1 |
| Base64Text.EncodeIndicesRange | demo/js/Base64.js:71-79 | every index encode computes is a table position, 64 only as padding |
| Base64Text.EncodeStepsIsStd | demo/js/Base64.js:67-81 | encode's loop over bytes is the reference encoding |
| Base64Text.EncodeShape | demo/js/Base64.js:61-83 | encode's output has the reference length for the UTF-8 bytes and uses only the table |
| Base64Text.EncodeIsBtoaOnAscii | demo/js/Base64.js:61-83 | on ASCII text without CR LF, encode and btoa agree |
| Base64Text.KeepAlphabet | demo/js/Base64.js:92 | the filter keeps only table characters and never lengthens the input |
| Base64Text.DecodeIgnoresOthers | demo/js/Base64.js:92 | characters outside the table make no difference to decode |
| Base64Text.DecodeStepsStd | demo/js/Base64.js:93-108 | decode's loop gives back the bytes of any reference encoding, padding included |
| Base64Text.DecodeEncode | demo/js/Base64.js:61-111 | `decode(encode(s))` is s with every CR LF replaced by LF |
| Base64Text.DecodeUnpaddedQuirk | demo/js/Base64.js:94-107 | on the unpadded "QQ", decode appends two NUL units where atob returns just "A" |
| Decimal.ParseIntString | src/OpenSheetMusicDisplay/MeasureBackGround.ts:97 | the decimal numeral of an integer reads back as that integer |

## Left out

- Rendering itself: VexFlow drawing, `drawSheet`, the cursor (its class is not part of this
  model), `createPdf`, and most of `setOptions`. `redrawMeasure`'s `item.draw(context)` is
  modelled as the list of measures drawn, in order.
- The asynchronous parts of `load` (unzip, AJAX, DOMParser, MusicSheetReader and layout).
  The model stops at the step load chooses; the laid-out score is an input.
- Viewer.Render: the sizing of the sheet, `reCalculate`, `drawer.clear()`, `drawSheet` and
  the cursor are not modelled. The old backend takes the engraved score with it, but
  `drawSheet` draws it again, so only the overlays are taken to leave the page. A drawer is
  taken to come with its first backend.
- `handleResize`'s initial `setTimeout(startCallback, 0)` and `setTimeout(endCallback, 1)`
  and the event-listener wiring. Time is integer milliseconds; the clock is an event
  parameter.
- `AutoColorSet`'s values are not part of this model. They are a parameter of
  `Coloring.SetColoringMode`, taken in key order.
- `PageFormat.Equals` is not part of this model. `PageFormats.SameSize` assumes it compares
  width and height.
- One drawing surface: `Backends[0]`, `this.container` and `document` are the same page, so
  every `getElementsByClassName` sees every overlay.
- Console and log output, CSS strings, the canvas gradient and `toDataURL`: they change no
  state the model tracks.
- Numbers are JavaScript doubles in the source. Measure indices, counters and code units
  are integers here. Positions are exact reals, so rounding and the `"px"` formatting are not
  modelled.
- Overlays.OsmdBand: a band attached by a round that then throws is recorded as unplaced
  (`box` None), without the left and width set before the throw, because those values have
  no later use.
- MeasureBackground.MbBand: a band attached by a round that then throws is recorded as
  unplaced (`box` None). The left and width set before the throw at
  src/OpenSheetMusicDisplay/MeasureBackGround.ts:113 are not recorded, because nothing reads
  them later.
- Overlays.AddCommentAreaByVoiceEntry: the caption height `cursorElement.height` is a
  parameter, since the cursor element is not part of this model.
- The `Array.prototype` extensions `contains`, `clear` and `last` are modelled by their
  evident meaning (membership, emptying, last element).
- `MeasureBackGround1.init` ignores its manager parameter, as the source does.
- Dom.ClassName: a class spelled like one of the five overlay names is always the matching
  constructor, never `Other`, so comparisons of class names are comparisons of constructors.
- The clause label's caption is a function of its number (`Overlays.ClauseText`); the item
  stores the number.
- Base64.AtobEncodeStd: proved for decoding from the start of a quartet (counter 0), which
  is how `atob` starts; `Base64.AtobPhase` shows only the counter modulo 4 matters.
