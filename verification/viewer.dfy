/** The viewer's own state and entry points: reset, readiness, the render precondition, the
    dispatch on the content handed to load, and the backend sizes with the canvas limit. */
module Viewer {
  import opened Common
  import opened JsStrings
  import opened Dom
  import opened Score
  import opened PageFormats

  /** What the model tracks of one viewer: whether a sheet is loaded, the laid-out score
      (`graphic`), the zoom, the clause registry `clauseComments`, whether a drawer (with its
      first backend) exists, and the page. The drawer is created by the first render and
      never dropped; until then every overlay operation throws a TypeError where it first
      asks the drawer for its backend. */
  datatype Osmd = Osmd(sheetLoaded: bool, graphic: Option<Score>, zoom: real, clauses: seq<int>,
                       drawer: bool, page: Surface)

  /** IsReadyToRender: a laid-out score exists. */
  predicate IsReadyToRender(v: Osmd) {
    v.graphic.Some?
  }

  /** reset: sheet and graphic forgotten, zoom back to 1. */
  function Reset(v: Osmd): (r: Osmd)
    ensures !IsReadyToRender(r) && !r.sheetLoaded && r.zoom == 1.0
    ensures r.clauses == v.clauses && r.drawer == v.drawer && r.page == v.page
  {
    v.(sheetLoaded := false, graphic := None, zoom := 1.0)
  }

  /** render: throws unless a score is laid out; the clause registry is emptied and a new
      drawer replaces any old one. The old drawer's backend leaves the container together
      with every overlay drawn into it; the engraved score is drawn again, so the elements
      that are not overlays are taken to stay. */
  function Render(v: Osmd): (r: Result<Osmd>)
    ensures r.Ok? <==> IsReadyToRender(v)
    ensures r.Err? ==> r.error == LayoutNotReady
    ensures r.Ok? ==> r.value.drawer && r.value.clauses == [] && r.value.graphic == v.graphic && r.value.zoom == v.zoom
    ensures r.Ok? ==> forall n :: n in r.value.page.nodes <==> n in v.page.nodes && !(v.drawer && IsOverlay(ClassOf(n.item)))
    ensures r.Ok? && !v.drawer ==> r.value.page == v.page
  {
    if v.graphic.None? then Err(LayoutNotReady)
    else Ok(v.(clauses := [], drawer := true, page := if v.drawer then RemoveOverlays(v.page) else v.page))
  }

  /** The content passed to load: a string, a DOM document (it has a nodeName), or anything
      else (null, undefined, an object without nodeName). */
  datatype Content = Text(s: JsString) | DocumentNode | OtherValue

  /** What load goes on to do. */
  datatype LoadStep =
    | Unzip(archive: JsString)   // unpack the MXL archive, then load the XML it holds
    | Reload(rest: JsString)     // load again without the byte-order mark
    | ParseXml(text: JsString)   // parse the string as XML
    | Fetch(url: JsString)       // fetch the string as a URL, then load what comes back
    | ReadDocument               // look for the score-partwise element of the document
    | Reject(logged: bool)       // InvalidDocument; `logged` when console.error ran first

  /** "PK\x03\x04", the start of a zip archive. */
  const ZipMagic: JsString := [0x50, 0x4B, 0x03, 0x04]
  /** The UTF-8 byte-order mark as it appears after a UTF-16 read. */
  const Bom: JsString := [0xF7EF, 0xF7BB, 0xF7BF]
  /** "<?xml". */
  const XmlDecl: JsString := [0x3C, 0x3F, 0x78, 0x6D, 0x6C]
  /** Strings shorter than this are taken as URLs. */
  const UrlLimit: nat := 2083

  /** `s.substr(0, n)`. */
  function Substr0(s: JsString, n: nat): JsString {
    s[..if n < |s| then n else |s|]
  }

  predicate StartsWith(s: JsString, p: JsString) {
    |p| <= |s| && s[..|p|] == p
  }

  /** Comparing the first |p| units with p is a prefix test. */
  lemma SubstrPrefix(s: JsString, p: JsString)
    ensures Substr0(s, |p|) == p <==> StartsWith(s, p)
  {
    if Substr0(s, |p|) == p {
      assert |Substr0(s, |p|)| == |p|;
    }
  }

  /** The dispatch at the top of load, tried in this order: zip archive, byte-order mark, XML
      text, URL; a long string that is none of these is logged and then rejected like any
      other non-document. */
  function Dispatch(c: Content): (r: LoadStep)
    ensures c.Text? ==> (r.Unzip? <==> StartsWith(c.s, ZipMagic))
    ensures c.Text? ==> (r.Reload? <==> !StartsWith(c.s, ZipMagic) && StartsWith(c.s, Bom))
    ensures c.Text? ==> (r.ParseXml? <==>
      !StartsWith(c.s, ZipMagic) && !StartsWith(c.s, Bom) && StartsWith(c.s, XmlDecl))
    ensures c.Text? ==> (r.Fetch? <==>
      !StartsWith(c.s, ZipMagic) && !StartsWith(c.s, Bom) && !StartsWith(c.s, XmlDecl) && |c.s| < UrlLimit)
    ensures c.Text? ==> (r.Reject? <==>
      !StartsWith(c.s, ZipMagic) && !StartsWith(c.s, Bom) && !StartsWith(c.s, XmlDecl) && |c.s| >= UrlLimit)
    ensures r.Reload? ==> c.Text? && Bom + r.rest == c.s
    ensures r.Reject? ==> (r.logged <==> c.Text?)
    ensures c.DocumentNode? <==> r == ReadDocument
  {
    match c
    case Text(s) =>
      SubstrPrefix(s, ZipMagic);
      SubstrPrefix(s, Bom);
      SubstrPrefix(s, XmlDecl);
      if Substr0(s, 4) == ZipMagic then Unzip(s)
      else if Substr0(s, 3) == Bom then
        assert s == s[..3] + s[3..];
        Reload(s[3..])
      else if Substr0(s, 5) == XmlDecl then ParseXml(s)
      else if |s| < UrlLimit then Fetch(s)
      else Reject(true)
    case DocumentNode => ReadDocument
    case OtherValue => Reject(false)
  }

  /** load: the viewer is reset first, whatever the content. */
  function Load(v: Osmd, c: Content): (r: (Osmd, LoadStep))
    ensures r.0 == Reset(v)
    ensures !IsReadyToRender(r.0) && !r.0.sheetLoaded && r.0.zoom == 1.0
    ensures r.0.clauses == v.clauses && r.0.drawer == v.drawer && r.0.page == v.page
    ensures r.1 == Dispatch(c)
  {
    (Reset(v), Dispatch(c))
  }

  /** A byte-order mark in front of anything is removed, exactly three units of it. */
  lemma BomIsStripped(s: JsString)
    ensures Dispatch(Text(Bom + s)) == Reload(s)
  {
    if |Bom + s| >= 4 {
      assert (Bom + s)[..4][0] == 0xF7EF;
    }
    assert !StartsWith(Bom + s, ZipMagic);
    assert (Bom + s)[..3] == Bom;
    assert (Bom + s)[3..] == s;
  }

  /** The browser limit on either side of a canvas. */
  const CanvasLimit: real := 32767.0

  datatype BackendType = Svg | Canvas

  /** The height a page asks for: from the page format's aspect ratio when one is set,
      otherwise from the laid-out page height. */
  function PageHeight(format: PageFormat, width: real, pageHeight: real, zoom: real): real {
    if format.Format? then width / AspectRatio(format) else (pageHeight + 15.0) * zoom * 10.0
  }

  function Min(a: real, b: real): real {
    if a < b then a else b
  }

  /** createOrRefreshRenderBackend: one backend per page, sized (width, height). On a canvas
      the width is cut to the limit (and stays cut for the later pages), then the height. */
  function BackendSizes(pages: seq<real>, width: real, bt: BackendType, format: PageFormat, zoom: real)
    : (r: seq<(real, real)>)
    ensures |r| == |pages|
    decreases |pages|
  {
    if pages == [] then []
    else
      var w := if bt == Canvas && width > CanvasLimit then CanvasLimit else width;
      var h := PageHeight(format, w, pages[0], zoom);
      var h' := if bt == Canvas && h > CanvasLimit then Min(h, CanvasLimit) else h;
      [(w, h')] + BackendSizes(pages[1..], w, bt, format, zoom)
  }

  /** Every page gets the same width; on a canvas each side is the requested size cut to the
      limit, on SVG nothing is cut. */
  lemma {:induction false} BackendSizesSpec(pages: seq<real>, width: real, bt: BackendType,
                                            format: PageFormat, zoom: real)
    ensures var r := BackendSizes(pages, width, bt, format, zoom);
      forall k :: 0 <= k < |pages| ==>
        && r[k].0 == (if bt == Canvas then Min(width, CanvasLimit) else width)
        && r[k].1 == (if bt == Canvas then Min(PageHeight(format, r[k].0, pages[k], zoom), CanvasLimit)
                      else PageHeight(format, width, pages[k], zoom))
    decreases |pages|
  {
    if pages != [] {
      var w := if bt == Canvas && width > CanvasLimit then CanvasLimit else width;
      BackendSizesSpec(pages[1..], w, bt, format, zoom);
      assert (if bt == Canvas then Min(w, CanvasLimit) else w) == (if bt == Canvas then Min(width, CanvasLimit) else width);
    }
  }

  /** A canvas backend never exceeds the limit on either side. */
  lemma CanvasWithinLimit(pages: seq<real>, width: real, format: PageFormat, zoom: real)
    ensures var r := BackendSizes(pages, width, Canvas, format, zoom);
      forall k :: 0 <= k < |r| ==> r[k].0 <= CanvasLimit && r[k].1 <= CanvasLimit
  {
    BackendSizesSpec(pages, width, Canvas, format, zoom);
  }
}
