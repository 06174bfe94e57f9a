/** The redaction logic of `src/lib/redact.ts`: the byte projection, the
    three sensitive-text patterns, the routing of a file to the PDF or the
    image path, the candidate boxes and their clamping, the bottom band of
    a PDF's first page, and the page list of the rewritten PDF. The canvas
    and the PDF under construction are objects updated in place; OCR, image
    decoding, canvas encoding, `atob` and pdf-lib are the functions of
    `Libs`. */
module Redact {
  import opened Base
  import opened Strings
  import Seqs
  import PdfCompress
  import Format

  // ---------------------------------------------------------------------
  // stringFromBytes and dataUrlToBytes

  /** `stringFromBytes(arr)`: one printable character per byte. */
  method StringFromBytes(arr: seq<byte>) returns (out: string)
    ensures out == PdfCompress.Printable(arr)
    ensures |out| == |arr| && forall i :: 0 <= i < |out| ==> PdfCompress.IsPrintable(out[i])
  {
    out := "";
    var i := 0;
    while i < |arr|
      invariant 0 <= i <= |arr|
      invariant out == PdfCompress.Printable(arr[..i])
    {
      var c := arr[i];
      out := out + [if c >= 32 && c <= 126 then c as char else ' '];
      i := i + 1;
    }
    assert arr[..i] == arr;
  }

  /** `dataUrl.split(',')[1]`; without a comma that is `undefined`, which
      `atob` reads as the text `undefined`. */
  function Base64Part(dataUrl: string): string
  {
    var parts := Split(dataUrl, ",");
    if |parts| >= 2 then parts[1] else "undefined"
  }

  /** The bytes of a binary string: each `charCodeAt`, stored into a
      `Uint8Array` modulo 256. */
  function LatinBytes(bin: string): (bytes: seq<byte>)
    ensures |bytes| == |bin|
  {
    seq(|bin|, i requires 0 <= i < |bin| => (bin[i] as int) % 256)
  }

  /** The binary string `atob` returns for some bytes: one character per byte. */
  function BinaryString(bytes: seq<byte>): string
  {
    seq(|bytes|, i requires 0 <= i < |bytes| => bytes[i] as char)
  }

  /** Reading a binary string back loses nothing. */
  lemma LatinRoundTrip(bytes: seq<byte>)
    ensures LatinBytes(BinaryString(bytes)) == bytes
  {
  }

  /** `dataUrlToBytes(dataUrl)`. */
  method DataUrlToBytes(dataUrl: string, atob: string -> string) returns (bytes: array<byte>)
    ensures fresh(bytes)
    ensures bytes[..] == LatinBytes(atob(Base64Part(dataUrl)))
  {
    var bin := atob(Base64Part(dataUrl));
    bytes := new byte[|bin|];
    for i := 0 to |bin|
      invariant bytes[..i] == LatinBytes(bin)[..i]
    {
      bytes[i] := (bin[i] as int) % 256;
    }
  }

  // ---------------------------------------------------------------------
  // The patterns

  /** `\d{n}` at `p`. */
  predicate DigitsAt(t: string, p: int, n: nat)
  {
    0 <= p && p + n <= |t| && forall i :: p <= i < p + n ==> IsDigit(t[i])
  }

  /** `SSN_RE`, `\b\d{3}-\d{2}-\d{4}\b`, matches at `p`. */
  predicate SsnAt(t: string, p: int)
  {
    0 <= p && p + 11 <= |t| && BoundaryAt(t, p) && DigitsAt(t, p, 3) && t[p + 3] == '-'
    && DigitsAt(t, p + 4, 2) && t[p + 6] == '-' && DigitsAt(t, p + 7, 4) && BoundaryAt(t, p + 11)
  }

  predicate HasSsn(t: string) { exists p | 0 <= p <= |t| - 11 :: SsnAt(t, p) }

  /** `ANUM_RE`, `\bA\d{8,9}\b` case-insensitively, matches at `p` with `n` digits. */
  predicate ANumberAt(t: string, p: int, n: nat)
  {
    0 <= p && p + 1 + n <= |t| && BoundaryAt(t, p) && (t[p] == 'A' || t[p] == 'a')
    && DigitsAt(t, p + 1, n) && BoundaryAt(t, p + 1 + n)
  }

  predicate HasANumber(t: string) { exists p | 0 <= p < |t| :: ANumberAt(t, p, 8) || ANumberAt(t, p, 9) }

  /** `MRZ_HINT_RE`, `<{3,}`: three `<` in a row. */
  predicate HasMrzHint(t: string) { Contains(t, "<<<") }

  /** A social security number on its own is recognised. */
  lemma SsnWord(t: string)
    requires |t| == 11 && t[3] == '-' && t[6] == '-'
    requires forall i :: 0 <= i < 11 && i != 3 && i != 6 ==> IsDigit(t[i])
    ensures HasSsn(t)
  {
    assert SsnAt(t, 0);
  }

  /** Digits running on past the last group spoil the match at that place. */
  lemma SsnNeedsBoundary(t: string, p: nat)
    requires p + 12 <= |t| && IsDigit(t[p + 11])
    ensures !SsnAt(t, p)
  {
  }

  /** An A-number is recognised in either case, with eight or nine digits. */
  lemma ANumberWord(t: string)
    requires |t| == 9 || |t| == 10
    requires t[0] == 'A' || t[0] == 'a'
    requires forall i :: 1 <= i < |t| ==> IsDigit(t[i])
    ensures HasANumber(t)
  {
    assert ANumberAt(t, 0, |t| - 1);
  }

  // ---------------------------------------------------------------------
  // Routing

  /** The test both `redactForPack` and `generateRedactedPreview` route on. */
  predicate GoesToPdfPath(file: File)
  {
    file.mime == PdfMime || EndsWith(ToLower(file.name), ".pdf")
  }

  /** Redaction treats a file as a PDF exactly when the batch's kind
      detection does. */
  lemma RoutingAgreesWithKind(file: File)
    ensures GoesToPdfPath(file) <==> Format.GuessKind(file) == Pdf
  {
  }

  // ---------------------------------------------------------------------
  // Canvases

  datatype Colour = White | Black

  /** One drawing operation: a filled rectangle, or the decoded source
      image drawn at the origin. */
  datatype Paint = Fill(colour: Colour, x: int, y: int, w: int, h: int) | DrawSource

  /** An HTML canvas: its size and the operations drawn on it, in order. */
  class Canvas {
    var width: nat
    var height: nat
    var paints: seq<Paint>

    constructor (w: nat, h: nat)
      ensures width == w && height == h && paints == []
    {
      width := w;
      height := h;
      paints := [];
    }

    /** `fillStyle = colour; fillRect(x, y, w, h)`. */
    method FillRect(colour: Colour, x: int, y: int, w: int, h: int)
      modifies this
      ensures width == old(width) && height == old(height)
      ensures paints == old(paints) + [Fill(colour, x, y, w, h)]
    {
      paints := paints + [Fill(colour, x, y, w, h)];
    }

    /** `drawImage(img, 0, 0)`. */
    method DrawImage()
      modifies this
      ensures width == old(width) && height == old(height)
      ensures paints == old(paints) + [DrawSource]
    {
      paints := paints + [DrawSource];
    }
  }

  // ---------------------------------------------------------------------
  // Boxes from recognised text

  datatype Box = Box(x0: real, y0: real, x1: real, y1: real)

  /** A recognised word: its text and its bounding box. */
  datatype Word = Word(text: string, bbox: Box)

  /** What OCR returns: the full text and the words. */
  datatype Recognition = Recognition(text: string, words: seq<Word>)

  /** A word that gets masked. */
  predicate Sensitive(w: Word)
  {
    w.text != [] && (HasSsn(w.text) || HasANumber(w.text) || HasMrzHint(w.text))
  }

  /** The fallback box over the bottom fifth of the canvas. */
  function MrzBox(width: nat, height: nat): Box
  {
    Box(0.0, 0.8 * height as real, width as real, height as real)
  }

  function BoxesOf(words: seq<Word>): (boxes: seq<Box>)
    ensures |boxes| == |words|
    ensures forall i :: 0 <= i < |words| ==> boxes[i] == words[i].bbox
  {
    seq(|words|, i requires 0 <= i < |words| => words[i].bbox)
  }

  /** The rectangles to mask: the MRZ box when the full text has `<<<`,
      then the box of every sensitive word, in order. */
  function CandidateBoxes(data: Recognition, width: nat, height: nat): seq<Box>
  {
    (if HasMrzHint(data.text) then [MrzBox(width, height)] else [])
    + BoxesOf(Seqs.Filter(data.words, Sensitive))
  }

  /** A word contributes a box exactly when it is sensitive; there is
      something to mask exactly when the text has `<<<` or a word is
      sensitive. */
  lemma CandidateBoxesSpec(data: Recognition, width: nat, height: nat)
    ensures forall w :: w in Seqs.Filter(data.words, Sensitive) <==> w in data.words && Sensitive(w)
    ensures var boxes := CandidateBoxes(data, width, height);
      |boxes| == (if HasMrzHint(data.text) then 1 else 0) + |Seqs.Filter(data.words, Sensitive)|
    ensures CandidateBoxes(data, width, height) != []
      <==> HasMrzHint(data.text) || exists w :: w in data.words && Sensitive(w)
  {
    Seqs.FilterSpec(data.words, Sensitive);
    var kept := Seqs.Filter(data.words, Sensitive);
    if kept != [] {
      assert kept[0] in kept;
    }
  }

  /** The rectangle painted for a box: the corner floored and kept on the
      canvas, the size floored and at least one pixel. */
  function Clamp(b: Box): (r: Paint)
    ensures r.Fill? && r.colour == Black
    ensures r.x >= 0 && r.y >= 0 && r.w >= 1 && r.h >= 1
    ensures b.x0 >= 0.0 ==> r.x as real <= b.x0 < r.x as real + 1.0
    ensures b.y0 >= 0.0 ==> r.y as real <= b.y0 < r.y as real + 1.0
  {
    Fill(Black, Max(0, b.x0.Floor), Max(0, b.y0.Floor), Max(1, (b.x1 - b.x0).Floor), Max(1, (b.y1 - b.y0).Floor))
  }

  function ClampAll(boxes: seq<Box>): (paints: seq<Paint>)
    ensures |paints| == |boxes|
    ensures forall i :: 0 <= i < |boxes| ==> paints[i] == Clamp(boxes[i])
  {
    seq(|boxes|, i requires 0 <= i < |boxes| => Clamp(boxes[i]))
  }

  /** The rectangles list of `drawRedactionsOnCanvas`: the MRZ box, then a
      box per sensitive word; words without text are skipped. */
  method CollectBoxes(data: Recognition, width: nat, height: nat) returns (rects: seq<Box>)
    ensures rects == CandidateBoxes(data, width, height)
  {
    rects := [];
    if HasMrzHint(data.text) {
      rects := rects + [MrzBox(width, height)];
    }
    ghost var head := rects;
    var i := 0;
    while i < |data.words|
      invariant 0 <= i <= |data.words|
      invariant rects == head + BoxesOf(Seqs.Filter(data.words[..i], Sensitive))
    {
      var w := data.words[i];
      Seqs.FilterSnoc(data.words, i, Sensitive);
      i := i + 1;
      if w.text == [] {
        continue;
      }
      if HasSsn(w.text) || HasANumber(w.text) || HasMrzHint(w.text) {
        rects := rects + [w.bbox];
      }
    }
    assert data.words[..i] == data.words;
  }

  /** `drawRedactionsOnCanvas(canvas)`: recognise the canvas (`None` when
      OCR throws), then paint every candidate box black. */
  method DrawRedactions(canvas: Canvas, recognize: (nat, nat, seq<Paint>) -> Option<Recognition>) returns (masked: bool)
    modifies canvas
    ensures canvas.width == old(canvas.width) && canvas.height == old(canvas.height)
    ensures canvas.paints == old(canvas.paints) + RedactionPaints(recognize(old(canvas.width), old(canvas.height), old(canvas.paints)), canvas.width, canvas.height)
    ensures masked <==> RedactionPaints(recognize(old(canvas.width), old(canvas.height), old(canvas.paints)), canvas.width, canvas.height) != []
  {
    masked := false;
    var ocr := recognize(canvas.width, canvas.height, canvas.paints);
    if ocr.None? {
      return;
    }
    var rects := CollectBoxes(ocr.value, canvas.width, canvas.height);
    if |rects| > 0 {
      masked := PaintBoxes(canvas, rects);
    }
  }

  /** The painting loop: each box clamped and filled black, in order. */
  method PaintBoxes(canvas: Canvas, rects: seq<Box>) returns (masked: bool)
    modifies canvas
    ensures canvas.width == old(canvas.width) && canvas.height == old(canvas.height)
    ensures canvas.paints == old(canvas.paints) + ClampAll(rects)
    ensures masked <==> rects != []
  {
    masked := false;
    var i := 0;
    while i < |rects|
      invariant 0 <= i <= |rects|
      invariant canvas.width == old(canvas.width) && canvas.height == old(canvas.height)
      invariant canvas.paints == old(canvas.paints) + ClampAll(rects[..i])
      invariant masked <==> i > 0
    {
      var r := rects[i];
      var x := Max(0, r.x0.Floor);
      var y := Max(0, r.y0.Floor);
      var w := Max(1, (r.x1 - r.x0).Floor);
      var h := Max(1, (r.y1 - r.y0).Floor);
      canvas.FillRect(Black, x, y, w, h);
      masked := true;
      assert ClampAll(rects[..i + 1]) == ClampAll(rects[..i]) + [Clamp(rects[i])];
      i := i + 1;
    }
    assert rects[..i] == rects;
  }

  /** What `drawRedactionsOnCanvas` paints for a recognition outcome. */
  function RedactionPaints(ocr: Option<Recognition>, width: nat, height: nat): (paints: seq<Paint>)
    ensures forall i :: 0 <= i < |paints| ==>
      paints[i].Fill? && paints[i].colour == Black && paints[i].x >= 0 && paints[i].y >= 0 && paints[i].w >= 1 && paints[i].h >= 1
  {
    if ocr.None? then [] else ClampAll(CandidateBoxes(ocr.value, width, height))
  }

  /** The image is masked exactly when recognition succeeded and found the
      `<<<` hint or a sensitive word; a failed recognition masks nothing. */
  lemma ImageMaskedSpec(ocr: Option<Recognition>, width: nat, height: nat)
    ensures RedactionPaints(ocr, width, height) != []
      <==> ocr.Some? && (HasMrzHint(ocr.value.text) || exists w :: w in ocr.value.words && Sensitive(w))
  {
    if ocr.Some? {
      CandidateBoxesSpec(ocr.value, width, height);
    }
  }

  // ---------------------------------------------------------------------
  // The first page of a PDF

  /** Height of the black band: `floor(height * 0.18)`. */
  function BandHeight(h: nat): (b: nat)
    ensures 100 * b <= 18 * h < 100 * b + 100
    ensures b <= h
  {
    (18 * h) / 100
  }

  /** The canvas of a PDF's first page: white, and when masked a black
      band of full width at the bottom. */
  function PdfCanvasPaints(w: nat, h: nat, mask: bool): seq<Paint>
  {
    [Fill(White, 0, 0, w, h)] + (if mask then [Fill(Black, 0, h - BandHeight(h), w, BandHeight(h))] else [])
  }

  /** The band lies on the canvas, spans its width and ends at its bottom
      edge. */
  lemma BandGeometry(w: nat, h: nat)
    ensures var p := PdfCanvasPaints(w, h, true);
      |p| == 2 && p[1].colour == Black && p[1].x == 0 && p[1].w == w
      && 0 <= p[1].y && p[1].y + p[1].h == h
  {
  }

  /** Canvas side for a page side: `max(1, floor(side))`. */
  function CanvasSide(side: real): (n: nat)
    ensures n >= 1
    ensures side >= 1.0 ==> n as real <= side < n as real + 1.0
  {
    Max(1, side.Floor)
  }

  /** The PDF preview's `makeCanvas(applyMask)`. */
  method MakeCanvas(w: real, h: real, applyMask: bool, textSlice: string) returns (c: Canvas, masked: bool)
    ensures fresh(c)
    ensures c.width == CanvasSide(w) && c.height == CanvasSide(h)
    ensures masked <==> applyMask && HasMrzHint(textSlice)
    ensures c.paints == PdfCanvasPaints(c.width, c.height, masked)
  {
    c := new Canvas(Max(1, w.Floor), Max(1, h.Floor));
    c.FillRect(White, 0, 0, c.width, c.height);
    if applyMask && HasMrzHint(textSlice) {
      var rectH := (c.height * 18) / 100;
      c.FillRect(Black, 0, c.height - rectH, c.width, rectH);
      return c, true;
    }
    return c, false;
  }

  /** What pdf-lib reports of a loaded document. */
  datatype PdfSource = PdfSource(width: real, height: real, pageCount: nat)

  /** A page of the document under construction. */
  datatype Page = Drawn(width: nat, height: nat, png: seq<byte>) | Copied(index: nat)

  /** A document being built by pdf-lib: its pages, in order. */
  class PdfWriter {
    var pages: seq<Page>

    constructor ()
      ensures pages == []
    {
      pages := [];
    }

    method AddPage(p: Page)
      modifies this
      ensures pages == old(pages) + [p]
    {
      pages := pages + [p];
    }
  }

  /** The library calls redaction relies on. */
  datatype Libs = Libs(
    decodeImage: File -> Option<(nat, nat)>,
    recognize: (nat, nat, seq<Paint>) -> Option<Recognition>,
    encode: (nat, nat, seq<Paint>, string) -> Blob,
    toDataUrl: (nat, nat, seq<Paint>) -> string,
    atob: string -> string,
    loadPdf: seq<byte> -> Option<PdfSource>,
    savePdf: seq<Page> -> seq<byte>)

  /** The new first page followed by copies of pages `2..n` in order. */
  function RedactedPages(w: nat, h: nat, png: seq<byte>, n: nat): (pages: seq<Page>)
    requires n >= 1
    ensures |pages| == n && pages[0] == Drawn(w, h, png)
    ensures forall i :: 1 <= i < n ==> pages[i] == Copied(i)
  {
    [Drawn(w, h, png)] + seq(n - 1, i requires 0 <= i < n - 1 => Copied(i + 1))
  }

  /** The PNG bytes of a canvas, through its data URL. */
  function CanvasPng(libs: Libs, w: nat, h: nat, paints: seq<Paint>): seq<byte>
  {
    LatinBytes(libs.atob(Base64Part(libs.toDataUrl(w, h, paints))))
  }

  /** Whether the scanned prefix of a PDF holds the `<<<` hint. */
  predicate PdfHasMrzHint(bytes: seq<byte>) { HasMrzHint(PdfCompress.ScanText(bytes)) }

  datatype RedactionResult = RedactionResult(blob: Blob, masked: bool)

  /** What `page1.getSize ? page1.getSize() : [page1.getWidth(), page1.getHeight()]`
      yields: pdf-lib's `PDFPage.getSize()` exists and returns the object
      `{ width, height }`; the array form is the unused fallback. */
  datatype SizeValue = SizeObject(width: real, height: real) | SizePair(w: real, h: real)

  /** The size value of the first page, as the code as written obtains it. */
  function PageSizeValue(src: PdfSource): (v: SizeValue)
    ensures v.SizeObject? && v.width == src.width && v.height == src.height
  {
    SizeObject(src.width, src.height)
  }

  /** `const [w, h] = v`: array destructuring. A plain object has no
      `Symbol.iterator`, so destructuring it throws a TypeError (`None`). */
  function DestructurePair(v: SizeValue): (r: Option<(real, real)>)
    ensures r.Some? <==> v.SizePair?
    ensures v.SizePair? ==> r.value == (v.w, v.h)
  {
    match v
    case SizeObject(_, _) => None
    case SizePair(w, h) => Some((w, h))
  }

  /** The redacted PDF of a source page of size `width` x `height` with
      `pageCount` pages; `None` when there is no first page. */
  function PdfRedactionOf(file: File, libs: Libs, width: real, height: real, pageCount: nat): (r: Option<RedactionResult>)
    ensures r.Some? <==> pageCount >= 1
    ensures r.Some? ==> (r.value.masked <==> PdfHasMrzHint(file.content))
  {
    if pageCount == 0 then None
    else
      var w := CanvasSide(width);
      var h := CanvasSide(height);
      var mask := PdfHasMrzHint(file.content);
      var png := CanvasPng(libs, w, h, PdfCanvasPaints(w, h, mask));
      Some(RedactionResult(Blob(libs.savePdf(RedactedPages(w, h, png, pageCount)), PdfMime), mask))
  }

  /** The outcome of `redactPdfFirstPage` as evidently intended, reading the
      page size from the fields of `getSize()`; `None` when pdf-lib rejects
      the file or it has no first page. */
  function PdfRedaction(file: File, libs: Libs): (r: Option<RedactionResult>)
    ensures r.Some? <==> libs.loadPdf(file.content).Some? && libs.loadPdf(file.content).value.pageCount >= 1
    ensures r.Some? ==> (r.value.masked <==> PdfHasMrzHint(file.content))
  {
    match libs.loadPdf(file.content)
    case None => None
    case Some(src) => PdfRedactionOf(file, libs, src.width, src.height, src.pageCount)
  }

  /** The outcome of `redactPdfFirstPage` as written: the size object is
      destructured as an array, which rejects wherever a first page exists. */
  function PdfRedactionAsWritten(file: File, libs: Libs): (r: Option<RedactionResult>)
    ensures r.Some? ==> r == PdfRedaction(file, libs)
  {
    match libs.loadPdf(file.content)
    case None => None
    case Some(src) =>
      if src.pageCount == 0 then None
      else
        match DestructurePair(PageSizeValue(src))
        case None => None
        case Some(size) => PdfRedactionOf(file, libs, size.0, size.1, src.pageCount)
  }

  /** As written, no PDF is ever redacted, while the intended code redacts
      every loadable PDF that has a page. */
  lemma PdfSizeNotIterable(file: File, libs: Libs)
    ensures PdfRedactionAsWritten(file, libs).None?
    ensures libs.loadPdf(file.content).Some? && libs.loadPdf(file.content).value.pageCount >= 1
      ==> PdfRedaction(file, libs).Some?
  {
    match libs.loadPdf(file.content)
    case None =>
    case Some(src) =>
      if src.pageCount > 0 {
        assert DestructurePair(PageSizeValue(src)).None?;
      }
  }

  /** `redactPdfFirstPage(file)`. */
  method RedactPdfFirstPage(file: File, libs: Libs) returns (r: Option<RedactionResult>)
    ensures r == PdfRedaction(file, libs)
  {
    var bytes := file.content;
    var loaded := libs.loadPdf(bytes);
    if loaded.None? || loaded.value.pageCount == 0 {
      return None;
    }
    var src := loaded.value;
    // The page size is read from the fields of `getSize()` (see PdfRedactionAsWritten).
    var textSlice := StringFromBytes(bytes[..Min(|bytes|, PdfCompress.ScanLimit)]);
    var canvas, masked := MakeCanvas(src.width, src.height, true, textSlice);
    var pngData := libs.toDataUrl(canvas.width, canvas.height, canvas.paints);
    var pngBytes := DataUrlToBytes(pngData, libs.atob);
    var png, width, height := pngBytes[..], canvas.width, canvas.height;
    var dst := new PdfWriter();
    dst.AddPage(Drawn(width, height, png));
    var j := 1;
    while j < src.pageCount
      invariant 1 <= j <= src.pageCount
      invariant dst.pages == RedactedPages(width, height, png, j)
    {
      dst.AddPage(Copied(j));
      j := j + 1;
    }
    r := Some(RedactionResult(Blob(libs.savePdf(dst.pages), PdfMime), masked));
  }

  /** The outcome of `redactImage`; `None` when the image does not decode. */
  function ImageRedaction(file: File, libs: Libs): Option<RedactionResult>
  {
    match libs.decodeImage(file)
    case None => None
    case Some(size) =>
      var extra := RedactionPaints(libs.recognize(size.0, size.1, [DrawSource]), size.0, size.1);
      Some(RedactionResult(libs.encode(size.0, size.1, [DrawSource] + extra, "image/jpeg"), extra != []))
  }

  /** `redactImage(file)`. */
  method RedactImage(file: File, libs: Libs) returns (r: Option<RedactionResult>)
    ensures r == ImageRedaction(file, libs)
  {
    var img := libs.decodeImage(file);
    if img.None? {
      return None;
    }
    var canvas := new Canvas(img.value.0, img.value.1);
    canvas.DrawImage();
    assert canvas.paints == [DrawSource];
    var masked := DrawRedactions(canvas, libs.recognize);
    var blob := libs.encode(canvas.width, canvas.height, canvas.paints, "image/jpeg");
    r := Some(RedactionResult(blob, masked));
    assert canvas.width == img.value.0 && canvas.height == img.value.1;
    assert r.value.masked == ImageRedaction(file, libs).value.masked;
    assert r.value.blob == ImageRedaction(file, libs).value.blob;
  }

  /** The outcome of `redactForPack`. */
  function Redaction(file: File, libs: Libs): Option<RedactionResult>
  {
    if GoesToPdfPath(file) then PdfRedaction(file, libs) else ImageRedaction(file, libs)
  }

  /** `redactForPack(file)`. */
  method RedactForPack(file: File, libs: Libs) returns (r: Option<RedactionResult>)
    ensures r == Redaction(file, libs)
  {
    if file.mime == PdfMime || EndsWith(ToLower(file.name), ".pdf") {
      r := RedactPdfFirstPage(file, libs);
    } else {
      r := RedactImage(file, libs);
    }
  }

  /** A redacted image is masked exactly when something was painted over it. */
  lemma ImageRedactionMasked(file: File, libs: Libs)
    requires libs.decodeImage(file).Some?
    ensures var size := libs.decodeImage(file).value;
      ImageRedaction(file, libs).value.masked
      <==> RedactionPaints(libs.recognize(size.0, size.1, [DrawSource]), size.0, size.1) != []
  {
  }

  // ---------------------------------------------------------------------
  // Previews

  datatype Preview = Preview(original: Blob, redacted: Blob, masked: bool)

  /** The preview of a source page of size `width` x `height`: both
      canvases blank, only the redacted one banded, and `masked` from the
      redacted one; `None` when there is no first page. */
  function PdfPreviewOf(file: File, libs: Libs, width: real, height: real, pageCount: nat): (r: Option<Preview>)
    ensures r.Some? <==> pageCount >= 1
    ensures r.Some? ==> (r.value.masked <==> PdfHasMrzHint(file.content))
  {
    if pageCount == 0 then None
    else
      var w := CanvasSide(width);
      var h := CanvasSide(height);
      var mask := PdfHasMrzHint(file.content);
      Some(Preview(libs.encode(w, h, PdfCanvasPaints(w, h, false), "image/png"),
                   libs.encode(w, h, PdfCanvasPaints(w, h, mask), "image/png"), mask))
  }

  /** The outcome of the PDF preview as evidently intended, reading the page
      size from the fields of `getSize()`. */
  function PdfPreview(file: File, libs: Libs): (r: Option<Preview>)
    ensures r.Some? <==> libs.loadPdf(file.content).Some? && libs.loadPdf(file.content).value.pageCount >= 1
    ensures r.Some? ==> (r.value.masked <==> PdfHasMrzHint(file.content))
  {
    match libs.loadPdf(file.content)
    case None => None
    case Some(src) => PdfPreviewOf(file, libs, src.width, src.height, src.pageCount)
  }

  /** The outcome of `rasterizeAndRedactPdfPreview` as written: the same
      array destructuring of the size object rejects. */
  function PdfPreviewAsWritten(file: File, libs: Libs): (r: Option<Preview>)
    ensures r.Some? ==> r == PdfPreview(file, libs)
  {
    match libs.loadPdf(file.content)
    case None => None
    case Some(src) =>
      if src.pageCount == 0 then None
      else
        match DestructurePair(PageSizeValue(src))
        case None => None
        case Some(size) => PdfPreviewOf(file, libs, size.0, size.1, src.pageCount)
  }

  /** As written, no PDF preview is ever produced, while the intended code
      previews every loadable PDF that has a page. */
  lemma PdfPreviewSizeNotIterable(file: File, libs: Libs)
    ensures PdfPreviewAsWritten(file, libs).None?
    ensures libs.loadPdf(file.content).Some? && libs.loadPdf(file.content).value.pageCount >= 1
      ==> PdfPreview(file, libs).Some?
  {
    match libs.loadPdf(file.content)
    case None =>
    case Some(src) =>
      if src.pageCount > 0 {
        assert DestructurePair(PageSizeValue(src)).None?;
      }
  }

  /** `rasterizeAndRedactPdfPreview(file)`. */
  method RasterizePdfPreview(file: File, libs: Libs) returns (r: Option<Preview>)
    ensures r == PdfPreview(file, libs)
  {
    var bytes := file.content;
    var loaded := libs.loadPdf(bytes);
    if loaded.None? || loaded.value.pageCount == 0 {
      return None;
    }
    var src := loaded.value;
    // The page size is read from the fields of `getSize()` (see PdfRedactionAsWritten).
    var textSlice := StringFromBytes(bytes[..Min(|bytes|, PdfCompress.ScanLimit)]);
    var origCanvas, _ := MakeCanvas(src.width, src.height, false, textSlice);
    var redCanvas, masked := MakeCanvas(src.width, src.height, true, textSlice);
    var originalPng := libs.encode(origCanvas.width, origCanvas.height, origCanvas.paints, "image/png");
    var redactedPng := libs.encode(redCanvas.width, redCanvas.height, redCanvas.paints, "image/png");
    r := Some(Preview(originalPng, redactedPng, masked));
  }

  /** The original preview of a PDF never carries a black rectangle. */
  lemma PdfPreviewOriginalUnmasked(w: nat, h: nat)
    ensures forall i :: 0 <= i < |PdfCanvasPaints(w, h, false)| ==> PdfCanvasPaints(w, h, false)[i].colour == White
  {
  }

  /** The outcome of the image preview: the original encoded before any
      mask is painted, the redacted one after. */
  function ImagePreview(file: File, libs: Libs): Option<Preview>
  {
    match libs.decodeImage(file)
    case None => None
    case Some(size) =>
      var extra := RedactionPaints(libs.recognize(size.0, size.1, [DrawSource]), size.0, size.1);
      Some(Preview(libs.encode(size.0, size.1, [DrawSource], "image/png"),
                   libs.encode(size.0, size.1, [DrawSource] + extra, "image/png"), extra != []))
  }

  /** `rasterizeAndRedactImagePreview(file)`. */
  method RasterizeImagePreview(file: File, libs: Libs) returns (r: Option<Preview>)
    ensures r == ImagePreview(file, libs)
  {
    var img := libs.decodeImage(file);
    if img.None? {
      return None;
    }
    var canvas := new Canvas(img.value.0, img.value.1);
    canvas.DrawImage();
    assert canvas.paints == [DrawSource];
    var orig := libs.encode(canvas.width, canvas.height, canvas.paints, "image/png");
    var masked := DrawRedactions(canvas, libs.recognize);
    var red := libs.encode(canvas.width, canvas.height, canvas.paints, "image/png");
    r := Some(Preview(orig, red, masked));
    assert canvas.width == img.value.0 && canvas.height == img.value.1;
    assert r.value.masked == ImagePreview(file, libs).value.masked;
    assert r.value.redacted == ImagePreview(file, libs).value.redacted;
  }

  /** `generateRedactedPreview(file)`. */
  method GenerateRedactedPreview(file: File, libs: Libs) returns (r: Option<Preview>)
    ensures r == if GoesToPdfPath(file) then PdfPreview(file, libs) else ImagePreview(file, libs)
  {
    if file.mime == PdfMime || EndsWith(ToLower(file.name), ".pdf") {
      r := RasterizePdfPreview(file, libs);
    } else {
      r := RasterizeImagePreview(file, libs);
    }
  }
}
