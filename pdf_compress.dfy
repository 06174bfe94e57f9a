/** The PDF content classifier of `src/lib/compress/pdf.ts`: the printable
    projection of the scanned prefix, the marker tests, the four-way
    classification, and the note the light optimisation attaches. */
module PdfCompress {
  import opened Base
  import opened Strings

  /** Only this many leading bytes are scanned. */
  const ScanLimit: nat := 1500000

  /** Printable ASCII, `' '` to `'~'`. */
  predicate IsPrintable(c: char) { ' ' <= c <= '~' }

  /** One byte of the projection: itself when printable, else a space. */
  function PrintableChar(b: byte): (c: char)
    ensures IsPrintable(c)
    ensures 32 <= b <= 126 ==> c as int == b
    ensures !(32 <= b <= 126) ==> c == ' '
  {
    if 32 <= b <= 126 then b as char else ' '
  }

  /** `Array.from(bytes).map(...).join('')`: one character per byte. */
  function Printable(bytes: seq<byte>): (txt: string)
    ensures |txt| == |bytes|
    ensures forall i :: 0 <= i < |bytes| ==> txt[i] == PrintableChar(bytes[i])
  {
    seq(|bytes|, i requires 0 <= i < |bytes| => PrintableChar(bytes[i]))
  }

  /** The projection of the first `min(length, 1,500,000)` bytes. */
  function ScanText(bytes: seq<byte>): (txt: string)
    ensures |txt| == Min(|bytes|, ScanLimit)
  {
    Printable(bytes[..Min(|bytes|, ScanLimit)])
  }

  // ---------------------------------------------------------------------
  // Classification

  datatype Mode = ImageOnly | Text | Mixed | Unknown

  /** `/\/Image/.test(txt)`. */
  predicate HasImage(txt: string) { Contains(txt, "/Image") }

  /** `/(\bTj\b|\bTJ\b|\/Font)/.test(txt)`. */
  predicate HasTextOps(txt: string)
  {
    ContainsWord(txt, "Tj") || ContainsWord(txt, "TJ") || Contains(txt, "/Font")
  }

  /** The four-way decision on the two marker tests. */
  function Classify(hasImage: bool, hasTextOps: bool): (m: Mode)
    ensures m == ImageOnly <==> hasImage && !hasTextOps
    ensures m == Text <==> !hasImage && hasTextOps
    ensures m == Mixed <==> hasImage && hasTextOps
    ensures m == Unknown <==> !hasImage && !hasTextOps
  {
    if hasImage && !hasTextOps then ImageOnly
    else if !hasImage && hasTextOps then Text
    else if hasImage && hasTextOps then Mixed
    else Unknown
  }

  /** `analyzePdfBytes(bytes)`. */
  function AnalyzePdfBytes(bytes: seq<byte>): Mode
  {
    var txt := ScanText(bytes);
    Classify(HasImage(txt), HasTextOps(txt))
  }

  /** Bytes past the scan limit never change the classification. */
  lemma AnalyzeIgnoresTail(bytes: seq<byte>, extra: seq<byte>)
    requires |bytes| >= ScanLimit
    ensures AnalyzePdfBytes(bytes + extra) == AnalyzePdfBytes(bytes)
  {
    assert (bytes + extra)[..ScanLimit] == bytes[..ScanLimit];
  }

  /** The bytes of `/Image` start at offset `p` of the scanned prefix. */
  predicate ImageMarkerAt(bytes: seq<byte>, p: int)
  {
    0 <= p && p + 6 <= Min(|bytes|, ScanLimit) && bytes[p..p + 6] == [47, 73, 109, 97, 103, 101]
  }

  lemma MarkerProjects(bytes: seq<byte>, p: nat)
    requires p + 6 <= Min(|bytes|, ScanLimit)
    ensures ImageMarkerAt(bytes, p) <==> OccursAt(ScanText(bytes), p, "/Image")
  {
    var txt := ScanText(bytes);
    if ImageMarkerAt(bytes, p) {
      forall i | 0 <= i < 6 ensures txt[p + i] == "/Image"[i] {
        assert bytes[p + i] == bytes[p..p + 6][i];
      }
      assert txt[p..p + 6] == "/Image";
    }
    if OccursAt(txt, p, "/Image") {
      forall i | 0 <= i < 6 ensures bytes[p..p + 6][i] == [47, 73, 109, 97, 103, 101][i] {
        assert txt[p + i] == "/Image"[i];
      }
    }
  }

  /** A document is image-only or mixed exactly when the bytes of `/Image`
      occur within the scanned prefix. */
  lemma ImageMarkerDecides(bytes: seq<byte>)
    ensures (AnalyzePdfBytes(bytes) == ImageOnly || AnalyzePdfBytes(bytes) == Mixed)
        <==> exists p :: ImageMarkerAt(bytes, p)
  {
    var txt := ScanText(bytes);
    if HasImage(txt) {
      var p :| 0 <= p <= |txt| - 6 && OccursAt(txt, p, "/Image");
      MarkerProjects(bytes, p);
    }
    if exists p :: ImageMarkerAt(bytes, p) {
      var p :| ImageMarkerAt(bytes, p);
      MarkerProjects(bytes, p);
      ContainsAt(txt, p, "/Image");
    }
  }

  // ---------------------------------------------------------------------
  // compressPdfArrayBuffer

  const LightNote: string := "lightly optimized"
  const ServerNote: string := "lightly optimized / server recommended"

  datatype PdfCompressResult = PdfCompressResult(
    blob: Blob, originalBytes: nat, finalBytes: nat, mode: Mode, serverRecommended: bool, note: string)

  /** `compressPdfArrayBuffer(input)`. `resave` is pdf-lib's load and save
      with object streams; `None` when it rejects, and so does the call. */
  function CompressPdf(input: seq<byte>, resave: seq<byte> -> Option<seq<byte>>): (r: Option<PdfCompressResult>)
    ensures r.Some? <==> resave(input).Some?
    ensures r.Some? ==> r.value.mode == AnalyzePdfBytes(input) && r.value.originalBytes == |input|
    ensures r.Some? ==> r.value.blob == Blob(resave(input).value, PdfMime) && r.value.finalBytes == |r.value.blob.bytes|
    ensures r.Some? ==> (r.value.serverRecommended <==> r.value.mode == Text)
    ensures r.Some? ==> r.value.note == if r.value.serverRecommended then ServerNote else LightNote
  {
    var mode := AnalyzePdfBytes(input);
    match resave(input)
    case None => None
    case Some(saved) =>
      var recommended := mode == Text;
      Some(PdfCompressResult(Blob(saved, PdfMime), |input|, |saved|, mode, recommended,
                             if recommended then ServerNote else LightNote))
  }
}
