/** The packing loop of `src/lib/pack.ts`: every item is optionally
    redacted, compressed to a PDF, named from the template, hashed and put
    into the archive, with one manifest line, one update record and one
    progress report per item, in input order, and the manifest last. The
    archive under construction is an object whose insertions are logged;
    image compression, pdf-lib, SHA-256 and the final DEFLATE step are the
    functions of `Engines`. */
module Pack {
  import opened Base
  import opened Strings
  import opened Types
  import Format
  import Template
  import PdfCompress
  import Redact

  // ---------------------------------------------------------------------
  // The archive

  datatype ZipData = BlobData(blob: Blob) | TextData(text: string)

  datatype Entry = Entry(name: string, data: ZipData)

  /** A JSZip object: the insertions made into it, in order. */
  class Archive {
    var entries: seq<Entry>

    constructor ()
      ensures entries == []
    {
      entries := [];
    }

    /** `zip.file(name, data)`. */
    method Add(name: string, data: ZipData)
      modifies this
      ensures entries == old(entries) + [Entry(name, data)]
    {
      entries := entries + [Entry(name, data)];
    }
  }

  const ManifestName: string := "manifest.txt"

  // ---------------------------------------------------------------------
  // One item

  /** The library calls packing relies on. `compressImage` is the image
      compressor; `imageToPdf(bytes, isPng)` embeds an image on a page of its
      own size and saves; `resave` is pdf-lib's load-and-save; `None` is a
      rejection. */
  datatype Engines = Engines(
    redact: Redact.Libs,
    compressImage: Blob -> Option<Blob>,
    imageToPdf: (seq<byte>, bool) -> Option<seq<byte>>,
    resave: seq<byte> -> Option<seq<byte>>,
    sha256: seq<byte> -> string,
    generate: seq<Entry> -> Blob)

  /** The run's fixed inputs: the template, the engines, the redaction
      switch, today's date, the timestamp of the manifest and NFKD. */
  datatype Run = Run(template: string, eng: Engines, redact: bool, today: string, nowISO: string, nfkd: string -> string)

  /** The fields `renderTemplate` receives for item `i`: the item's naming
      fields, `Index1 = i + 1`, and its date or else today's. */
  function NameContext(meta: FileMeta, i: nat, today: string): (ctx: map<string, string>)
    ensures "Index1" in ctx && ctx["Index1"] == NatToString(i + 1)
    ensures "DateISO" in ctx && ctx["DateISO"] == (if meta.dateISO != "" then meta.dateISO else today)
    ensures "Side" in ctx && ctx["Side"] == meta.side
    ensures ctx.Keys == {"First", "Last", "DocType", "Side", "DateISO", "Index1"}
    ensures ctx["First"] == meta.first && ctx["Last"] == meta.last && ctx["DocType"] == meta.docType
  {
    map["First" := meta.first, "Last" := meta.last, "DocType" := meta.docType, "Side" := meta.side,
        "DateISO" := if meta.dateISO != "" then meta.dateISO else today, "Index1" := NatToString(i + 1)]
  }

  /** The blob an item is packed from: the redacted one only when
      redaction is switched on and masked something. */
  function PackSource(it: FileItem, run: Run): (src: Option<Blob>)
    ensures !run.redact ==> src == Some(Blob(it.file.content, it.file.mime))
    ensures run.redact ==> (src.None? <==> Redact.Redaction(it.file, run.eng.redact).None?)
    ensures run.redact && src.Some? && !Redact.Redaction(it.file, run.eng.redact).value.masked
      ==> src == Some(Blob(it.file.content, it.file.mime))
    ensures run.redact && src.Some? && Redact.Redaction(it.file, run.eng.redact).value.masked
      ==> src.value.bytes == Redact.Redaction(it.file, run.eng.redact).value.blob.bytes
  {
    var original := Blob(it.file.content, it.file.mime);
    if !run.redact then Some(original)
    else
      match Redact.Redaction(it.file, run.eng.redact)
      case None => None
      case Some(red) =>
        if !red.masked then Some(original)
        else if it.kind == Image then Some(red.blob)
        else Some(Blob(red.blob.bytes, PdfMime))
  }

  /** What packing records of an item. */
  datatype Record = Record(newName: string, blob: Blob, finalBytes: nat, serverRecommended: bool, note: Option<string>, sha: string)

  /** The compressed PDF of an item, before naming. */
  datatype Packed = Packed(blob: Blob, finalBytes: nat, serverRecommended: bool, note: Option<string>)

  /** An image is compressed and wrapped into a one-page PDF; a PDF goes
      through the light optimisation. */
  function PackBody(it: FileItem, src: Blob, run: Run): (p: Option<Packed>)
    ensures p.Some? ==> p.value.blob.mime == PdfMime && p.value.finalBytes == |p.value.blob.bytes|
    ensures p.Some? && it.kind == Image ==> !p.value.serverRecommended && p.value.note.None?
    ensures it.kind == Image && run.eng.compressImage(src).None? ==> p.None?
    ensures it.kind == Pdf ==> (p.Some? <==> PdfCompress.CompressPdf(src.bytes, run.eng.resave).Some?)
    ensures p.Some? && it.kind == Pdf ==>
      PdfCompress.CompressPdf(src.bytes, run.eng.resave).Some? &&
      var res := PdfCompress.CompressPdf(src.bytes, run.eng.resave).value;
      p.value.serverRecommended == res.serverRecommended && p.value.note == Some(res.note)
      && p.value.finalBytes == res.finalBytes
  {
    if it.kind == Image then
      match run.eng.compressImage(src)
      case None => None
      case Some(compressed) =>
        var outMime := ToLower(if compressed.mime != "" then compressed.mime else it.file.mime);
        match run.eng.imageToPdf(compressed.bytes, Contains(outMime, "png"))
        case None => None
        case Some(pdf) => Some(Packed(Blob(pdf, PdfMime), |pdf|, false, None))
    else
      match PdfCompress.CompressPdf(src.bytes, run.eng.resave)
      case None => None
      case Some(res) => Some(Packed(res.blob, res.finalBytes, res.serverRecommended, Some(res.note)))
  }

  /** Item `i` packed, named and hashed; `roll` is its random draw. */
  function PackItem(it: FileItem, i: nat, roll: nat, run: Run): Option<Record>
    requires roll < 9000
  {
    match PackSource(it, run)
    case None => None
    case Some(src) =>
      match PackBody(it, src, run)
      case None => None
      case Some(p) =>
        var name := Template.RenderTemplate(run.template, NameContext(it.meta, i, run.today), run.today, roll, run.nfkd);
        Some(Record(name, p.blob, p.finalBytes, p.serverRecommended, p.note, run.eng.sha256(p.blob.bytes)))
  }

  predicate ValidRolls(rolls: seq<nat>) { forall i :: 0 <= i < |rolls| ==> rolls[i] < 9000 }

  /** Every item's outcome, in order. */
  function Outcomes(items: seq<FileItem>, rolls: seq<nat>, run: Run): (os: seq<Option<Record>>)
    requires |rolls| == |items| && ValidRolls(rolls)
    ensures |os| == |items|
    ensures forall j :: 0 <= j < |items| ==> os[j] == PackItem(items[j], j, rolls[j], run)
  {
    seq(|items|, j requires 0 <= j < |items| => PackItem(items[j], j, rolls[j], run))
  }

  /** The records of a run of outcomes, or `None` as soon as one fails. */
  function Collect(outs: seq<Option<Record>>): (r: Option<seq<Record>>)
    ensures r.Some? <==> forall j :: 0 <= j < |outs| ==> outs[j].Some?
    ensures r.Some? ==> |r.value| == |outs| && forall j :: 0 <= j < |outs| ==> r.value[j] == outs[j].value
  {
    if |outs| == 0 then Some([])
    else
      var prev := Collect(outs[..|outs| - 1]);
      if prev.None? || outs[|outs| - 1].None? then None
      else Some(prev.value + [outs[|outs| - 1].value])
  }

  /** The records of the whole run. */
  function Records(items: seq<FileItem>, rolls: seq<nat>, run: Run): Option<seq<Record>>
    requires |rolls| == |items| && ValidRolls(rolls)
  {
    Collect(Outcomes(items, rolls, run))
  }

  // ---------------------------------------------------------------------
  // What the loop accumulates

  datatype Update = Update(id: string, newName: string, finalBytes: nat, serverRecommended: bool, note: Option<string>)

  function UpdateOf(it: FileItem, rec: Record): Update
  {
    Update(it.id, rec.newName, rec.finalBytes, rec.serverRecommended, rec.note)
  }

  /** A manifest line: the old name, the new name, both sizes, the hash
      and the run's timestamp, joined with ` | `. */
  function LineOf(it: FileItem, rec: Record, nowISO: string): string
  {
    Join([it.name, rec.newName, IntToString(it.originalBytes), NatToString(rec.finalBytes), rec.sha, nowISO], " | ")
  }

  function Updates(items: seq<FileItem>, recs: seq<Record>): (us: seq<Update>)
    requires |recs| <= |items|
    ensures |us| == |recs|
    ensures forall j :: 0 <= j < |recs| ==> us[j] == UpdateOf(items[j], recs[j])
  {
    seq(|recs|, j requires 0 <= j < |recs| => UpdateOf(items[j], recs[j]))
  }

  function Lines(items: seq<FileItem>, recs: seq<Record>, nowISO: string): (ls: seq<string>)
    requires |recs| <= |items|
    ensures |ls| == |recs|
    ensures forall j :: 0 <= j < |recs| ==> ls[j] == LineOf(items[j], recs[j], nowISO)
  {
    seq(|recs|, j requires 0 <= j < |recs| => LineOf(items[j], recs[j], nowISO))
  }

  function Entries(recs: seq<Record>): (es: seq<Entry>)
    ensures |es| == |recs|
    ensures forall j :: 0 <= j < |recs| ==> es[j] == Entry(recs[j].newName, BlobData(recs[j].blob))
  {
    seq(|recs|, j requires 0 <= j < |recs| => Entry(recs[j].newName, BlobData(recs[j].blob)))
  }

  /** `Math.round((i + 1) / n * 100)`. */
  function Progress(i: nat, n: nat): int
    requires i < n
  {
    Format.RoundHalfUp((i + 1) as real / n as real * 100.0)
  }

  function ProgressValues(k: nat, n: nat): (ps: seq<int>)
    requires k <= n
    ensures |ps| == k
    ensures forall j :: 0 <= j < k ==> ps[j] == Progress(j, n)
  {
    seq(k, j requires 0 <= j < k => Progress(j, n))
  }

  datatype PackResult = PackResult(zipBlob: Blob, manifest: string, updates: seq<Update>)

  // ---------------------------------------------------------------------
  // packFiles

  /** `packFiles(items, template, onProgress, { redact })`. `rolls[i]` is the
      random draw of item `i`'s name; `reportProgress` says whether a
      progress callback was given, and `progress` lists what it was called
      with. `None` when a library call rejects. */
  method PackFiles(items: seq<FileItem>, rolls: seq<nat>, run: Run, reportProgress: bool)
    returns (r: Option<PackResult>, progress: seq<int>)
    requires |rolls| == |items| && ValidRolls(rolls)
    ensures r.Some? <==> Records(items, rolls, run).Some?
    ensures r.Some? ==>
      var recs := Records(items, rolls, run).value;
      var manifest := Join(Lines(items, recs, run.nowISO), "\n");
      && r.value.updates == Updates(items, recs)
      && r.value.manifest == manifest
      && r.value.zipBlob == run.eng.generate(Entries(recs) + [Entry(ManifestName, TextData(manifest))])
      && progress == (if reportProgress then ProgressValues(|items|, |items|) else [])
    ensures r.None? ==>
      exists k :: FirstFailure(Outcomes(items, rolls, run), k)
        && progress == (if reportProgress then ProgressValues(k, |items|) else [])
  {
    var zip := new Archive();
    var manifestLines: seq<string> := [];
    var updates: seq<Update> := [];
    var total := |items|;
    progress := [];
    ghost var recs: seq<Record> := [];
    ghost var outs := Outcomes(items, rolls, run);
    var i := 0;
    while i < |items|
      invariant 0 <= i <= |items|
      invariant Collect(outs[..i]) == Some(recs)
      invariant manifestLines == Lines(items, recs, run.nowISO)
      invariant updates == Updates(items, recs)
      invariant zip.entries == Entries(recs)
      invariant reportProgress ==> progress == ProgressValues(i, total)
      invariant !reportProgress ==> progress == []
    {
      var it := items[i];
      var packed := PackOne(it, i, rolls[i], run);
      if packed.None? {
        FailureAt(outs, i);
        return None, progress;
      }
      var rec := packed.value;
      CollectSnoc(outs, i);
      zip.Add(rec.newName, BlobData(rec.blob));
      manifestLines := manifestLines + [Join([it.name, rec.newName, IntToString(it.originalBytes), NatToString(rec.finalBytes), rec.sha, run.nowISO], " | ")];
      updates := updates + [Update(it.id, rec.newName, rec.finalBytes, rec.serverRecommended, rec.note)];
      if reportProgress {
        progress := progress + [Progress(i, total)];
        ProgressGrow(i, total);
      }
      AccumulatorsGrow(items, recs, rec, run.nowISO);
      recs := recs + [rec];
      i := i + 1;
    }
    assert outs[..|items|] == outs;
    var manifest := Join(manifestLines, "\n");
    zip.Add(ManifestName, TextData(manifest));
    var zipBlob := run.eng.generate(zip.entries);
    r := Some(PackResult(zipBlob, manifest, updates));
  }

  /** The body of the loop for item `i`: redact, compress, name and hash;
      `None` when a library call rejects. */
  method PackOne(it: FileItem, i: nat, roll: nat, run: Run) returns (r: Option<Record>)
    requires roll < 9000
    ensures r == PackItem(it, i, roll, run)
  {
    var src := SourceOf(it, run);
    if src.None? {
      return None;
    }
    var packed := CompressOne(it, src.value, run);
    if packed.None? {
      return None;
    }
    var newName := Template.RenderTemplate(run.template, NameContext(it.meta, i, run.today), run.today, roll, run.nfkd);
    var sha := run.eng.sha256(packed.value.blob.bytes);
    r := Some(Record(newName, packed.value.blob, packed.value.finalBytes, packed.value.serverRecommended, packed.value.note, sha));
  }

  /** The compression step of the loop body: an image goes through the
      image compressor and onto a page of its own; a PDF is re-saved. */
  method CompressOne(it: FileItem, source: Blob, run: Run) returns (p: Option<Packed>)
    ensures p == PackBody(it, source, run)
  {
    if it.kind == Image {
      var compressedImage := run.eng.compressImage(source);
      if compressedImage.None? {
        return None;
      }
      var compressed := compressedImage.value;
      var outMime := ToLower(if compressed.mime != "" then compressed.mime else it.file.mime);
      var isPng := Contains(outMime, "png");
      var pdfBytes := run.eng.imageToPdf(compressed.bytes, isPng);
      if pdfBytes.None? {
        return None;
      }
      var outBlob := Blob(pdfBytes.value, PdfMime);
      p := Some(Packed(outBlob, |outBlob.bytes|, false, None));
    } else {
      var res := PdfCompress.CompressPdf(source.bytes, run.eng.resave);
      if res.None? {
        return None;
      }
      p := Some(Packed(res.value.blob, res.value.finalBytes, res.value.serverRecommended, Some(res.value.note)));
    }
  }

  /** The redaction step of the loop body. */
  method SourceOf(it: FileItem, run: Run) returns (src: Option<Blob>)
    ensures src == PackSource(it, run)
  {
    var source := Blob(it.file.content, it.file.mime);
    if run.redact {
      var red := Redact.RedactForPack(it.file, run.eng.redact);
      if red.None? {
        return None;
      }
      if red.value.masked {
        source := if it.kind == Image then red.value.blob else Blob(red.value.blob.bytes, PdfMime);
      }
    }
    return Some(source);
  }

  /** Item `k` is the first whose packing failed. */
  predicate FirstFailure(outs: seq<Option<Record>>, k: nat)
  {
    k < |outs| && outs[k].None? && forall j :: 0 <= j < k ==> outs[j].Some?
  }

  /** A failed item whose predecessors all packed is the first failure. */
  lemma FailureAt(outs: seq<Option<Record>>, i: nat)
    requires i < |outs| && outs[i].None? && Collect(outs[..i]).Some?
    ensures FirstFailure(outs, i)
  {
    forall j | 0 <= j < i
      ensures outs[j].Some?
    {
      assert outs[..i][j] == outs[j];
    }
  }

  /** Collecting one more outcome extends the records by it. */
  lemma CollectSnoc(outs: seq<Option<Record>>, k: nat)
    requires k < |outs|
    ensures Collect(outs[..k + 1]) ==
      if Collect(outs[..k]).None? || outs[k].None? then None else Some(Collect(outs[..k]).value + [outs[k].value])
  {
    assert outs[..k + 1][..k] == outs[..k];
  }

  /** The manifest lines, updates and archive entries each grow by the new
      record's own. */
  lemma AccumulatorsGrow(items: seq<FileItem>, recs: seq<Record>, rec: Record, nowISO: string)
    requires |recs| < |items|
    ensures Lines(items, recs + [rec], nowISO) == Lines(items, recs, nowISO) + [LineOf(items[|recs|], rec, nowISO)]
    ensures Updates(items, recs + [rec]) == Updates(items, recs) + [UpdateOf(items[|recs|], rec)]
    ensures Entries(recs + [rec]) == Entries(recs) + [Entry(rec.newName, BlobData(rec.blob))]
  {
    assert Lines(items, recs + [rec], nowISO) == Lines(items, recs, nowISO) + [LineOf(items[|recs|], rec, nowISO)];
    assert Updates(items, recs + [rec]) == Updates(items, recs) + [UpdateOf(items[|recs|], rec)];
  }

  lemma ProgressGrow(k: nat, n: nat)
    requires k < n
    ensures ProgressValues(k + 1, n) == ProgressValues(k, n) + [Progress(k, n)]
  {
  }

  // ---------------------------------------------------------------------
  // Properties of a run

  /** Every progress report is a percentage, the reports never go down, and
      the last one is 100. */
  lemma ProgressBounds(i: nat, n: nat)
    requires i < n
    ensures 0 <= Progress(i, n) <= 100
    ensures i == n - 1 ==> Progress(i, n) == 100
  {
    var q := (i + 1) as real / n as real;
    assert q * n as real == (i + 1) as real;
    assert 0.0 < q <= 1.0;
    if i == n - 1 {
      assert q == 1.0;
    }
  }

  lemma ProgressMonotone(i: nat, j: nat, n: nat)
    requires i <= j < n
    ensures Progress(i, n) <= Progress(j, n)
  {
    var k := n as real;
    var a := (i + 1) as real / k;
    var b := (j + 1) as real / k;
    assert a * k == (i + 1) as real;
    assert b * k == (j + 1) as real;
    assert (b - a) * k == (j - i) as real;
    NonnegativeFactor(b - a, k);
    assert a * 100.0 <= b * 100.0;
  }

  /** A factor whose product with a positive number is non-negative is
      itself non-negative. */
  lemma NonnegativeFactor(d: real, k: real)
    requires k > 0.0 && d * k >= 0.0
    ensures d >= 0.0
  {
  }

  /** Every record of a successful run is a PDF whose size is its byte
      count, whose hash is that of its bytes, and whose name ends in
      `.pdf`. */
  lemma RecordsArePdfs(items: seq<FileItem>, rolls: seq<nat>, run: Run)
    requires |rolls| == |items| && ValidRolls(rolls)
    requires Records(items, rolls, run).Some?
    ensures forall j :: 0 <= j < |items| ==>
      var rec := Records(items, rolls, run).value[j];
      rec.blob.mime == PdfMime && rec.finalBytes == |rec.blob.bytes|
      && rec.sha == run.eng.sha256(rec.blob.bytes) && EndsWith(rec.newName, Template.PdfExt)
  {
    var outs := Outcomes(items, rolls, run);
    forall j | 0 <= j < |items|
      ensures var rec := Records(items, rolls, run).value[j];
        rec.blob.mime == PdfMime && rec.finalBytes == |rec.blob.bytes|
        && rec.sha == run.eng.sha256(rec.blob.bytes) && EndsWith(rec.newName, Template.PdfExt)
    {
      assert outs[j] == PackItem(items[j], j, rolls[j], run);
      assert outs[j].Some?;
    }
  }

  /** With the template `{{Index1}}.pdf`, item `j` is named `j+1` followed
      by `.pdf`. */
  lemma IndexedNames(items: seq<FileItem>, rolls: seq<nat>, run: Run)
    requires |rolls| == |items| && ValidRolls(rolls)
    requires run.template == "{{Index1}}.pdf" && |items| < Pow10(Template.MaxBase)
    requires Records(items, rolls, run).Some?
    ensures forall j :: 0 <= j < |items| ==>
      Records(items, rolls, run).value[j].newName == NatToString(j + 1) + Template.PdfExt
  {
    var outs := Outcomes(items, rolls, run);
    forall j | 0 <= j < |items|
      ensures Records(items, rolls, run).value[j].newName == NatToString(j + 1) + Template.PdfExt
    {
      assert outs[j] == PackItem(items[j], j, rolls[j], run);
      assert outs[j].Some?;
      ItemIndexName(items[j], j, rolls[j], run);
    }
  }

  lemma ItemIndexName(it: FileItem, j: nat, roll: nat, run: Run)
    requires roll < 9000 && run.template == "{{Index1}}.pdf" && j + 1 < Pow10(Template.MaxBase)
    requires PackItem(it, j, roll, run).Some?
    ensures PackItem(it, j, roll, run).value.newName == NatToString(j + 1) + Template.PdfExt
  {
    Template.IndexName(NameContext(it.meta, j, run.today), run.today, roll, run.nfkd, j + 1);
  }

  /** Without redaction, a PDF item is flagged for the server exactly when
      its own bytes classify as text-only, and the note says so. */
  lemma UnredactedPdfRecommendation(it: FileItem, i: nat, roll: nat, run: Run)
    requires roll < 9000 && !run.redact && it.kind == Pdf
    requires PackItem(it, i, roll, run).Some?
    ensures PackItem(it, i, roll, run).value.serverRecommended
      <==> PdfCompress.AnalyzePdfBytes(it.file.content) == PdfCompress.Text
    ensures PackItem(it, i, roll, run).value.note
      == Some(if PdfCompress.AnalyzePdfBytes(it.file.content) == PdfCompress.Text
              then PdfCompress.ServerNote else PdfCompress.LightNote)
  {
    var src := Blob(it.file.content, it.file.mime);
    assert PackSource(it, run) == Some(src);
    assert PackBody(it, src, run).Some?;
  }
}
