# DocPackr core in Dafny

DocPackr is a browser application that prepares immigration documents for
submission. The user drops PDFs and images onto the page. The application
guesses each file's kind and compressed size and infers naming hints from
the file name, the EXIF date and optional OCR. On request it blacks out
sensitive regions: social security numbers, alien numbers and a passport's
machine-readable zone. It then converts every file to PDF, names each one
from a template such as `{{Last}}_{{First}}_{{DocType}}_{{Side}}_{{DateISO}}.pdf`,
and packs them into a ZIP archive with a manifest.

This project models that core and proves properties of it.

- `Base`, `Strings` and `Seqs` hold the primitives the core is written in:
  - files and blobs;
  - JavaScript's ASCII case mapping and its `\s` and `\b` classes;
  - the global replacement of character runs;
  - `split`, `join` and `replaceAll`;
  - decimal numerals;
  - filtering.
- `Types` models the zod schemas of items and settings. It has parsers from
  JSON-like values and round trips through a serialiser.
- `Template` models `renderTemplate`:
  - field defaults;
  - `{{ a || b }}` fallback chains;
  - `slug(…)` and `upper(…)` calls;
  - `safeFilename` and `ensurePdf`.
- `Format` models kind guessing, size estimates, side guessing,
  `sanitize` and the older `applyTemplate`.
- `PdfCompress` models the byte scan that classifies a PDF, and the light
  re-save with its server recommendation.
- `Redact` models the redaction paths:
  - the canvas as a class that records what is painted on it;
  - OCR boxes and their clamping to pixels;
  - the black MRZ band on a PDF's first page;
  - the PDF writer as a class recording its pages;
  - the previews.
- `Pack` models `packFiles`:
  - the per-item pipeline of redaction, compression, naming and hashing;
  - the ZIP archive as a class recording its entries;
  - the manifest;
  - the updates;
  - the progress reports.
- `Hints` models `inferHints`: filename rules, the side read from the name,
  the EXIF date and the OCR keyword maps.
- `Page` models the page's reducer and the merge of pack updates into the
  items.
- `DropBox` models which dropped, browsed or pasted files reach `onFiles`.

The following are parameters of the model (function-typed fields of
`Pack.Engines`, `Redact.Libs` and `Hints.HintEnv`). Where the library call
can reject, the parameter returns an `Option` and a rejection is `None`.
SHA-256, ZIP generation and the redacted PDF's save are total functions. The parameters are:

- pdf-lib loading and saving;
- canvas encoding;
- image decoding;
- OCR;
- EXIF reading;
- image compression;
- SHA-256;
- ZIP generation;
- Unicode NFKD;
- the clock (`today`, `nowISO`);
- `Math.random` (a roll below 9000);
- `crypto.randomUUID` (a function of the position).

## Model

| member | source | states |
|---|---|---|
| Types.ParseKind | src/lib/types.ts:3 | Only the strings `pdf` and `image` are kinds, and each maps to its own kind. |
| Types.ParseMeta | src/lib/types.ts:6-12 | Accepted exactly when the value is an object whose `First`, `Last`, `DocType`, `Side` and `DateISO` are each absent or a string. Each field is then its string, or `''` when absent. |
| Types.ParseItem | src/lib/types.ts:15-24 | An accepted item satisfies every schema constraint and keeps the attached file. A missing status defaults to queued. |
| Types.ParseTemplate | src/lib/types.ts:26-28 | Accepted exactly when `value` is a string field, and the result is that string. |
| Types.ParseSettings | src/lib/types.ts:31-33 | Accepted exactly when `template` is absent or a string. When absent, the default template is used. When present, it is taken as given. |
| Types.MetaRoundTrip | src/lib/types.ts:6-12 | Serialising naming fields and parsing them back gives the same fields. |
| Types.ParseItemRoundTrip | src/lib/types.ts:15-24 | A serialised item parses back to itself exactly when it satisfies the schema, and is rejected otherwise. |
| Template.CollapseBlanksSpec | src/lib/template.ts:23-27 | After the illegal-character and blank-run rewrites, no character is illegal or blank, no `__` remains, and the name never grows. |
| Template.SafeFilenameClean | src/lib/template.ts:22-31 | The result is a clean name: non-empty, no illegal or blank characters, no leading, trailing or doubled `_`. It is no longer than the input or `document`. |
| Template.SafeFilenameFixed | src/lib/template.ts:22-31 | A name that is already clean is returned unchanged. |
| Template.SafeFilenameIdempotent | src/lib/template.ts:22-31 | Sanitising twice is the same as once. |
| Template.SafeFilename | src/lib/template.ts:22-31 | No contract of its own. Its properties are in SafeFilenameClean, SafeFilenameFixed and SafeFilenameIdempotent. |
| Template.PdfExtensionMatch | src/lib/template.ts:34-36 | For a name ending in `.pdf` (any case), the extension pattern matches only at the last four characters. |
| Template.EnsurePdfBase | src/lib/template.ts:34-37 | The base kept before the extension is at most 115 characters. |
| Template.EnsurePdfShape | src/lib/template.ts:33-42 | The output is the sanitised base plus `.pdf`. It ends in `.pdf`, has at most 119 characters, and its base is a clean name. |
| Template.EnsurePdfBaseOfPdf | src/lib/template.ts:34-37 | For a name already ending in `.pdf`, stripping the extension gives back exactly the name without it. |
| Template.EnsurePdfIdempotent | src/lib/template.ts:33-42 | Applying `ensurePdf` to its own output changes nothing. |
| Template.EnsurePdfAppends | src/lib/template.ts:33-42 | A clean, short name without `.pdf` only gains the extension. |
| Template.EnsurePdfKeeps | src/lib/template.ts:33-42 | A clean, short base followed by `.pdf` is kept as it is. |
| Template.EnsurePdfEmpty | src/lib/template.ts:29 | The empty name becomes `document.pdf`. |
| Template.EnsurePdf | src/lib/template.ts:33-42 | No contract of its own. Its properties are in EnsurePdfShape, EnsurePdfIdempotent, EnsurePdfAppends, EnsurePdfKeeps and EnsurePdfEmpty. |
| Template.DashRunsSpec | src/lib/template.ts:13-14 | After the dash rewrites, only `a-z`, `0-9` and `-` remain, and no `--`. |
| Template.SlugifyShape | src/lib/template.ts:10-16 | A slug has only `a-z`, `0-9` and single inner dashes, with no dash at either end. |
| Template.SlugifyFixed | src/lib/template.ts:10-16 | A string that is already a slug, and that NFKD leaves alone, is its own slug. |
| Template.Slugify | src/lib/template.ts:10-16 | No contract of its own. Its properties are in SlugifyShape and SlugifyFixed. |
| Template.EvalExpr | src/lib/template.ts:51-62 | With a lookup defined for every key, evaluation never fails. |
| Template.QuotedLiteral | src/lib/template.ts:44-46 | A quoted atom evaluates to the text between its quotes. |
| Template.FieldReference | src/lib/template.ts:47-48 | A bare field name evaluates to the field's value. |
| Template.EvalAtom | src/lib/template.ts:44-49 | No contract of its own. Its properties are in QuotedLiteral, FieldReference and EvalExpr. |
| Template.CallEval | src/lib/template.ts:52-59 | A call evaluates its trimmed argument recursively. The result is slugified for `slug`, upper-cased for `upper` (case-insensitive names), and passed through for other names. |
| Template.Alternatives | src/lib/template.ts:79-82 | No alternative of a fallback chain is empty. |
| Template.FirstNonBlank | src/lib/template.ts:83-87 | With a total lookup the chain always yields a value, and that value is empty or has a non-blank character. |
| Template.FirstNonBlankPicks | src/lib/template.ts:83-86 | The chain's value is the first alternative whose value is not blank, taken untrimmed. |
| Template.FirstNonBlankBlank | src/lib/template.ts:87 | When every alternative is blank, the chain gives the empty string. |
| Template.ResolveField | src/lib/template.ts:76-87 | A placeholder holding a single field name resolves to that field when it is not blank, and to empty otherwise. |
| Template.ExpandVerbatim | src/lib/template.ts:76 | Text outside placeholders is copied unchanged. |
| Template.ExpandPlaceholder | src/lib/template.ts:76-88 | A placeholder is replaced by its resolved value, and the rest of the template is expanded after it. |
| Template.Expand | src/lib/template.ts:76-88 | With a lookup defined for every key, the expansion always succeeds. Its other properties are in ExpandVerbatim and ExpandPlaceholder. |
| Template.Fields | src/lib/template.ts:65-74 | Every context key wins, even when empty. `First`, `Last`, `DocType` and `Side` default to empty, `DateISO` to today, `Random4` to `1000 + roll` and `Index1` to `1`. No other keys are added. |
| Template.OwnLookupTotal | src/lib/template.ts:48 | Looking up own fields always succeeds, and a missing key reads as empty. |
| Template.RenderTemplate | src/lib/template.ts:64-92 | Every rendered name ends in `.pdf`, has at most 119 characters, and its base is a clean name. |
| Template.IndexName | src/lib/template.ts:64-92 | The template `{{Index1}}.pdf` with `Index1 = n` renders `n.pdf`. |
| Template.RenderTemplateAsWritten | src/lib/template.ts:48 | Wherever the code as written returns a name, it is the corrected renderer's name. |
| Template.ToStringThrows | src/lib/template.ts:48 | `{{toString}}` fails as written, while the corrected renderer gives `document.pdf`. |
| Format.GuessKind | src/lib/format.ts:23-26 | A file is a PDF exactly when its type is `application/pdf` or its lower-cased name ends in `.pdf`. Every other file is an image. |
| Format.EstimatePdf | src/lib/format.ts:33-34 | A PDF's estimate is 85% of its size, rounded half up, and never more than the size. |
| Format.EstimateImage | src/lib/format.ts:28-32 | An image up to 60 KiB is estimated at its size. Up to 150 KiB the estimate is 60 KiB. Beyond that it is 40% of the size, rounded half up. It always lies between `min(size, 60 KiB)` and the size. |
| Format.EstimateCompressed | src/lib/format.ts:28-35 | No contract of its own. Its properties are in EstimatePdf and EstimateImage. |
| Format.PickSideFromName | src/lib/format.ts:37-42 | The side is `Back` exactly when the name mentions no front word but a back word. Otherwise it is `Front`. |
| Format.SanitizeChars | src/lib/format.ts:53-55 | A sanitised value has only letters, digits, `_` and `-`. |
| Format.SanitizeFixed | src/lib/format.ts:53-55 | A value made only of those characters is unchanged. |
| Format.SanitizeIdempotent | src/lib/format.ts:53-55 | Sanitising twice is the same as once. |
| Format.Sanitize | src/lib/format.ts:53-55 | No contract of its own. Its properties are in SanitizeChars, SanitizeFixed and SanitizeIdempotent. |
| Format.WithPdf | src/lib/format.ts:49 | The result ends in `.pdf`. A name that already does (any case) is kept, and any other name gains `.pdf`. |
| Format.ApplyTemplate | src/lib/format.ts:44-51 | The output is the template with every entry's placeholder replaced in order, and it always ends in `.pdf`. |
| Format.SubstituteAbsent | src/lib/format.ts:46-48 | A template containing none of the placeholders is unchanged. |
| Format.SubstituteOne | src/lib/format.ts:47 | Replacing one placeholder splits the template at it and joins the pieces with the sanitised value. Joining with the placeholder gives back the template. |
| Format.SubstituteAll | src/lib/format.ts:46-48 | No contract of its own. Its properties are in ApplyTemplate, SubstituteAbsent and SubstituteOne. |
| PdfCompress.PrintableChar | src/lib/compress/pdf.ts:18 | Bytes 32 to 126 map to their own character. Every other byte maps to a space. |
| PdfCompress.Printable | src/lib/compress/pdf.ts:17-19 | The scan text has one printable character per byte. |
| PdfCompress.ScanText | src/lib/compress/pdf.ts:14-19 | Only the first 1,500,000 bytes are scanned. |
| PdfCompress.AnalyzeIgnoresTail | src/lib/compress/pdf.ts:14 | Bytes past the scan limit never change the classification. |
| PdfCompress.Classify | src/lib/compress/pdf.ts:25-28 | The four modes correspond exactly to the four combinations of image and text markers. |
| PdfCompress.MarkerProjects | src/lib/compress/pdf.ts:16-23 | `/Image` occurs in the scan text exactly where the raw bytes spell it. |
| PdfCompress.ImageMarkerDecides | src/lib/compress/pdf.ts:23-28 | A PDF is image-only or mixed exactly when `/Image` occurs in its first 1,500,000 bytes. |
| PdfCompress.HasImage | src/lib/compress/pdf.ts:23 | No contract of its own. Its properties are in MarkerProjects and ImageMarkerDecides. |
| PdfCompress.HasTextOps | src/lib/compress/pdf.ts:24 | No contract of its own. It is one of the two markers that Classify combines. |
| PdfCompress.AnalyzePdfBytes | src/lib/compress/pdf.ts:12-29 | No contract of its own. Its properties are in Classify, AnalyzeIgnoresTail and ImageMarkerDecides. |
| PdfCompress.CompressPdf | src/lib/compress/pdf.ts:31-50 | The result exists exactly when the re-save succeeds. It records the scan's mode, the input size, the re-saved bytes and their size. The server is recommended exactly for text PDFs, and the note says so. |
| Redact.StringFromBytes | src/lib/redact.ts:177-184 | The loop yields one printable character per byte: the same text the PDF scan uses. |
| Redact.LatinRoundTrip | src/lib/redact.ts:171-173 | Bytes written as a binary string and read back with `charCodeAt` are the same bytes. |
| Redact.DataUrlToBytes | src/lib/redact.ts:169-175 | The fresh array holds the character codes of the decoded base64 part of the data URL. |
| Redact.SsnWord | src/lib/redact.ts:11 | A word in the form `ddd-dd-dddd` is recognised as an SSN. |
| Redact.SsnNeedsBoundary | src/lib/redact.ts:11 | Digits glued to a word character do not count as an SSN. |
| Redact.ANumberWord | src/lib/redact.ts:12 | `A` or `a` followed by eight or nine digits is recognised as an alien number. |
| Redact.HasSsn | src/lib/redact.ts:11 | No contract of its own. Its properties are in SsnWord and SsnNeedsBoundary. |
| Redact.HasANumber | src/lib/redact.ts:12 | No contract of its own. Its property is in ANumberWord. |
| Redact.HasMrzHint | src/lib/redact.ts:13 | No contract of its own. Its effect is in CandidateBoxesSpec, ImageMaskedSpec and MakeCanvas. |
| Redact.Sensitive | src/lib/redact.ts:144-146 | No contract of its own. Its properties are in CandidateBoxesSpec, SsnWord and ANumberWord. |
| Redact.RoutingAgreesWithKind | src/lib/redact.ts:15-19 | A file takes the PDF redaction path exactly when it is classified as a PDF. |
| Redact.Canvas.FillRect | src/lib/redact.ts:159 | Filling a rectangle appends it to the canvas's paint log and keeps the size. |
| Redact.BoxesOf | src/lib/redact.ts:147-148 | Each word contributes its own bounding box, in order. |
| Redact.CandidateBoxesSpec | src/lib/redact.ts:136-150 | A word yields a box exactly when it is sensitive. There is one box for the `<<<` hint plus one per sensitive word, so something is masked exactly when either is present. |
| Redact.CandidateBoxes | src/lib/redact.ts:136-150 | No contract of its own. Its properties are in CandidateBoxesSpec and CollectBoxes. |
| Redact.Clamp | src/lib/redact.ts:155-159 | A box becomes a black rectangle at non-negative whole coordinates, at least one pixel wide and high. Its corner is the floor of a non-negative box corner. |
| Redact.ClampAll | src/lib/redact.ts:154-161 | Every box is clamped, in order. |
| Redact.CollectBoxes | src/lib/redact.ts:136-150 | The loop collects exactly the candidate boxes. |
| Redact.PaintBoxes | src/lib/redact.ts:151-162 | The canvas gains exactly the clamped boxes, in order. It is masked exactly when there was a box. |
| Redact.RedactionPaints | src/lib/redact.ts:128-167 | Everything painted over an image is a black rectangle on the canvas. |
| Redact.DrawRedactions | src/lib/redact.ts:128-167 | The canvas keeps its size, and gains exactly the paints that the recognition of its current content calls for. It reports masked exactly when there are any. |
| Redact.ImageMaskedSpec | src/lib/redact.ts:128-167 | An image is masked exactly when OCR succeeded and found the `<<<` hint or a sensitive word. A failed OCR masks nothing. |
| Redact.BandHeight | src/lib/redact.ts:67 | The band is `floor(0.18 × height)` and never taller than the canvas. |
| Redact.BandGeometry | src/lib/redact.ts:66-68 | The black band spans the canvas width and ends at its bottom edge. |
| Redact.CanvasSide | src/lib/redact.ts:54-55 | A canvas side is `max(1, floor(page side))`. |
| Redact.MakeCanvas | src/lib/redact.ts:92-106 | The canvas has the page's floored size and is painted white, then banded exactly when masking was asked for and the text has the `<<<` hint. |
| Redact.PdfWriter.AddPage | src/lib/redact.ts:76 | Adding a page appends it to the document. |
| Redact.RedactedPages | src/lib/redact.ts:75-79 | The output has the source's page count. Page one is the drawn canvas, and every later page is a copy of its source page. |
| Redact.PageSizeValue | src/lib/redact.ts:47 | The size expression yields pdf-lib's `{ width, height }` object, with the page's width and height. |
| Redact.DestructurePair | src/lib/redact.ts:47 | Destructuring `[w, h]` succeeds exactly on the array form, giving its two values. On the object it throws. |
| Redact.PdfRedactionOf | src/lib/redact.ts:51-81 | A result exists exactly when there is a first page, and it is masked exactly when the scanned bytes contain `<<<`. |
| Redact.PdfRedaction | src/lib/redact.ts:43-82 | Intended behaviour: a result exists exactly when pdf-lib loads the file and it has a page. It is masked exactly when its first 1,500,000 bytes contain `<<<`. |
| Redact.PdfRedactionAsWritten | src/lib/redact.ts:43-47 | As written: wherever it returns a result, that is the intended one. |
| Redact.PdfSizeNotIterable | src/lib/redact.ts:47 | As written, redaction of a PDF never succeeds, while the intended code succeeds for every loadable PDF with a page. |
| Redact.RedactPdfFirstPage | src/lib/redact.ts:43-82 | The steps compute exactly the intended PDF redaction outcome. |
| Redact.RedactImage | src/lib/redact.ts:31-41 | The steps compute exactly the image redaction outcome. |
| Redact.ImageRedactionMasked | src/lib/redact.ts:31-41 | A redacted image is masked exactly when something was painted over the drawn image. |
| Redact.ImageRedaction | src/lib/redact.ts:31-41 | No contract of its own. Its properties are in RedactImage, ImageRedactionMasked and ImageMaskedSpec. |
| Redact.RedactForPack | src/lib/redact.ts:15-20 | PDFs take the first-page path and other files the image path. |
| Redact.Redaction | src/lib/redact.ts:15-20 | No contract of its own. Its properties are in RedactForPack and RoutingAgreesWithKind. |
| Redact.PdfPreviewOf | src/lib/redact.ts:90-112 | A preview exists exactly when there is a first page, and it is masked exactly when the text has the `<<<` hint. |
| Redact.PdfPreview | src/lib/redact.ts:84-113 | Intended behaviour: a preview exists exactly when pdf-lib loads the file and it has a page. It is masked exactly when the text has the `<<<` hint. |
| Redact.PdfPreviewAsWritten | src/lib/redact.ts:84-89 | As written: wherever it returns a preview, that is the intended one. |
| Redact.PdfPreviewSizeNotIterable | src/lib/redact.ts:89 | As written, the PDF preview never succeeds, while the intended code succeeds for every loadable PDF with a page. |
| Redact.RasterizePdfPreview | src/lib/redact.ts:84-113 | The steps compute exactly the intended PDF preview outcome. |
| Redact.PdfPreviewOriginalUnmasked | src/lib/redact.ts:108 | The unmasked preview canvas carries only white paint. |
| Redact.RasterizeImagePreview | src/lib/redact.ts:115-126 | The steps compute exactly the image preview outcome. |
| Redact.ImagePreview | src/lib/redact.ts:115-126 | No contract of its own. Its properties are in RasterizeImagePreview and GenerateRedactedPreview. |
| Redact.GenerateRedactedPreview | src/lib/redact.ts:22-29 | PDFs get the PDF preview and other files the image preview. |
| Pack.Archive.Add | src/lib/pack.ts:87 | Adding a file appends an entry with its name and data. |
| Pack.NameContext | src/lib/pack.ts:63-67 | The naming context has exactly the keys `First`, `Last`, `DocType`, `Side`, `DateISO` and `Index1`. They hold the item's naming fields, its 1-based position, and its date or else today. |
| Pack.PackSource | src/lib/pack.ts:46-50 | Without redaction the original file is packed. With redaction, a failed redaction fails the item, and the redacted blob is used exactly when it is masked. |
| Pack.PackBody | src/lib/pack.ts:51-84 | The packed blob is a PDF whose size is recorded. An image fails when its compression rejects, is never server-recommended, and has no note. A PDF packs exactly when its compression succeeds, and takes that compression's recommendation and note. |
| Pack.PackItem | src/lib/pack.ts:37-89 | No contract of its own. Its properties are in PackOne, Outcomes, RecordsArePdfs and UnredactedPdfRecommendation. |
| Pack.Outcomes | src/lib/pack.ts:36-91 | There is one outcome per item, in order, each packed at its own position. |
| Pack.Collect | src/lib/pack.ts:36-91 | The run succeeds exactly when every item does, and then it has one record per item, in order. |
| Pack.Records | src/lib/pack.ts:36-91 | No contract of its own. Its properties are in PackFiles, RecordsArePdfs and IndexedNames. |
| Pack.Updates | src/lib/pack.ts:89 | There is one update per record, carrying the item's id and the record's name, size, flag and note. |
| Pack.UpdateOf | src/lib/pack.ts:89 | No contract of its own. Its properties are in Updates. |
| Pack.Lines | src/lib/pack.ts:88 | There is one manifest line per record. |
| Pack.LineOf | src/lib/pack.ts:88 | No contract of its own. Its properties are in Lines. |
| Pack.Entries | src/lib/pack.ts:87 | There is one archive entry per record, named by the record. |
| Pack.ProgressValues | src/lib/pack.ts:90 | The k-th report is the rounded percentage after item k. |
| Pack.Progress | src/lib/pack.ts:90 | No contract of its own. Its properties are in ProgressBounds and ProgressMonotone. |
| Pack.PackFiles | src/lib/pack.ts:24-100 | The run succeeds exactly when every item packs. Then it returns the per-item updates, the manifest joined by newlines, and an archive of the records' entries plus `manifest.txt`. It reports progress once per item when asked. A failed run has reported progress for exactly the items before the first that failed. |
| Pack.PackOne | src/lib/pack.ts:37-89 | The loop body computes exactly the item's record. |
| Pack.SourceOf | src/lib/pack.ts:46-50 | The step computes exactly the item's source. |
| Pack.CompressOne | src/lib/pack.ts:51-84 | The step computes exactly the item's packed body. |
| Pack.ProgressBounds | src/lib/pack.ts:90 | Progress stays between 0 and 100 and reaches 100 at the last item. |
| Pack.ProgressMonotone | src/lib/pack.ts:90 | Progress never decreases. |
| Pack.RecordsArePdfs | src/lib/pack.ts:60-87 | Every packed record is a PDF blob. Its size is the blob's length, its hash is the blob's hash, and its name ends in `.pdf`. |
| Pack.IndexedNames | src/lib/pack.ts:63-83 | With the template `{{Index1}}.pdf`, the j-th item is named `j+1.pdf`. |
| Pack.UnredactedPdfRecommendation | src/lib/pack.ts:74-78 | Without redaction, a PDF is server-recommended exactly when its own bytes classify as text, and its note says so. |
| Hints.Assign | src/lib/smart/hints.ts:80 | Merging keyword hints overrides only the keys found and keeps the date. |
| Hints.FirstMatch | src/lib/smart/hints.ts:56-58 | No document type is found exactly when no rule matches. |
| Hints.FirstMatchAt | src/lib/smart/hints.ts:56-58 | The first matching rule decides the type. |
| Hints.FileDocTypeOrder | src/lib/smart/hints.ts:7-12 | A name's type is I-20, else I-765, else EAD, else Passport, each exactly when its pattern matches and no earlier one does. |
| Hints.FileDocType | src/lib/smart/hints.ts:55-58 | No contract of its own. Its properties are in FirstMatch, FirstMatchAt and FileDocTypeOrder. |
| Hints.SideFromName | src/lib/smart/hints.ts:14-21 | `Back` exactly when `back` or `verso` is a word, or else `passport[_-]back` is one with no front word. `Front` exactly when the front words decide it in the same order. |
| Hints.SideFromNameSeenBySubstrings | src/lib/smart/hints.ts:14-21 | A side read from words is also seen by the substring test of `pickSideFromName`. |
| Hints.KeywordsToDoc | src/lib/smart/hints.ts:36-43 | The text's type is Passport, else I-20, else I-765, else EAD, each exactly when its word appears and no earlier one does. |
| Hints.KeywordsToSide | src/lib/smart/hints.ts:45-50 | `Front` exactly when a front marker appears. `Back` exactly when only a back marker does. Otherwise there is no side. |
| Hints.ExifDate | src/lib/smart/hints.ts:30-31 | A matched date has the form `dddd-dd-dd`. |
| Hints.ExifForms | src/lib/smart/hints.ts:30-31 | Every form `YYYY[:]MM[:]DD…`, with or without each of the two colons, gives year-month-day. |
| Hints.ExifDateISO | src/lib/smart/hints.ts:23-34 | Only images have an EXIF date, and it is ten characters long. |
| Hints.NameHints | src/lib/smart/hints.ts:55-65 | No contract of its own. Its properties are in DateAlwaysSet and NoTextNoKeywords. |
| Hints.TextOf | src/lib/smart/hints.ts:68-92 | No contract of its own. Its properties are in TextOverridesName, NoTextNoKeywords and PdfTailIgnored. |
| Hints.InferredHints | src/lib/smart/hints.ts:52-96 | No contract of its own. Its properties are in InferHints, DateAlwaysSet, TextOverridesName, NoTextNoKeywords and PdfTailIgnored. |
| Hints.InferHints | src/lib/smart/hints.ts:52-96 | The steps compute exactly the inferred hints. |
| Hints.DateAlwaysSet | src/lib/smart/hints.ts:63-65 | A date is always set: the EXIF date, else today. |
| Hints.TextOverridesName | src/lib/smart/hints.ts:77-90 | Types and sides found in the text override those from the name, and the rest are kept. |
| Hints.NoTextNoKeywords | src/lib/smart/hints.ts:68-92 | Only the name and EXIF hints are given without OCR, for files of 5 MiB or more, and for files that are neither images nor exactly `application/pdf`. |
| Hints.PdfTailIgnored | src/lib/smart/hints.ts:85-87 | Bytes past 1,500,000 never change a PDF's hints. |
| Page.NewItem | src/app/page.tsx:43-62 | A new item is queued, with its guessed kind, its estimate, an empty meta on the front side dated today, and no results. It satisfies the item schema. |
| Page.NewItems | src/app/page.tsx:43-63 | There is one new item per file, in order. |
| Page.ApplyPatchIdempotent | src/app/page.tsx:86 | Applying a meta patch twice is the same as once. |
| Page.PatchItems | src/app/page.tsx:86 | Only the items with the id are patched, and nothing else changes. |
| Page.ApplyPatch | src/app/page.tsx:86 | No contract of its own. Its properties are in ApplyPatchIdempotent and PatchItems. |
| Page.AddFilesAppends | src/app/page.tsx:42-65 | Added files are appended after the existing items, and nothing else changes. |
| Page.RemoveFileSpec | src/app/page.tsx:66-70 | Exactly the items with other ids remain, in order and each as often as before. The selection is cleared only when it named the removed id. |
| Page.UpdateMetaSpec | src/app/page.tsx:85-88 | Only the matching items' meta changes, and nothing else does. |
| Page.RepeatIsHarmless | src/app/page.tsx:40-94 | Repeating any action other than adding files changes nothing more. |
| Page.SettersFrame | src/app/page.tsx:71-92 | Setters change only their own field. An unrecognised action leaves the state alone. |
| Page.Reduce | src/app/page.tsx:40-94 | No contract of its own. Its properties are in AddFilesAppends, RemoveFileSpec, UpdateMetaSpec, RepeatIsHarmless and SettersFrame. |
| Page.FindUpdate | src/app/page.tsx:116 | No update is found exactly when none has the id. A found update has the id. |
| Page.FindUpdateFirst | src/app/page.tsx:116 | The first update with the id is the one found. |
| Page.MergeUpdates | src/app/page.tsx:115-119 | Every item is merged with the updates, in order. |
| Page.MergeItem | src/app/page.tsx:115-119 | No contract of its own. Its properties are in MergeUpdates, MergeSpec and PackThenMerge. |
| Page.MergeSpec | src/app/page.tsx:115-119 | The merge keeps each item's id, file, name and meta. An item without an update is unchanged. An item with one becomes ready with a final size. |
| Page.PackThenMerge | src/app/page.tsx:114-119 | After a pack run every item is ready. With distinct ids, each item carries its own record's size, flag and note. |
| DropBox.HandleFilesSpec | src/components/DropBox.tsx:15-22 | `onFiles` is called exactly when some file is admitted, with exactly the admitted files, in order and each as often as it was given. |
| DropBox.AdmitByTypeOrName | src/components/DropBox.tsx:18 | Images are admitted whatever their name, and files with an accepted extension whatever their type. |
| DropBox.Admit | src/components/DropBox.tsx:18 | No contract of its own. Its properties are in AdmitByTypeOrName, HandleFilesSpec and PasteIsUnfiltered. |
| DropBox.HandleFiles | src/components/DropBox.tsx:15-22 | No contract of its own. Its properties are in HandleFilesSpec and OnDrop. |
| DropBox.OnDrop | src/components/DropBox.tsx:24-36 | Nothing is passed on when the box is disabled or nothing was dropped. Otherwise the drop is filtered. |
| DropBox.Present | src/components/DropBox.tsx:41-47 | The clipboard yields at most one file per item. |
| DropBox.PresentSpec | src/components/DropBox.tsx:41-47 | Exactly the items' files are collected, and none exactly when no item has a file. |
| DropBox.OnPaste | src/components/DropBox.tsx:38-51 | When enabled with clipboard data, `onFiles` receives the clipboard's files, if there are any. |
| DropBox.PasteIsUnfiltered | src/components/DropBox.tsx:41-48 | A pasted file of any type is passed on, even one the drop filter would refuse. |

## Left out

- `prettyBytes`, `isoDate` and `sha256Hex`: not modelled. The date and the hash are inputs to the model.
- Floating point: the factors 0.4, 0.85, 0.18 and 0.8 and the progress percentage are exact rationals with round-half-up, so binary rounding at exact halves is not modelled.
- Case mapping covers ASCII only, and NFKD is an abstract function, because Unicode tables are out of scope.
- Lengths and slices count code points, not UTF-16 units.
- The archive records every insertion. JSZip replaces an earlier entry of the same name, which the model does not do.
- Pack.PackFiles: names items with the corrected `Template.RenderTemplate`. A template that makes the code as written throw (see Findings) rejects the whole run in the source but packs here.
- Pack.PackSource: with redaction on, a PDF item uses the corrected `Redact.PdfRedaction`. As written, `redactForPack` rejects on every loadable PDF (see Findings), which fails the item.
- Pack.PackFiles: with redaction on, a run containing a loadable PDF packs here, while the code as written rejects the whole run at that item (see Findings).
- Redact.RedactPdfFirstPage: computes the corrected redaction. The as-written rejection is `Redact.PdfRedactionAsWritten`.
- Redact.RasterizePdfPreview: computes the corrected preview. The as-written rejection is `Redact.PdfPreviewAsWritten`.
- Pack.Engines: `sha256` and `generate` are total functions. Rejections of `crypto.subtle.digest` and of JSZip's `generateAsync` are not modelled.
- Redact.Libs: `savePdf` is a total function. It stands for pdf-lib's `embedPng`, `copyPages` and `save`, whose rejections are not modelled.
- Pack.PackFiles: every item uses one `today`, though the source reads the clock per item.
- Pack.PackFiles: any rejection fails the whole run as `None`, and the partial archive is not modelled.
- Asynchrony is modelled as sequential execution.
- Not modelled: the OCR worker's lifecycle, `loadImageFromBlob`, the image compressor's internals, and the EXIF and OCR engines. Each is a parameter.
- `canvas.toBlob` yielding `null` is not modelled, because the source casts it away.
- Redact.Clamp: OCR boxes are finite reals, so NaN coordinates are not modelled.
- Redact.BoxesOf: words carry text and a box directly. The `w.word` and `w.bbox || w` fallbacks and a missing `words` list are not modelled.
- Redact.Clamp: states the floor relation only for non-negative corners. Negative corners are clamped to 0 as in the code.
- PdfCompress.AnalyzePdfBytes: the `unknown` result of the `catch` is left out, because building the scan text cannot fail.
- Hints.ExifDateISO: states the shape of the date and the non-image case only. The choice between the original and creation dates is in its body and in Hints.ExifForms.
- Page.ApplyPatch: a patch key that is present with an undefined value is treated as absent.
- Types: zod numbers are integers here, and unknown keys are not stripped.
- Not modelled: UI handlers, drag-over styling, `clearData`, the `accept` attribute of the file input, the selected-item memo and the AI suggestion route, because they are interface or server code outside this core.

## Findings

| source | as written | input that shows it | evidently intended | confidence | as-written member | corrected member |
|---|---|---|---|---|---|---|
| src/lib/template.ts:48 | `fields[key] ?? ''` also reads members inherited from `Object.prototype`. For `toString` it returns a function, and `val.trim()` then throws a TypeError out of `renderTemplate`. | template `{{toString}}`, empty context | unknown field names read as empty, so the name falls back to `document.pdf` | not executed; high | Template.RenderTemplateAsWritten (shown by Template.ToStringThrows) | Template.RenderTemplate |
| src/lib/redact.ts:47 | `const [w, h] = page1.getSize ? page1.getSize() : […]` takes the `getSize` branch, because pdf-lib pages have it. `getSize()` returns the object `{ width, height }`, and destructuring an object as an array throws a TypeError, so `redactPdfFirstPage` rejects. With redaction on, `packFiles` then rejects at the first PDF item. | any PDF that pdf-lib loads, with at least one page, packed with redaction on | the page's width and height are read from the object, and the redacted PDF is produced | not executed; high (rests on pdf-lib's published `getSize` signature) | Redact.PdfRedactionAsWritten (shown by Redact.PdfSizeNotIterable) | Redact.PdfRedaction |
| src/lib/redact.ts:89 | The same destructuring in `rasterizeAndRedactPdfPreview`, so no PDF preview is ever produced. | any PDF that pdf-lib loads, with at least one page | the preview is drawn at the page's size | not executed; high (rests on pdf-lib's published `getSize` signature) | Redact.PdfPreviewAsWritten (shown by Redact.PdfPreviewSizeNotIterable) | Redact.PdfPreview |
