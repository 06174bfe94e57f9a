/** The hint inference of `src/lib/smart/hints.ts`: the filename rules,
    the side words, the keyword maps applied to recognised or scanned text,
    the EXIF date reformat, and `inferHints`, which fills a hint record step
    by step. The EXIF reader, the OCR engine and today's date are
    parameters. */
module Hints {
  import opened Base
  import opened Strings
  import Format
  import PdfCompress

  // ---------------------------------------------------------------------
  // The hint record

  /** `HintResult`: each key absent (`None`) or set. */
  datatype Hints = Hints(docType: Option<string>, side: Option<string>, dateISO: Option<string>)

  const NoHints := Hints(None, None, None)

  /** `Object.assign(hints, dHint, sHint)`: the keys each hint sets
      overwrite, the others are kept. */
  function Assign(h: Hints, docType: Option<string>, side: Option<string>): (r: Hints)
    ensures r.docType == (if docType.Some? then docType else h.docType)
    ensures r.side == (if side.Some? then side else h.side)
    ensures r.dateISO == h.dateISO
  {
    Hints(if docType.Some? then docType else h.docType, if side.Some? then side else h.side, h.dateISO)
  }

  // ---------------------------------------------------------------------
  // `\bi[sep]?NN\b`

  /** The separators of the filename rules, `[\s_-]`. */
  predicate FileSep(c: char) { IsSpace(c) || c == '_' || c == '-' }

  /** The separators of the keyword map, `[-\s]`. */
  predicate KeywordSep(c: char) { c == '-' || IsSpace(c) }

  /** `/\bi[sep]?num\b/` matches at `p`: the optional separator is tried
      first and then left out. */
  predicate FormAt(t: string, p: int, num: string, sep: char -> bool)
  {
    0 <= p < |t| && BoundaryAt(t, p) && t[p] == 'i' &&
    ((p + 1 < |t| && sep(t[p + 1]) && OccursAt(t, p + 2, num) && BoundaryAt(t, p + 2 + |num|))
     || (OccursAt(t, p + 1, num) && BoundaryAt(t, p + 1 + |num|)))
  }

  predicate ContainsForm(t: string, num: string, sep: char -> bool)
  {
    exists p | 0 <= p < |t| :: FormAt(t, p, num, sep)
  }

  // ---------------------------------------------------------------------
  // FILE_REGEX

  /** A filename rule: its test on the lower-cased name and the document
      type it names. */
  datatype Rule = Rule(test: string -> bool, docType: string)

  /** `FILE_REGEX`, in order. The names they are tested on are already
      lower case, so the `i` flag changes nothing. */
  const FileRules: seq<Rule> := [
    Rule(t => ContainsForm(t, "20", FileSep), "I-20"),
    Rule(t => ContainsForm(t, "765", FileSep), "I-765"),
    Rule(t => ContainsWord(t, "ead"), "EAD"),
    Rule(t => ContainsWord(t, "passport"), "Passport")
  ]

  /** The document type of the first rule that matches. */
  function FirstMatch(rules: seq<Rule>, t: string): (r: Option<string>)
    ensures r.None? <==> forall k :: 0 <= k < |rules| ==> !rules[k].test(t)
  {
    if rules == [] then None
    else if rules[0].test(t) then Some(rules[0].docType)
    else FirstMatch(rules[1..], t)
  }

  /** The rule at `k` decides exactly when it matches and none before it does. */
  lemma {:induction false} FirstMatchAt(rules: seq<Rule>, t: string, k: nat)
    requires k < |rules| && rules[k].test(t)
    requires forall j :: 0 <= j < k ==> !rules[j].test(t)
    ensures FirstMatch(rules, t) == Some(rules[k].docType)
  {
    if k > 0 {
      assert !rules[0].test(t);
      FirstMatchAt(rules[1..], t, k - 1);
    }
  }

  /** The document type the filename gives. */
  function FileDocType(lower: string): Option<string>
  {
    FirstMatch(FileRules, lower)
  }

  /** The filename rules in their order of precedence. */
  lemma FileDocTypeOrder(t: string)
    ensures FileDocType(t) == Some("I-20") <==> ContainsForm(t, "20", FileSep)
    ensures FileDocType(t) == Some("I-765") <==> !ContainsForm(t, "20", FileSep) && ContainsForm(t, "765", FileSep)
    ensures FileDocType(t) == Some("EAD") <==>
      !ContainsForm(t, "20", FileSep) && !ContainsForm(t, "765", FileSep) && ContainsWord(t, "ead")
    ensures FileDocType(t) == Some("Passport") <==>
      !ContainsForm(t, "20", FileSep) && !ContainsForm(t, "765", FileSep) && !ContainsWord(t, "ead")
      && ContainsWord(t, "passport")
  {
    var r := FileRules;
    assert r[0].test(t) == ContainsForm(t, "20", FileSep);
    assert r[1].test(t) == ContainsForm(t, "765", FileSep);
    assert r[2].test(t) == ContainsWord(t, "ead");
    assert r[3].test(t) == ContainsWord(t, "passport");
    if r[0].test(t) {
      FirstMatchAt(r, t, 0);
    } else if r[1].test(t) {
      FirstMatchAt(r, t, 1);
    } else if r[2].test(t) {
      FirstMatchAt(r, t, 2);
    } else if r[3].test(t) {
      FirstMatchAt(r, t, 3);
    }
  }

  // ---------------------------------------------------------------------
  // sideFromName

  /** `/\bpassport[_-]?w\b/` matches at `p`. */
  predicate PassportSideAt(t: string, p: int, w: string)
  {
    0 <= p <= |t| && BoundaryAt(t, p) && OccursAt(t, p, "passport") &&
    ((p + 8 < |t| && (t[p + 8] == '_' || t[p + 8] == '-') && OccursAt(t, p + 9, w) && BoundaryAt(t, p + 9 + |w|))
     || (OccursAt(t, p + 8, w) && BoundaryAt(t, p + 8 + |w|)))
  }

  predicate ContainsPassportSide(t: string, w: string)
  {
    exists p | 0 <= p < |t| :: PassportSideAt(t, p, w)
  }

  predicate BackWord(n: string) { ContainsWord(n, "back") || ContainsWord(n, "verso") }
  predicate FrontWord(n: string) { ContainsWord(n, "front") || ContainsWord(n, "recto") }

  /** `sideFromName(name)`: the back words first, then the front words,
      then the `passport_back` and `passport_front` forms. */
  function SideFromName(name: string): (side: Option<string>)
    ensures side == Some("Back") <==>
      BackWord(ToLower(name)) || (!FrontWord(ToLower(name)) && ContainsPassportSide(ToLower(name), "back"))
    ensures side == Some("Front") <==>
      !BackWord(ToLower(name)) &&
      (FrontWord(ToLower(name)) || (!ContainsPassportSide(ToLower(name), "back") && ContainsPassportSide(ToLower(name), "front")))
    ensures side.None? || side == Some("Back") || side == Some("Front")
  {
    var n := ToLower(name);
    if BackWord(n) then Some("Back")
    else if FrontWord(n) then Some("Front")
    else if ContainsPassportSide(n, "back") then Some("Back")
    else if ContainsPassportSide(n, "front") then Some("Front")
    else None
  }

  lemma WordContains(t: string, w: string)
    requires ContainsWord(t, w)
    ensures Contains(t, w)
  {
    var p :| 0 <= p <= |t| - |w| && WordAt(t, p, w);
    ContainsAt(t, p, w);
  }

  lemma PassportSideContains(t: string, w: string)
    requires ContainsPassportSide(t, w)
    ensures Contains(t, w)
  {
    var p :| 0 <= p < |t| && PassportSideAt(t, p, w);
    if p + 8 < |t| && (t[p + 8] == '_' || t[p + 8] == '-') && OccursAt(t, p + 9, w) {
      ContainsAt(t, p + 9, w);
    } else {
      ContainsAt(t, p + 8, w);
    }
  }

  /** A side read from the name by whole words is one the looser substring
      test of `pickSideFromName` also sees: `Back` comes from a name that
      mentions a back word, `Front` from one that mentions a front word. */
  lemma SideFromNameSeenBySubstrings(name: string)
    ensures SideFromName(name) == Some("Back") ==> Format.NamesBack(ToLower(name))
    ensures SideFromName(name) == Some("Front") ==> Format.NamesFront(ToLower(name))
  {
    var n := ToLower(name);
    if ContainsWord(n, "back") { WordContains(n, "back"); }
    if ContainsWord(n, "verso") { WordContains(n, "verso"); }
    if ContainsWord(n, "front") { WordContains(n, "front"); }
    if ContainsWord(n, "recto") { WordContains(n, "recto"); }
    if ContainsPassportSide(n, "back") { PassportSideContains(n, "back"); }
    if ContainsPassportSide(n, "front") { PassportSideContains(n, "front"); }
  }

  // ---------------------------------------------------------------------
  // mapKeywordsToDoc and mapKeywordsToSide

  /** `mapKeywordsToDoc(text)`: passport, then I-20, then I-765, then EAD. */
  function KeywordsToDoc(text: string): (r: Option<string>)
    ensures r == Some("Passport") <==> ContainsWord(ToLower(text), "passport")
    ensures r == Some("I-20") <==>
      !ContainsWord(ToLower(text), "passport") && ContainsForm(ToLower(text), "20", KeywordSep)
    ensures r == Some("I-765") <==>
      !ContainsWord(ToLower(text), "passport") && !ContainsForm(ToLower(text), "20", KeywordSep)
      && ContainsForm(ToLower(text), "765", KeywordSep)
    ensures r.None? <==>
      !ContainsWord(ToLower(text), "passport") && !ContainsForm(ToLower(text), "20", KeywordSep)
      && !ContainsForm(ToLower(text), "765", KeywordSep)
      && !ContainsWord(ToLower(text), "ead") && !Contains(ToLower(text), "employment authorization document")
    ensures r.Some? ==> r.value in {"Passport", "I-20", "I-765", "EAD"}
  {
    var t := ToLower(text);
    if ContainsWord(t, "passport") then Some("Passport")
    else if ContainsForm(t, "20", KeywordSep) then Some("I-20")
    else if ContainsForm(t, "765", KeywordSep) then Some("I-765")
    else if ContainsWord(t, "ead") || Contains(t, "employment authorization document") then Some("EAD")
    else None
  }

  /** The front markers, tested case-insensitively on the text. */
  predicate FrontMarker(text: string)
  {
    var t := ToLower(text);
    Contains(t, "united states of america") || Contains(t, "department of state") || Contains(t, "passport")
  }

  /** The back markers: `<<<` as written, the words case-insensitively. */
  predicate BackMarker(text: string)
  {
    Contains(text, "<<<") || Contains(ToLower(text), "machine readable zone") || Contains(ToLower(text), "mrz")
  }

  /** `mapKeywordsToSide(text)`: a front marker wins over a back marker. */
  function KeywordsToSide(text: string): (r: Option<string>)
    ensures r == Some("Front") <==> FrontMarker(text)
    ensures r == Some("Back") <==> !FrontMarker(text) && BackMarker(text)
    ensures r.None? <==> !FrontMarker(text) && !BackMarker(text)
  {
    if FrontMarker(text) then Some("Front")
    else if BackMarker(text) then Some("Back")
    else None
  }

  // ---------------------------------------------------------------------
  // exifDateISO

  /** The two date tags the reader may return, each with its description. */
  datatype ExifTags = ExifTags(dateTimeOriginal: Option<string>, createDate: Option<string>)

  predicate AllDigits(s: string) { forall i :: 0 <= i < |s| ==> IsDigit(s[i]) }

  /** `/^(\d{4}):?(\d{2}):?(\d{2})/`: an optional colon after the year and
      after the month. A colon that is there is always taken, since the
      digit that would have to follow instead cannot be a colon. */
  function ExifDate(d: string): (r: Option<string>)
    ensures r.Some? ==>
      (|r.value| == 10 && r.value[4] == '-' && r.value[7] == '-'
       && AllDigits(r.value[..4]) && AllDigits(r.value[5..7]) && AllDigits(r.value[8..]))
  {
    if |d| < 4 || !AllDigits(d[..4]) then None
    else
      var p := if 4 < |d| && d[4] == ':' then 5 else 4;
      if |d| < p + 2 || !AllDigits(d[p..p + 2]) then None
      else
        var q := if p + 2 < |d| && d[p + 2] == ':' then p + 3 else p + 2;
        if |d| < q + 2 || !AllDigits(d[q..q + 2]) then None
        else
          var r := d[..4] + "-" + d[p..p + 2] + "-" + d[q..q + 2];
          assert r[..4] == d[..4] && r[5..7] == d[p..p + 2] && r[8..] == d[q..q + 2];
          Some(r)
  }

  /** `""` or `":"`: a separator the date pattern accepts. */
  function Colon(present: bool): (c: string)
    ensures |c| <= 1 && (present <==> c == ":")
  {
    if present then ":" else ""
  }

  /** Every EXIF form `YYYY[:]MM[:]DD...`, with or without each of the two
      colons, becomes `YYYY-MM-DD`. */
  lemma ExifForms(y: string, m: string, dd: string, rest: string, c1: bool, c2: bool)
    requires |y| == 4 && |m| == 2 && |dd| == 2 && AllDigits(y) && AllDigits(m) && AllDigits(dd)
    ensures ExifDate(y + Colon(c1) + m + Colon(c2) + dd + rest) == Some(y + "-" + m + "-" + dd)
  {
    var s := y + Colon(c1) + m + Colon(c2) + dd + rest;
    var p := 4 + |Colon(c1)|;
    var q := p + 2 + |Colon(c2)|;
    assert s[..4] == y && s[p..p + 2] == m && s[q..q + 2] == dd;
    assert s[4] == (if c1 then ':' else m[0]);
    assert s[p + 2] == (if c2 then ':' else dd[0]);
    assert IsDigit(m[0]) && IsDigit(dd[0]);
  }

  /** The date of an image's EXIF tags: the original time, else the creation
      time; `None` for other files, unreadable tags and unmatched dates. */
  function ExifDateISO(file: File, readExif: seq<byte> -> Option<ExifTags>): (r: Option<string>)
    ensures !StartsWith(file.mime, "image/") ==> r.None?
    ensures r.Some? ==> |r.value| == 10
  {
    if !StartsWith(file.mime, "image/") then None
    else
      match readExif(file.content)
      case None => None
      case Some(tags) =>
        var d :=
          if tags.dateTimeOriginal.Some? && tags.dateTimeOriginal.value != "" then tags.dateTimeOriginal.value
          else if tags.createDate.Some? then tags.createDate.value
          else "";
        if d == "" then None else ExifDate(d)
  }

  // ---------------------------------------------------------------------
  // inferHints

  /** The OCR engine, the EXIF reader and today's date. */
  datatype HintEnv = HintEnv(recognize: File -> Option<string>, readExif: seq<byte> -> Option<ExifTags>, today: string)

  /** Files up to this size, exclusive, are read for text. */
  const OcrLimit: nat := 5 * 1024 * 1024

  /** The text the keyword maps read: the recognised text of an image, the
      printable projection of a PDF; `None` when nothing is read. */
  function TextOf(file: File, ocr: bool, env: HintEnv): Option<string>
  {
    if !(ocr && file.Size() < OcrLimit) then None
    else if StartsWith(file.mime, "image/") then env.recognize(file)
    else if file.mime == PdfMime then Some(PdfCompress.ScanText(file.content))
    else None
  }

  /** The hints of the name and the EXIF date alone. */
  function NameHints(file: File, env: HintEnv): Hints
  {
    var lower := ToLower(file.name);
    var ex := ExifDateISO(file, env.readExif);
    Hints(FileDocType(lower), SideFromName(lower), if ex.Some? then ex else Some(env.today))
  }

  /** `inferHints(file, opts)`. */
  function InferredHints(file: File, ocr: bool, env: HintEnv): Hints
  {
    var h := NameHints(file, env);
    match TextOf(file, ocr, env)
    case None => h
    case Some(text) => Assign(h, KeywordsToDoc(text), KeywordsToSide(text))
  }

  /** `inferHints`, step by step: the first filename rule that matches, the
      side word, the EXIF date or today's, then the keywords of the text. */
  method InferHints(file: File, ocr: bool, env: HintEnv) returns (hints: Hints)
    ensures hints == InferredHints(file, ocr, env)
  {
    hints := NoHints;
    var lower := ToLower(file.name);
    var k := 0;
    while k < |FileRules|
      invariant 0 <= k <= |FileRules|
      invariant hints == NoHints
      invariant forall j :: 0 <= j < k ==> !FileRules[j].test(lower)
    {
      if FileRules[k].test(lower) {
        FirstMatchAt(FileRules, lower, k);
        hints := hints.(docType := Some(FileRules[k].docType));
        break;
      }
      k := k + 1;
    }
    var sideName := SideFromName(lower);
    if sideName.Some? {
      hints := hints.(side := sideName);
    }
    var ex := ExifDateISO(file, env.readExif);
    if ex.Some? {
      hints := hints.(dateISO := ex);
    }
    if hints.dateISO.None? {
      hints := hints.(dateISO := Some(env.today));
    }
    var canOcr := ocr && file.Size() < OcrLimit;
    if canOcr {
      if StartsWith(file.mime, "image/") {
        var text := env.recognize(file);
        if text.Some? {
          hints := Assign(hints, KeywordsToDoc(text.value), KeywordsToSide(text.value));
        }
      } else if file.mime == PdfMime {
        var text := PdfCompress.ScanText(file.content);
        hints := Assign(hints, KeywordsToDoc(text), KeywordsToSide(text));
      }
    }
  }

  // ---------------------------------------------------------------------
  // Properties of inferHints

  /** The date is always set: the EXIF date of an image when it has one,
      else today's. */
  lemma DateAlwaysSet(file: File, ocr: bool, env: HintEnv)
    ensures InferredHints(file, ocr, env).dateISO.Some?
    ensures InferredHints(file, ocr, env).dateISO ==
      if ExifDateISO(file, env.readExif).Some? then ExifDateISO(file, env.readExif) else Some(env.today)
  {
  }

  /** The keywords of the text overwrite what the name gave, key by key. */
  lemma TextOverridesName(file: File, ocr: bool, env: HintEnv)
    requires TextOf(file, ocr, env).Some?
    ensures var text := TextOf(file, ocr, env).value;
      var h := InferredHints(file, ocr, env);
      (KeywordsToDoc(text).Some? ==> h.docType == KeywordsToDoc(text))
      && (KeywordsToDoc(text).None? ==> h.docType == FileDocType(ToLower(file.name)))
      && (KeywordsToSide(text).Some? ==> h.side == KeywordsToSide(text))
      && (KeywordsToSide(text).None? ==> h.side == SideFromName(ToLower(file.name)))
  {
  }

  /** Without OCR, for large files, and for files that are neither images
      nor exactly `application/pdf`, only the name and EXIF count. */
  lemma NoTextNoKeywords(file: File, ocr: bool, env: HintEnv)
    requires !ocr || file.Size() >= OcrLimit || (!StartsWith(file.mime, "image/") && file.mime != PdfMime)
    ensures InferredHints(file, ocr, env) == NameHints(file, env)
  {
  }

  /** A PDF is scanned only up to the scan limit: its tail never changes
      the hints. */
  lemma PdfTailIgnored(name: string, content: seq<byte>, extra: seq<byte>, ocr: bool, env: HintEnv)
    requires |content| >= PdfCompress.ScanLimit
    ensures InferredHints(File(name, PdfMime, content + extra), ocr && |content + extra| < OcrLimit, env)
         == InferredHints(File(name, PdfMime, content), ocr && |content + extra| < OcrLimit, env)
  {
    assert (content + extra)[..PdfCompress.ScanLimit] == content[..PdfCompress.ScanLimit];
    assert PdfCompress.ScanText(content + extra) == PdfCompress.ScanText(content);
    assert !StartsWith(PdfMime, "image/") by {
      assert PdfMime[..6] != "image/" by { assert PdfMime[0] == 'a'; }
    }
  }
}
