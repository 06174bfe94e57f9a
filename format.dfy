/** Kind detection, size estimates and the legacy naming helpers of
    `src/lib/format.ts`: `guessKind`, `estimateCompressed`,
    `pickSideFromName`, `sanitize` and `applyTemplate`. */
module Format {
  import opened Base
  import opened Strings

  /** `guessKind(file)`. */
  function GuessKind(file: File): (k: FileKind)
    ensures k == Pdf <==> file.mime == PdfMime || EndsWith(ToLower(file.name), ".pdf")
  {
    if file.mime == PdfMime || EndsWith(ToLower(file.name), ".pdf") then Pdf else Image
  }

  // ---------------------------------------------------------------------
  // estimateCompressed, in exact arithmetic

  /** `Math.round(x)`: the integer nearest `x`, halves rounded up. */
  function RoundHalfUp(x: real): int
  {
    (x + 0.5).Floor
  }

  function MaxReal(a: real, b: real): real { if a >= b then a else b }

  /** Images are never estimated below this many bytes unless smaller. */
  const ImageFloor: nat := 60 * 1024

  /** `estimateCompressed(bytes, kind)`: for an image
      `round(max(bytes * 0.4, min(bytes, 60 KiB)))`, for a PDF
      `round(bytes * 0.85)`. */
  function EstimateCompressed(bytes: nat, kind: FileKind): int
  {
    if kind == Image then RoundHalfUp(MaxReal(0.4 * bytes as real, Min(bytes, ImageFloor) as real))
    else RoundHalfUp(0.85 * bytes as real)
  }

  /** A PDF is estimated at `17/20` of its size, rounded half up. */
  lemma EstimatePdf(bytes: nat)
    ensures var r := EstimateCompressed(bytes, Pdf);
      20 * r <= 17 * bytes + 10 < 20 * r + 20 && 0 <= r <= bytes
  {
    var x := 0.85 * bytes as real;
    var r := EstimateCompressed(bytes, Pdf);
    assert r as real <= x + 0.5 < r as real + 1.0;
    assert 20.0 * x == 17.0 * bytes as real;
  }

  /** An image up to 60 KiB is estimated at its own size; a larger one at
      two fifths of its size, but not below 60 KiB; never above its size. */
  lemma EstimateImage(bytes: nat)
    ensures var r := EstimateCompressed(bytes, Image);
      && (bytes <= ImageFloor ==> r == bytes)
      && (bytes > ImageFloor && 2 * bytes <= 5 * ImageFloor ==> r == ImageFloor)
      && (2 * bytes > 5 * ImageFloor ==> 10 * r <= 4 * bytes + 5 < 10 * r + 10)
      && Min(bytes, ImageFloor) <= r <= bytes
  {
    var x := 0.4 * bytes as real;
    var r := EstimateCompressed(bytes, Image);
    if bytes <= ImageFloor {
      assert MaxReal(x, bytes as real) == bytes as real;
    } else if 2 * bytes <= 5 * ImageFloor {
      assert MaxReal(x, ImageFloor as real) == ImageFloor as real;
    } else {
      assert MaxReal(x, ImageFloor as real) == x;
      assert r as real <= x + 0.5 < r as real + 1.0;
      assert 10.0 * x == 4.0 * bytes as real;
    }
  }

  // ---------------------------------------------------------------------
  // pickSideFromName

  predicate NamesFront(n: string) { Contains(n, "front") || Contains(n, "recto") || Contains(n, "obverse") }
  predicate NamesBack(n: string) { Contains(n, "back") || Contains(n, "verso") || Contains(n, "reverse") }

  /** `pickSideFromName(name)`: the front words are tested first, and
      `Front` is also the default. */
  function PickSideFromName(name: string): (side: string)
    ensures side == "Back" <==> !NamesFront(ToLower(name)) && NamesBack(ToLower(name))
    ensures side == "Front" || side == "Back"
  {
    var n := ToLower(name);
    if NamesFront(n) then "Front" else if NamesBack(n) then "Back" else "Front"
  }

  // ---------------------------------------------------------------------
  // sanitize

  /** `[a-z0-9_\-]` under the `i` flag. */
  predicate IsTokenChar(c: char) { IsAsciiUpper(c) || IsAsciiLower(c) || IsDigit(c) || c == '_' || c == '-' }
  predicate NotTokenChar(c: char) { !IsTokenChar(c) }
  predicate TokenOrSpace(c: char) { IsTokenChar(c) || c == ' ' }

  /** `sanitize(v)`: runs of other characters become a space, the result
      is trimmed, and whitespace runs become `_`. */
  function Sanitize(v: string): string
  {
    ReplaceRuns(Trim(ReplaceRuns(v, NotTokenChar, " ")), IsSpace, "_")
  }

  /** Every character of the result is `[A-Za-z0-9_-]`. */
  lemma SanitizeChars(v: string)
    ensures forall i :: 0 <= i < |Sanitize(v)| ==> IsTokenChar(Sanitize(v)[i])
  {
    var s1 := ReplaceRuns(v, NotTokenChar, " ");
    ReplaceRunsPreserves(v, NotTokenChar, " ", TokenOrSpace);
    var s2 := Trim(s1);
    TrimBySlice(s1, IsSpace);
    assert forall i :: 0 <= i < |s2| ==> TokenOrSpace(s2[i]);
    ReplaceRunsPreserves(s2, IsSpace, "_", IsTokenChar);
  }

  /** A string of `[A-Za-z0-9_-]` is its own sanitisation, so `sanitize`
      is idempotent. */
  lemma SanitizeFixed(v: string)
    requires forall i :: 0 <= i < |v| ==> IsTokenChar(v[i])
    ensures Sanitize(v) == v
  {
    ReplaceRunsNone(v, NotTokenChar, " ");
    TrimNoSpace(v);
    ReplaceRunsNone(v, IsSpace, "_");
  }

  lemma SanitizeIdempotent(v: string)
    ensures Sanitize(Sanitize(v)) == Sanitize(v)
  {
    SanitizeChars(v);
    SanitizeFixed(Sanitize(v));
  }

  // ---------------------------------------------------------------------
  // applyTemplate

  /** The placeholder `{{k}}` for key `k`. */
  function Token(k: string): (t: string)
    ensures |t| == |k| + 4
  {
    "{{" + k + "}}"
  }

  /** The template after substituting, in order, every entry of `ctx`
      (`Object.entries` order). */
  function SubstituteAll(tpl: string, entries: seq<(string, string)>): string
  {
    if entries == [] then tpl
    else
      var last := entries[|entries| - 1];
      ReplaceAll(SubstituteAll(tpl, entries[..|entries| - 1]), Token(last.0), Sanitize(last.1))
  }

  /** `.pdf` appended unless the name already ends in it, in any case. */
  function WithPdf(s: string): (r: string)
    ensures EndsWithCI(r, ".pdf")
    ensures EndsWithCI(s, ".pdf") ==> r == s
    ensures !EndsWithCI(s, ".pdf") ==> r == s + ".pdf"
  {
    if EndsWith(ToLower(s), ".pdf") then s
    else
      assert (s + ".pdf")[|s|..] == ".pdf";
      assert ToLower(s + ".pdf")[|s|..] == ToLower(".pdf");
      s + ".pdf"
  }

  /** `applyTemplate(tpl, ctx)`. */
  method ApplyTemplate(tpl: string, entries: seq<(string, string)>) returns (out: string)
    ensures out == WithPdf(SubstituteAll(tpl, entries))
    ensures EndsWithCI(out, ".pdf")
  {
    out := tpl;
    var i := 0;
    while i < |entries|
      invariant 0 <= i <= |entries|
      invariant out == SubstituteAll(tpl, entries[..i])
    {
      assert entries[..i + 1][..i] == entries[..i];
      out := ReplaceAll(out, Token(entries[i].0), Sanitize(entries[i].1));
      i := i + 1;
    }
    assert entries[..|entries|] == entries;
    if !EndsWith(ToLower(out), ".pdf") {
      out := out + ".pdf";
    }
  }

  /** A template holding no placeholder of any key is left as it is. */
  lemma {:induction false} SubstituteAbsent(tpl: string, entries: seq<(string, string)>)
    requires forall i :: 0 <= i < |entries| ==> !Contains(tpl, Token(entries[i].0))
    ensures SubstituteAll(tpl, entries) == tpl
  {
    if entries != [] {
      var init := entries[..|entries| - 1];
      assert forall i :: 0 <= i < |init| ==> init[i] == entries[i];
      SubstituteAbsent(tpl, init);
      ReplaceAllAbsent(tpl, Token(entries[|entries| - 1].0), Sanitize(entries[|entries| - 1].1));
    }
  }

  /** One entry replaces every occurrence of its placeholder by the
      sanitised value: the text between occurrences is kept, in order. */
  lemma SubstituteOne(tpl: string, k: string, v: string)
    ensures SubstituteAll(tpl, [(k, v)]) == Join(Split(tpl, Token(k)), Sanitize(v))
    ensures Join(Split(tpl, Token(k)), Token(k)) == tpl
  {
    assert [(k, v)][..0] == [];
    ReplaceAllIsSplitJoin(tpl, Token(k), Sanitize(v));
    JoinSplit(tpl, Token(k));
  }
}
