/** The filename template engine (`src/lib/template.ts`): `{{…}}`
    placeholders holding `||` fallback chains of quoted literals, field names
    and `slug(…)`/`upper(…)` calls, followed by `ensurePdf`, which sanitises
    the result into a safe `.pdf` filename of at most 119 characters.

    Field lookups go through a `lookup` function of the environment. The
    engine the rest of the model uses looks up own keys only (`OwnLookup`);
    `ObjectLookup` is the lookup as the source writes it, on a plain object
    that inherits the members of `Object.prototype` (see `RenderTemplateAsWritten`). */
module Template {
  import opened Base
  import opened Strings
  import Seqs

  // ---------------------------------------------------------------------
  // safeFilename

  /** `ILLEGAL`: U+0000–U+001F, U+007F and `<>:"/\|?*`. */
  predicate IsIllegal(c: char)
  {
    c as int <= 0x1F || c as int == 0x7F
    || c == '<' || c == '>' || c == ':' || c == '"' || c == '/' || c == '\\' || c == '|' || c == '?' || c == '*'
  }

  predicate IsBlankOrUnderscore(c: char) { c == ' ' || c == '_' }
  predicate IsUnderscore(c: char) { c == '_' }

  /** No two `x` side by side. */
  predicate NoDoubled(s: string, x: char)
  {
    forall i :: 0 <= i < |s| - 1 ==> !(s[i] == x && s[i + 1] == x)
  }

  /** What `safeFilename` guarantees of its result. */
  predicate CleanName(s: string)
  {
    && s != []
    && (forall i :: 0 <= i < |s| ==> !IsIllegal(s[i]) && !IsSpace(s[i]))
    && s[0] != '_' && s[|s| - 1] != '_'
    && NoDoubled(s, '_')
  }

  /** The first three steps of `safeFilename`: illegal runs become a
      space, whitespace runs a space, runs of spaces and underscores one `_`. */
  function CollapseBlanks(base: string): string
  {
    var s1 := ReplaceRuns(base, IsIllegal, " ");
    var s2 := ReplaceRuns(s1, IsSpace, " ");
    ReplaceRuns(s2, IsBlankOrUnderscore, "_")
  }

  /** `safeFilename(base)`: after `CollapseBlanks`, runs of `_` become one
      `_`, `_` is trimmed from both ends, and an empty result becomes
      `document`. */
  function SafeFilename(base: string): string
  {
    var s4 := ReplaceRuns(CollapseBlanks(base), IsUnderscore, "_");
    var s5 := TrimBy(s4, IsUnderscore);
    if s5 == [] then "document" else s5
  }

  predicate Legal(c: char) { !IsIllegal(c) }
  predicate LegalOrBlank(c: char) { !IsIllegal(c) && (c == ' ' || !IsSpace(c)) }
  predicate Solid(c: char) { !IsIllegal(c) && !IsSpace(c) }

  /** After the first three steps no illegal character or whitespace is
      left, and no two `_` stand side by side. */
  lemma CollapseBlanksSpec(base: string)
    ensures forall i :: 0 <= i < |CollapseBlanks(base)| ==> Solid(CollapseBlanks(base)[i])
    ensures NoDoubled(CollapseBlanks(base), '_')
    ensures |CollapseBlanks(base)| <= |base|
  {
    var s1 := ReplaceRuns(base, IsIllegal, " ");
    var s2 := ReplaceRuns(s1, IsSpace, " ");
    var s3 := ReplaceRuns(s2, IsBlankOrUnderscore, "_");
    ReplaceRunsPreserves(base, IsIllegal, " ", Legal);
    ReplaceRunsPreserves(s1, IsSpace, " ", LegalOrBlank);
    ReplaceRunsPreserves(s2, IsBlankOrUnderscore, "_", Solid);
    ReplaceRunsNoAdjacent(s2, IsBlankOrUnderscore, '_');
    ReplaceRunsShorter(base, IsIllegal, " ");
    ReplaceRunsShorter(s1, IsSpace, " ");
    ReplaceRunsShorter(s2, IsBlankOrUnderscore, "_");
  }

  /** Trimming `_` from a string of solid characters without `__` leaves
      nothing or a clean name. */
  lemma TrimUnderscoreClean(s: string)
    requires forall i :: 0 <= i < |s| ==> Solid(s[i])
    requires NoDoubled(s, '_')
    ensures TrimBy(s, IsUnderscore) == [] || CleanName(TrimBy(s, IsUnderscore))
  {
    TrimBySlice(s, IsUnderscore);
  }

  /** The result is a clean name, no longer than the input or than
      `document`. */
  lemma SafeFilenameClean(base: string)
    ensures CleanName(SafeFilename(base))
    ensures |SafeFilename(base)| <= Max(|base|, 8)
  {
    var s3 := CollapseBlanks(base);
    CollapseBlanksSpec(base);
    assert ReplaceRuns(s3, IsUnderscore, "_") == s3 by {
      ReplaceRunsFixed(s3, IsUnderscore, '_');
    }
    var s5 := TrimBy(s3, IsUnderscore);
    assert SafeFilename(base) == if s5 == [] then "document" else s5;
    TrimUnderscoreClean(s3);
    DocumentIsClean();
  }

  lemma DocumentIsClean()
    ensures CleanName("document")
  {
  }

  /** A clean name is a fixed point, so `safeFilename` is idempotent. */
  lemma SafeFilenameFixed(s: string)
    requires CleanName(s)
    ensures SafeFilename(s) == s
  {
    ReplaceRunsNone(s, IsIllegal, " ");
    ReplaceRunsNone(s, IsSpace, " ");
    ReplaceRunsFixed(s, IsBlankOrUnderscore, '_');
    ReplaceRunsFixed(s, IsUnderscore, '_');
    TrimByClean(s, IsUnderscore);
  }

  lemma SafeFilenameIdempotent(base: string)
    ensures SafeFilename(SafeFilename(base)) == SafeFilename(base)
  {
    SafeFilenameClean(base);
    SafeFilenameFixed(SafeFilename(base));
  }

  // ---------------------------------------------------------------------
  // ensurePdf

  const PdfExt: string := ".pdf"
  /** `Math.max(1, 119 - ext.length)`. */
  const MaxBase: nat := 115
  const MaxName: nat := 119

  /** A match of `/\.[^./\\]+$/` starting at `p`. */
  predicate ExtensionAt(s: string, p: int)
  {
    0 <= p < |s| - 1 && s[p] == '.' && forall i :: p < i < |s| ==> s[i] != '.' && s[i] != '/' && s[i] != '\\'
  }

  /** On a name ending in `.pdf` (any case) the extension pattern matches
      exactly the last four characters, and nowhere else. */
  lemma PdfExtensionMatch(s: string)
    requires EndsWithCI(s, PdfExt)
    ensures ExtensionAt(s, |s| - 4)
    ensures forall p :: 0 <= p < |s| - 4 ==> !ExtensionAt(s, p)
  {
    var n := |s|;
    assert ToLower(PdfExt) == PdfExt;
    assert ToLower(s)[n - 4..] == ".pdf";
    assert LowerChar(s[n - 4]) == '.' && LowerChar(s[n - 3]) == 'p';
    assert LowerChar(s[n - 2]) == 'd' && LowerChar(s[n - 1]) == 'f';
  }

  /** The base `ensurePdf` sanitises: the name without its `.pdf`
      extension when it has one, cut to 115 characters. */
  function EnsurePdfBase(name: string): (base: string)
    ensures |base| <= MaxBase
  {
    var b := if EndsWithCI(name, PdfExt) then name[..|name| - 4] else name;
    if |b| <= MaxBase then b else b[..MaxBase]
  }

  /** `ensurePdf(name)`. */
  function EnsurePdf(name: string): string
  {
    var out := SafeFilename(EnsurePdfBase(name)) + PdfExt;
    if |out| > MaxName then out[..MaxName] else out
  }

  /** The result is a clean name followed by `.pdf`, at most 119 characters
      long; the final clamp never cuts anything. */
  lemma EnsurePdfShape(name: string)
    ensures EnsurePdf(name) == SafeFilename(EnsurePdfBase(name)) + PdfExt
    ensures EndsWith(EnsurePdf(name), PdfExt) && |EnsurePdf(name)| <= MaxName
    ensures CleanName(EnsurePdf(name)[..|EnsurePdf(name)| - 4])
  {
    SafeFilenameClean(EnsurePdfBase(name));
    var r := EnsurePdf(name);
    assert r[..|r| - 4] == SafeFilename(EnsurePdfBase(name));
  }

  /** Appending `.pdf` is what the extension strip undoes. */
  lemma PdfSuffix(b: string)
    ensures EndsWithCI(b + PdfExt, PdfExt)
    ensures (b + PdfExt)[..|b|] == b
  {
    var r := b + PdfExt;
    assert ToLower(PdfExt) == PdfExt;
    assert r[|b|..] == PdfExt;
    assert ToLower(r)[|b|..] == ToLower(r[|b|..]);
  }

  lemma EnsurePdfBaseOfPdf(b: string)
    requires |b| <= MaxBase
    ensures EnsurePdfBase(b + PdfExt) == b
  {
    PdfSuffix(b);
  }

  lemma EnsurePdfIdempotent(name: string)
    ensures EnsurePdf(EnsurePdf(name)) == EnsurePdf(name)
  {
    EnsurePdfShape(name);
    var b := SafeFilename(EnsurePdfBase(name));
    SafeFilenameClean(EnsurePdfBase(name));
    EnsurePdfBaseOfPdf(b);
    SafeFilenameFixed(b);
  }

  /** A clean name not ending in `.pdf` keeps all of its characters, dots
      included, and gains the extension. */
  lemma EnsurePdfAppends(name: string)
    requires CleanName(name) && |name| <= MaxBase && !EndsWithCI(name, PdfExt)
    ensures EnsurePdf(name) == name + PdfExt
  {
    SafeFilenameFixed(name);
  }

  /** A clean name ending in `.pdf` is returned as it is. */
  lemma EnsurePdfKeeps(base: string)
    requires CleanName(base) && |base| <= MaxBase
    ensures EnsurePdf(base + PdfExt) == base + PdfExt
  {
    EnsurePdfBaseOfPdf(base);
    SafeFilenameFixed(base);
  }

  // ---------------------------------------------------------------------
  // slugify and upper

  predicate IsCombiningMark(c: char) { '\U{0300}' <= c <= '\U{036F}' }
  predicate NotCombiningMark(c: char) { !IsCombiningMark(c) }
  predicate IsSlugChar(c: char) { IsAsciiLower(c) || IsDigit(c) }
  predicate NotSlugChar(c: char) { !IsSlugChar(c) }
  predicate IsDash(c: char) { c == '-' }

  /** What `slugify` guarantees of its result: only `[a-z0-9-]`, no `-` at
      either end and no `--`. */
  predicate SlugShaped(s: string)
  {
    && (forall i :: 0 <= i < |s| ==> IsSlugChar(s[i]) || s[i] == '-')
    && (s == [] || (s[0] != '-' && s[|s| - 1] != '-'))
    && NoDoubled(s, '-')
  }

  /** `slugify(s)`: NFKD (`nfkd`), combining marks U+0300–U+036F removed,
      lower case, runs outside `[a-z0-9]` become `-`, runs of `-` one `-`,
      and `-` trimmed from both ends. */
  function Slugify(s: string, nfkd: string -> string): string
  {
    var t := ToLower(Seqs.Filter(nfkd(s), NotCombiningMark));
    var a := ReplaceRuns(t, NotSlugChar, "-");
    var b := ReplaceRuns(a, IsDash, "-");
    TrimBy(b, IsDash)
  }

  predicate SlugOrDash(c: char) { IsSlugChar(c) || c == '-' }

  /** After the first replacement only `[a-z0-9-]` is left, without `--`. */
  lemma DashRunsSpec(t: string)
    ensures forall i :: 0 <= i < |ReplaceRuns(t, NotSlugChar, "-")| ==> SlugOrDash(ReplaceRuns(t, NotSlugChar, "-")[i])
    ensures NoDoubled(ReplaceRuns(t, NotSlugChar, "-"), '-')
  {
    ReplaceRunsPreserves(t, NotSlugChar, "-", SlugOrDash);
    ReplaceRunsNoAdjacent(t, NotSlugChar, '-');
  }

  lemma TrimDashShape(s: string)
    requires forall i :: 0 <= i < |s| ==> SlugOrDash(s[i])
    requires NoDoubled(s, '-')
    ensures SlugShaped(TrimBy(s, IsDash))
  {
    TrimBySlice(s, IsDash);
  }

  lemma SlugifyShape(s: string, nfkd: string -> string)
    ensures SlugShaped(Slugify(s, nfkd))
  {
    var t := ToLower(Seqs.Filter(nfkd(s), NotCombiningMark));
    var a := ReplaceRuns(t, NotSlugChar, "-");
    DashRunsSpec(t);
    ReplaceRunsFixed(a, IsDash, '-');
    TrimDashShape(a);
  }

  /** A slug is its own slug, for an `nfkd` that leaves it alone (as NFKD
      leaves ASCII). */
  lemma SlugifyFixed(s: string, nfkd: string -> string)
    requires SlugShaped(s) && nfkd(s) == s
    ensures Slugify(s, nfkd) == s
  {
    SlugLowerFixed(s);
    ReplaceRunsFixed(s, NotSlugChar, '-');
    ReplaceRunsFixed(s, IsDash, '-');
    TrimByClean(s, IsDash);
  }

  lemma SlugLowerFixed(s: string)
    requires forall i :: 0 <= i < |s| ==> SlugOrDash(s[i])
    ensures ToLower(Seqs.Filter(s, NotCombiningMark)) == s
  {
    assert Seqs.Filter(s, NotCombiningMark) == s by {
      assert forall i :: 0 <= i < |s| ==> NotCombiningMark(s[i]);
      Seqs.FilterKeepsAll(s, NotCombiningMark);
    }
    assert ToLower(s) == s by {
      ToLowerFixed(s);
    }
  }

  // ---------------------------------------------------------------------
  // Expressions: evalAtom and evalExpr

  /** What an expression is evaluated against: the field lookup
      (`fields[key] ?? ''`, where `None` means the read produced a
      non-string and evaluation throws) and NFKD normalisation. */
  datatype Env = Env(lookup: string -> Option<string>, nfkd: string -> string)

  /** Every key reads as a string, so evaluation never throws. */
  ghost predicate Total(env: Env) { forall k :: env.lookup(k).Some? }

  predicate IsQuote(c: char) { c == '\'' || c == '"' }

  /** `atom` matches `^['"](.*)['"]$`. */
  predicate IsQuoted(atom: string)
  {
    |atom| >= 2 && IsQuote(atom[0]) && IsQuote(atom[|atom| - 1])
    && forall i :: 1 <= i < |atom| - 1 ==> !IsLineTerminator(atom[i])
  }

  /** `evalAtom(atom, fields)`. */
  function EvalAtom(atom: string, env: Env): Option<string>
  {
    if IsQuoted(atom) then Some(atom[1..|atom| - 1]) else env.lookup(Trim(atom))
  }

  /** `expr` matches `^([a-zA-Z_][a-zA-Z0-9_]*)\((.*)\)$`. */
  predicate IsCall(expr: string)
  {
    var n := LeadingRun(expr, IsWordChar);
    1 <= n && !IsDigit(expr[0]) && n + 2 <= |expr| && expr[n] == '(' && expr[|expr| - 1] == ')'
    && forall i :: n + 1 <= i < |expr| - 1 ==> !IsLineTerminator(expr[i])
  }

  /** `evalExpr(expr, fields)`: a call evaluates its trimmed argument and
      applies `slug` or `upper` (names compared in lower case); any other
      name passes the argument's value through. */
  function EvalExpr(expr: string, env: Env): (r: Option<string>)
    ensures Total(env) ==> r.Some?
    decreases |expr|
  {
    if IsCall(expr) then
      var n := LeadingRun(expr, IsWordChar);
      var fn := ToLower(expr[..n]);
      var inner := EvalExpr(Trim(expr[n + 1..|expr| - 1]), env);
      if inner.None? then None
      else if fn == "slug" then Some(Slugify(inner.value, env.nfkd))
      else if fn == "upper" then Some(ToUpper(inner.value))
      else inner
    else
      EvalAtom(expr, env)
  }

  /** A quoted literal evaluates to its text. */
  lemma QuotedLiteral(q1: char, t: string, q2: char, env: Env)
    requires IsQuote(q1) && IsQuote(q2)
    requires forall i :: 0 <= i < |t| ==> !IsLineTerminator(t[i])
    ensures EvalExpr([q1] + t + [q2], env) == Some(t)
  {
    var e := [q1] + t + [q2];
    assert LeadingRun(e, IsWordChar) == 0;
    assert e[1..|e| - 1] == t;
  }

  /** A non-empty run of word characters, as a field name is. */
  predicate IsName(key: string)
  {
    key != [] && forall i :: 0 <= i < |key| ==> IsWordChar(key[i])
  }

  /** A plain field name evaluates to its lookup. */
  lemma FieldReference(key: string, env: Env)
    requires IsName(key)
    ensures EvalExpr(key, env) == env.lookup(key)
  {
    LeadingRunAll(key, IsWordChar);
    TrimNoSpace(key);
  }

  lemma {:induction false} LeadingRunAll(s: string, p: char -> bool)
    requires forall i :: 0 <= i < |s| ==> p(s[i])
    ensures LeadingRun(s, p) == |s|
    decreases |s|
  {
    if s != [] {
      LeadingRunAll(s[1..], p);
    }
  }

  /** `name(arg)` applies `slug` or `upper` (in any letter case) to the value
      of the trimmed argument, and passes it through for any other name. */
  lemma CallEval(name: string, arg: string, env: Env)
    requires name != [] && !IsDigit(name[0]) && forall i :: 0 <= i < |name| ==> IsWordChar(name[i])
    requires forall i :: 0 <= i < |arg| ==> !IsLineTerminator(arg[i])
    ensures var inner := EvalExpr(Trim(arg), env);
      EvalExpr(name + "(" + arg + ")", env) ==
        if inner.None? then None
        else if ToLower(name) == "slug" then Some(Slugify(inner.value, env.nfkd))
        else if ToLower(name) == "upper" then Some(ToUpper(inner.value))
        else inner
  {
    CallShape(name, arg);
  }

  /** `name(arg)` is recognised as a call with that name and argument. */
  lemma CallShape(name: string, arg: string)
    requires name != [] && !IsDigit(name[0]) && forall i :: 0 <= i < |name| ==> IsWordChar(name[i])
    requires forall i :: 0 <= i < |arg| ==> !IsLineTerminator(arg[i])
    ensures var e := name + "(" + arg + ")";
      IsCall(e) && LeadingRun(e, IsWordChar) == |name| && e[..|name|] == name && e[|name| + 1..|e| - 1] == arg
  {
    var e := name + "(" + arg + ")";
    LeadingRunAll(name, IsWordChar);
    assert e == name + ("(" + arg + ")");
    LeadingRunAppend(name, "(" + arg + ")", IsWordChar);
    assert e[..|name|] == name;
    assert e[|name| + 1..|e| - 1] == arg;
  }

  lemma {:induction false} LeadingRunAppend(a: string, b: string, p: char -> bool)
    requires LeadingRun(a, p) == |a| && (b == [] || !p(b[0]))
    ensures LeadingRun(a + b, p) == |a|
    decreases |a|
  {
    if a == [] {
      assert a + b == b;
    } else {
      assert (a + b)[1..] == a[1..] + b;
      LeadingRunAppend(a[1..], b, p);
    }
  }

  // ---------------------------------------------------------------------
  // Fallback chains

  predicate NonEmpty(s: string) { s != [] }

  /** The alternatives of a placeholder: the trimmed inner text split at
      `||`, each part trimmed, empty parts dropped. */
  function Alternatives(inner: string): (alts: seq<string>)
    ensures forall a :: a in alts ==> a != []
  {
    var parts := Split(Trim(inner), "||");
    var trimmed := seq(|parts|, i requires 0 <= i < |parts| => Trim(parts[i]));
    Seqs.FilterSpec(trimmed, NonEmpty);
    Seqs.Filter(trimmed, NonEmpty)
  }

  /** The first alternative whose value has non-whitespace content, else
      `""`. */
  function FirstNonBlank(alts: seq<string>, env: Env): (r: Option<string>)
    ensures Total(env) ==> r.Some?
    ensures r.Some? ==> r.value == "" || HasContent(r.value)
  {
    if alts == [] then Some("")
    else
      var v := EvalExpr(alts[0], env);
      if v.None? then None
      else if HasContent(v.value) then v
      else FirstNonBlank(alts[1..], env)
  }

  /** The chain returns the value of the first alternative with content,
      unmodified ... */
  lemma {:induction false} FirstNonBlankPicks(alts: seq<string>, env: Env, k: nat)
    requires Total(env) && k < |alts|
    requires HasContent(EvalExpr(alts[k], env).value)
    requires forall j :: 0 <= j < k ==> !HasContent(EvalExpr(alts[j], env).value)
    ensures FirstNonBlank(alts, env) == EvalExpr(alts[k], env)
  {
    if k > 0 {
      FirstNonBlankSkips(alts, env);
      BlankPrefixShifts(alts, env, k);
      FirstNonBlankPicks(alts[1..], env, k - 1);
    }
  }

  /** A first alternative without content is passed over. */
  lemma FirstNonBlankSkips(alts: seq<string>, env: Env)
    requires Total(env) && alts != [] && !HasContent(EvalExpr(alts[0], env).value)
    ensures FirstNonBlank(alts, env) == FirstNonBlank(alts[1..], env)
  {
  }

  lemma BlankPrefixShifts(alts: seq<string>, env: Env, k: nat)
    requires Total(env) && 0 < k < |alts|
    requires forall j :: 0 <= j < k ==> !HasContent(EvalExpr(alts[j], env).value)
    ensures forall j :: 0 <= j < k - 1 ==> !HasContent(EvalExpr(alts[1..][j], env).value)
  {
    forall j | 0 <= j < k - 1 ensures !HasContent(EvalExpr(alts[1..][j], env).value) {
      assert alts[1..][j] == alts[j + 1];
    }
  }

  /** ... and `""` when no alternative has content. */
  lemma {:induction false} FirstNonBlankBlank(alts: seq<string>, env: Env)
    requires Total(env)
    requires forall j :: 0 <= j < |alts| ==> !HasContent(EvalExpr(alts[j], env).value)
    ensures FirstNonBlank(alts, env) == Some("")
  {
    if alts != [] {
      FirstNonBlankBlank(alts[1..], env);
    }
  }

  /** The value of one placeholder's inner text. */
  function Resolve(inner: string, env: Env): Option<string>
  {
    FirstNonBlank(Alternatives(inner), env)
  }

  /** A name made of word characters is its own single alternative. */
  lemma AlternativesOfName(key: string)
    requires IsName(key)
    ensures Alternatives(key) == [key]
  {
    TrimNoSpace(key);
    assert !Contains(key, "||") by {
      forall p | 0 <= p <= |key| - 2 ensures !OccursAt(key, p, "||") {
        assert IsWordChar(key[p]);
      }
    }
    NotContainsIndexOf(key, "||");
    assert Split(key, "||") == [key];
    var trimmed := seq(1, i requires 0 <= i < 1 => Trim([key][i]));
    assert trimmed == [key];
    assert Seqs.Filter(trimmed, NonEmpty) == [key] by {
      assert trimmed[1..] == [];
    }
  }

  /** A placeholder naming one field yields the field's value when it has
      content, and `""` otherwise. */
  lemma ResolveField(key: string, env: Env)
    requires IsName(key)
    ensures Resolve(key, env) ==
      if env.lookup(key).None? then None
      else if HasContent(env.lookup(key).value) then env.lookup(key) else Some("")
  {
    AlternativesOfName(key);
    FieldReference(key, env);
    assert [key][0] == key && [key][1..] == [];
    assert FirstNonBlank([], env) == Some("");
  }

  // ---------------------------------------------------------------------
  // Placeholder expansion

  predicate IsNotCloseBrace(c: char) { c != '}' }

  /** `s` starts with a match of `\{\{([^}]+)\}\}`. */
  predicate PlaceholderAt(s: string)
  {
    StartsWith(s, "{{")
    && var j := 2 + LeadingRun(s[2..], IsNotCloseBrace);
    2 < j && j + 1 < |s| && s[j + 1] == '}'
  }

  /** `template.replace(/\{\{([^}]+)\}\}/g, …)`, scanning left to right. */
  function Expand(s: string, env: Env): (r: Option<string>)
    ensures Total(env) ==> r.Some?
    decreases |s|
  {
    if s == [] then Some([])
    else if PlaceholderAt(s) then
      var j := 2 + LeadingRun(s[2..], IsNotCloseBrace);
      var v := Resolve(s[2..j], env);
      var rest := Expand(s[j + 2..], env);
      if v.None? || rest.None? then None else Some(v.value + rest.value)
    else
      var rest := Expand(s[1..], env);
      if rest.None? then None else Some([s[0]] + rest.value)
  }

  /** Outside a placeholder one character is copied. */
  lemma ExpandCopies(s: string, env: Env)
    requires s != [] && s[0] != '{'
    ensures Expand(s, env) == if Expand(s[1..], env).None? then None else Some([s[0]] + Expand(s[1..], env).value)
  {
    assert !PlaceholderAt(s) by {
      if |s| >= 2 {
        assert s[..2][0] == s[0];
      }
    }
  }

  /** Text with no `{` is copied verbatim in front of what follows. */
  lemma {:induction false} ExpandVerbatim(a: string, b: string, env: Env)
    requires forall i :: 0 <= i < |a| ==> a[i] != '{'
    ensures Expand(a + b, env) == if Expand(b, env).None? then None else Some(a + Expand(b, env).value)
    decreases |a|
  {
    if a == [] {
      assert a + b == b;
      if Expand(b, env).Some? {
        assert a + Expand(b, env).value == Expand(b, env).value;
      }
    } else {
      var s := a + b;
      assert s[0] == a[0] && s[1..] == a[1..] + b;
      ExpandCopies(s, env);
      ExpandVerbatim(a[1..], b, env);
      if Expand(b, env).Some? {
        assert [a[0]] + (a[1..] + Expand(b, env).value) == a + Expand(b, env).value;
      }
    }
  }

  /** `{{inner}}` followed by anything starts with a placeholder whose
      inner text is `inner`. */
  lemma PlaceholderShape(inner: string, b: string)
    requires inner != [] && forall i :: 0 <= i < |inner| ==> inner[i] != '}'
    ensures var s := "{{" + inner + "}}" + b;
      && PlaceholderAt(s)
      && 2 + LeadingRun(s[2..], IsNotCloseBrace) == |inner| + 2
      && s[2..|inner| + 2] == inner && s[|inner| + 4..] == b
  {
    var s := "{{" + inner + "}}" + b;
    assert s[2..] == inner + ("}}" + b);
    LeadingRunAll(inner, IsNotCloseBrace);
    LeadingRunAppend(inner, "}}" + b, IsNotCloseBrace);
    assert s[..2] == "{{";
    assert s[2..2 + |inner|] == inner;
    assert s[|inner| + 4..] == b;
  }

  /** A placeholder is replaced by the value of its inner text. */
  lemma ExpandPlaceholder(inner: string, b: string, env: Env)
    requires inner != [] && forall i :: 0 <= i < |inner| ==> inner[i] != '}'
    ensures var v := Resolve(inner, env); var rest := Expand(b, env);
      Expand("{{" + inner + "}}" + b, env) == if v.None? || rest.None? then None else Some(v.value + rest.value)
  {
    PlaceholderShape(inner, b);
  }

  // ---------------------------------------------------------------------
  // renderTemplate

  /** The fields a template is rendered against: the built-in defaults
      (`Index1 = '1'`, `DateISO = today`, `Random4 = 1000 + roll`), then
      every key of `ctx`, which wins even when its value is empty. */
  function Fields(ctx: map<string, string>, today: string, roll: nat): (f: map<string, string>)
    ensures forall k :: k in ctx ==> k in f && f[k] == ctx[k]
    ensures "Index1" in f && ("Index1" !in ctx ==> f["Index1"] == "1")
    ensures "DateISO" in f && ("DateISO" !in ctx ==> f["DateISO"] == today)
    ensures "Random4" in f && ("Random4" !in ctx ==> f["Random4"] == NatToString(1000 + roll))
    ensures "First" in f && "Last" in f && "DocType" in f && "Side" in f
    ensures ("First" !in ctx ==> f["First"] == "") && ("Last" !in ctx ==> f["Last"] == "")
    ensures ("DocType" !in ctx ==> f["DocType"] == "") && ("Side" !in ctx ==> f["Side"] == "")
    ensures forall k :: k in f ==> k in ctx || k in {"First", "Last", "DocType", "Side", "DateISO", "Random4", "Index1"}
  {
    map["First" := "", "Last" := "", "DocType" := "", "Side" := "", "DateISO" := today,
        "Random4" := NatToString(1000 + roll), "Index1" := "1"] + ctx
  }

  /** `fields[key] ?? ''` on own keys: a missing key reads as `""`. */
  function OwnLookup(fields: map<string, string>): string -> Option<string>
  {
    k => if k in fields then Some(fields[k]) else Some("")
  }

  lemma OwnLookupTotal(fields: map<string, string>, nfkd: string -> string)
    ensures Total(Env(OwnLookup(fields), nfkd))
    ensures forall k :: OwnLookup(fields)(k) == Some(if k in fields then fields[k] else "")
  {
  }

  /** `renderTemplate(template, ctx)` with today's date, the random roll
      (`Math.random() * 9000` floored) and NFKD as parameters. */
  function RenderTemplate(template: string, ctx: map<string, string>, today: string, roll: nat, nfkd: string -> string): (r: string)
    requires roll < 9000
    ensures EndsWith(r, PdfExt) && |r| <= MaxName
    ensures CleanName(r[..|r| - 4])
  {
    var env := Env(OwnLookup(Fields(ctx, today, roll)), nfkd);
    OwnLookupTotal(Fields(ctx, today, roll), nfkd);
    EnsurePdfShape(Expand(template, env).value);
    EnsurePdf(Expand(template, env).value)
  }

  lemma IndexTemplateParts()
    ensures "{{Index1}}.pdf" == "{{" + "Index1" + "}}" + PdfExt
    ensures IsName("Index1")
  {
  }

  /** A decimal numeral has content and is a clean name. */
  lemma NumeralClean(d: string)
    requires d != [] && forall i :: 0 <= i < |d| ==> IsDigit(d[i])
    ensures HasContent(d) && CleanName(d)
  {
    TrimNoSpace(d);
  }

  lemma PdfExtVerbatim(env: Env)
    ensures Expand(PdfExt, env) == Some(PdfExt)
  {
    ExpandVerbatim(PdfExt, [], env);
    assert PdfExt + [] == PdfExt;
  }

  /** `{{key}}.pdf` expands to the field's value followed by `.pdf`. */
  lemma FieldExpand(key: string, env: Env, d: string)
    requires IsName(key) && env.lookup(key) == Some(d) && HasContent(d)
    ensures Expand("{{" + key + "}}" + PdfExt, env) == Some(d + PdfExt)
  {
    ResolveField(key, env);
    ExpandPlaceholder(key, PdfExt, env);
    PdfExtVerbatim(env);
  }

  /** With template `{{Index1}}.pdf` the name is the index followed by `.pdf`. */
  lemma IndexName(ctx: map<string, string>, today: string, roll: nat, nfkd: string -> string, n: nat)
    requires roll < 9000 && n < Pow10(MaxBase)
    requires "Index1" in ctx && ctx["Index1"] == NatToString(n)
    ensures RenderTemplate("{{Index1}}.pdf", ctx, today, roll, nfkd) == NatToString(n) + PdfExt
  {
    var d := NatToString(n);
    var env := Env(OwnLookup(Fields(ctx, today, roll)), nfkd);
    NatToStringLength(n, MaxBase);
    NumeralClean(d);
    IndexTemplateParts();
    FieldExpand("Index1", env, d);
    EnsurePdfKeeps(d);
  }

  // ---------------------------------------------------------------------
  // Lookup on a plain object, as written

  /** The members every plain object inherits from `Object.prototype`. */
  const ObjectPrototypeMembers: set<string> := {
    "constructor", "hasOwnProperty", "isPrototypeOf", "propertyIsEnumerable",
    "toString", "toLocaleString", "valueOf", "__proto__",
    "__defineGetter__", "__defineSetter__", "__lookupGetter__", "__lookupSetter__" }

  /** `fields[key] ?? ''` on a plain object: an inherited member is a
      function or an object, not a string, and the caller's `val.trim()` (or
      `slugify`/`upper` on it) throws. */
  function ObjectLookup(fields: map<string, string>): string -> Option<string>
  {
    k => if k in fields then Some(fields[k]) else if k in ObjectPrototypeMembers then None else Some("")
  }

  /** `renderTemplate` as written; `None` where it throws a TypeError. */
  function RenderTemplateAsWritten(template: string, ctx: map<string, string>, today: string, roll: nat, nfkd: string -> string): (r: Option<string>)
    requires roll < 9000
    ensures r.Some? ==> r.value == RenderTemplate(template, ctx, today, roll, nfkd)
  {
    var fields := Fields(ctx, today, roll);
    var e := Expand(template, Env(ObjectLookup(fields), nfkd));
    AgreeWhereDefinedExpand(template, Env(ObjectLookup(fields), nfkd), Env(OwnLookup(fields), nfkd));
    if e.None? then None else Some(EnsurePdf(e.value))
  }

  /** `e1` reads like `e2` wherever it reads at all. */
  ghost predicate Refines(e1: Env, e2: Env)
  {
    e1.nfkd == e2.nfkd && forall k :: e1.lookup(k).Some? ==> e1.lookup(k) == e2.lookup(k)
  }

  lemma {:induction false} AgreeWhereDefinedEval(expr: string, e1: Env, e2: Env)
    requires Refines(e1, e2)
    ensures EvalExpr(expr, e1).Some? ==> EvalExpr(expr, e1) == EvalExpr(expr, e2)
    decreases |expr|
  {
    if IsCall(expr) {
      var n := LeadingRun(expr, IsWordChar);
      AgreeWhereDefinedEval(Trim(expr[n + 1..|expr| - 1]), e1, e2);
    }
  }

  lemma {:induction false} AgreeWhereDefinedChain(alts: seq<string>, e1: Env, e2: Env)
    requires Refines(e1, e2)
    ensures FirstNonBlank(alts, e1).Some? ==> FirstNonBlank(alts, e1) == FirstNonBlank(alts, e2)
  {
    if alts != [] {
      AgreeWhereDefinedEval(alts[0], e1, e2);
      AgreeWhereDefinedChain(alts[1..], e1, e2);
    }
  }

  lemma {:induction false} AgreeWhereDefinedExpand(s: string, e1: Env, e2: Env)
    requires Refines(e1, e2)
    ensures Expand(s, e1).Some? ==> Expand(s, e1) == Expand(s, e2)
    decreases |s|
  {
    if s != [] {
      if PlaceholderAt(s) {
        var j := 2 + LeadingRun(s[2..], IsNotCloseBrace);
        AgreeWhereDefinedChain(Alternatives(s[2..j]), e1, e2);
        AgreeWhereDefinedExpand(s[j + 2..], e1, e2);
      } else {
        AgreeWhereDefinedExpand(s[1..], e1, e2);
      }
    }
  }

  lemma ToStringParts()
    ensures "{{toString}}" == "{{" + "toString" + "}}" + []
    ensures IsName("toString") && "toString" in ObjectPrototypeMembers
  {
  }

  lemma EnsurePdfEmpty()
    ensures EnsurePdf("") == "document.pdf"
  {
    assert EnsurePdfBase("") == "";
    assert SafeFilename("") == "document";
  }

  /** A placeholder naming a key that reads as a non-string throws. */
  lemma ThrowingFieldExpand(key: string, env: Env)
    requires IsName(key) && env.lookup(key).None?
    ensures Expand("{{" + key + "}}" + [], env).None?
  {
    ResolveField(key, env);
    ExpandPlaceholder(key, [], env);
  }

  /** A placeholder naming a key that reads as `""` expands to nothing. */
  lemma EmptyFieldExpand(key: string, env: Env)
    requires IsName(key) && env.lookup(key) == Some("")
    ensures Expand("{{" + key + "}}" + [], env) == Some("")
  {
    calc {
      Expand("{{" + key + "}}" + [], env);
      { ExpandPlaceholder(key, [], env); }
      var v := Resolve(key, env); var rest := Expand([], env);
      if v.None? || rest.None? then None else Some(v.value + rest.value);
      { ResolveField(key, env);
        assert !HasContent(""); }
      Some("" + []);
      { assert "" + [] == ""; }
      Some("");
    }
  }

  lemma InheritedMemberReads(key: string, fields: map<string, string>)
    requires key !in fields && key in ObjectPrototypeMembers
    ensures ObjectLookup(fields)(key).None? && OwnLookup(fields)(key) == Some("")
  {
  }

  /** `renderTemplate('{{toString}}', {})` throws, where an unknown field is
      meant to read as `''` and give `document.pdf`. */
  lemma ToStringThrows(today: string, roll: nat, nfkd: string -> string)
    requires roll < 9000
    ensures RenderTemplateAsWritten("{{toString}}", map[], today, roll, nfkd).None?
    ensures RenderTemplate("{{toString}}", map[], today, roll, nfkd) == "document.pdf"
  {
    var fields := Fields(map[], today, roll);
    assert "toString" !in fields;
    ToStringParts();
    InheritedMemberReads("toString", fields);
    ThrowingFieldExpand("toString", Env(ObjectLookup(fields), nfkd));
    EmptyFieldExpand("toString", Env(OwnLookup(fields), nfkd));
    EnsurePdfEmpty();
  }
}
