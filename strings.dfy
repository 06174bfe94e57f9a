/** The JavaScript string and regular-expression primitives the pipeline is
    built from, stated on `seq<char>`: character classes (`\d`, `\w`, `\s`,
    `\b`), ASCII case mapping, prefix/suffix/substring tests, the effect of a
    global `replace(/X+/g, r)` on maximal runs, `trim`, `split`/`join`,
    `replaceAll` and `String(n)` for naturals. */
module Strings {
  import opened Base

  // ---------------------------------------------------------------------
  // Character classes

  predicate IsAsciiUpper(c: char) { 'A' <= c <= 'Z' }
  predicate IsAsciiLower(c: char) { 'a' <= c <= 'z' }
  /** `\d` (always ASCII in JavaScript). */
  predicate IsDigit(c: char) { '0' <= c <= '9' }
  /** `\w`, the characters a `\b` word boundary is defined by. */
  predicate IsWordChar(c: char) { IsAsciiUpper(c) || IsAsciiLower(c) || IsDigit(c) || c == '_' }
  /** The characters `.` does not match. */
  predicate IsLineTerminator(c: char) { c == '\n' || c == '\r' || c == '\U{2028}' || c == '\U{2029}' }
  /** `\s`, which is also the set `String.prototype.trim` removes. */
  predicate IsSpace(c: char)
  {
    c == '\t' || c == '\n' || c == '\U{B}' || c == '\U{C}' || c == '\r' || c == ' '
    || c == '\U{A0}' || c == '\U{1680}' || ('\U{2000}' <= c <= '\U{200A}')
    || c == '\U{2028}' || c == '\U{2029}' || c == '\U{202F}' || c == '\U{205F}'
    || c == '\U{3000}' || c == '\U{FEFF}'
  }

  // ---------------------------------------------------------------------
  // Case mapping (ASCII letters only)

  function LowerChar(c: char): char { if IsAsciiUpper(c) then (c as int + 32) as char else c }
  function UpperChar(c: char): char { if IsAsciiLower(c) then (c as int - 32) as char else c }

  function ToLower(s: string): (r: string)
    ensures |r| == |s|
    ensures forall i :: 0 <= i < |s| ==> r[i] == LowerChar(s[i])
  {
    seq(|s|, i requires 0 <= i < |s| => LowerChar(s[i]))
  }

  function ToUpper(s: string): (r: string)
    ensures |r| == |s|
    ensures forall i :: 0 <= i < |s| ==> r[i] == UpperChar(s[i])
  {
    seq(|s|, i requires 0 <= i < |s| => UpperChar(s[i]))
  }

  /** A string without upper-case ASCII letters is its own lower case. */
  lemma ToLowerFixed(s: string)
    requires forall i :: 0 <= i < |s| ==> !IsAsciiUpper(s[i])
    ensures ToLower(s) == s
  {
  }

  /** Upper-casing loses nothing that lower-casing keeps: both fold a
      string to the same case-insensitive key. */
  lemma UpperThenLower(s: string)
    ensures ToLower(ToUpper(s)) == ToLower(s)
    ensures forall i :: 0 <= i < |s| ==> !IsAsciiLower(ToUpper(s)[i])
  {
  }

  // ---------------------------------------------------------------------
  // Prefixes, suffixes, substrings and whole words

  predicate StartsWith(s: string, p: string) { |p| <= |s| && s[..|p|] == p }
  predicate EndsWith(s: string, p: string) { |p| <= |s| && s[|s| - |p|..] == p }
  /** `/p$/i.test(s)` and `s.toLowerCase().endsWith(p)` for a lower-case `p`. */
  predicate EndsWithCI(s: string, p: string) { EndsWith(ToLower(s), ToLower(p)) }

  predicate OccursAt(s: string, p: int, t: string) { 0 <= p && p + |t| <= |s| && s[p..p + |t|] == t }
  /** `s.includes(t)`, and `/t/.test(s)` for a literal `t`. */
  predicate Contains(s: string, t: string) { exists p | 0 <= p <= |s| - |t| :: OccursAt(s, p, t) }
  /** `/t/i.test(s)` for a literal `t` of ASCII characters. */
  predicate ContainsCI(s: string, t: string) { Contains(ToLower(s), ToLower(t)) }

  /** `\b` at position `p`: exactly one of the characters around it is a word character. */
  predicate BoundaryAt(s: string, p: int)
    requires 0 <= p <= |s|
  {
    (p > 0 && IsWordChar(s[p - 1])) != (p < |s| && IsWordChar(s[p]))
  }

  /** `/\bw\b/` matches at `p`. */
  predicate WordAt(s: string, p: int, w: string)
  {
    0 <= p && p + |w| <= |s| && s[p..p + |w|] == w && BoundaryAt(s, p) && BoundaryAt(s, p + |w|)
  }

  /** `/\bw\b/.test(s)`. */
  predicate ContainsWord(s: string, w: string) { exists p | 0 <= p <= |s| - |w| :: WordAt(s, p, w) }

  lemma ContainsAt(s: string, p: int, t: string)
    requires OccursAt(s, p, t)
    ensures Contains(s, t)
  {
  }

  lemma ContainsWordAt(s: string, p: int, w: string)
    requires WordAt(s, p, w)
    ensures ContainsWord(s, w)
  {
  }

  // ---------------------------------------------------------------------
  // Runs of a character class: `replace(/X+/g, r)`, `replace(/^X+|X+$/g, '')`, trim

  /** Length of the run of `p`-characters that `s` starts with. */
  function LeadingRun(s: string, p: char -> bool): (n: nat)
    ensures n <= |s|
    ensures forall i :: 0 <= i < n ==> p(s[i])
    ensures n == |s| || !p(s[n])
    ensures |s| > 0 && p(s[0]) ==> n > 0
  {
    if |s| > 0 && p(s[0]) then 1 + LeadingRun(s[1..], p) else 0
  }

  /** Length of the run of `p`-characters that `s` ends with. */
  function TrailingRun(s: string, p: char -> bool): (n: nat)
    ensures n <= |s|
    ensures forall i :: |s| - n <= i < |s| ==> p(s[i])
    ensures n == |s| || !p(s[|s| - 1 - n])
  {
    if |s| > 0 && p(s[|s| - 1]) then 1 + TrailingRun(s[..|s| - 1], p) else 0
  }

  /** `s.replace(/X+/g, rep)` where `X` is the class `p`: every maximal run
      of `p`-characters is replaced by `rep`; all other characters stay. */
  function ReplaceRuns(s: string, p: char -> bool, rep: string): string
    decreases |s|
  {
    if s == [] then []
    else if p(s[0]) then rep + ReplaceRuns(s[LeadingRun(s, p)..], p, rep)
    else [s[0]] + ReplaceRuns(s[1..], p, rep)
  }

  /** Every character of the result is a character of `rep`, or a character
      of the input outside the class. */
  lemma {:induction false} ReplaceRunsChars(s: string, p: char -> bool, rep: string)
    ensures forall c :: c in ReplaceRuns(s, p, rep) ==> c in rep || (c in s && !p(c))
    decreases |s|
  {
    if s == [] {
    } else if p(s[0]) {
      var rest := s[LeadingRun(s, p)..];
      ReplaceRunsChars(rest, p, rep);
      forall c | c in rest ensures c in s {
        var k :| 0 <= k < |rest| && rest[k] == c;
        assert s[LeadingRun(s, p) + k] == c;
      }
    } else {
      ReplaceRunsChars(s[1..], p, rep);
      forall c | c in s[1..] ensures c in s {
        var k :| 0 <= k < |s[1..]| && s[1..][k] == c;
        assert s[k + 1] == c;
      }
    }
  }

  /** A one-character replacement never lengthens the string. */
  lemma {:induction false} ReplaceRunsShorter(s: string, p: char -> bool, rep: string)
    requires |rep| <= 1
    ensures |ReplaceRuns(s, p, rep)| <= |s|
    decreases |s|
  {
    if s == [] {
    } else if p(s[0]) {
      ReplaceRunsShorter(s[LeadingRun(s, p)..], p, rep);
    } else {
      ReplaceRunsShorter(s[1..], p, rep);
    }
  }

  /** The result starts with `rep` when `s` starts inside a run, and with
      `s[0]` otherwise. */
  lemma ReplaceRunsHead(s: string, p: char -> bool, x: char)
    requires s != []
    ensures ReplaceRuns(s, p, [x]) != []
    ensures ReplaceRuns(s, p, [x])[0] == if p(s[0]) then x else s[0]
  {
  }

  /** With a single replacement character from the class itself, the result
      never holds two class characters side by side (`s.replace(/_+/g, '_')`
      leaves no `__`). */
  lemma {:induction false} ReplaceRunsNoAdjacent(s: string, p: char -> bool, x: char)
    requires p(x)
    ensures forall i :: 0 <= i < |ReplaceRuns(s, p, [x])| - 1 ==>
              !(p(ReplaceRuns(s, p, [x])[i]) && p(ReplaceRuns(s, p, [x])[i + 1]))
    decreases |s|
  {
    if s == [] {
    } else if p(s[0]) {
      var rest := s[LeadingRun(s, p)..];
      ReplaceRunsNoAdjacent(rest, p, x);
      if rest != [] {
        ReplaceRunsHead(rest, p, x);
      }
    } else {
      ReplaceRunsNoAdjacent(s[1..], p, x);
    }
  }

  /** A string whose class characters are isolated copies of the
      replacement character is left unchanged. */
  lemma {:induction false} ReplaceRunsFixed(s: string, p: char -> bool, x: char)
    requires p(x)
    requires forall i :: 0 <= i < |s| && p(s[i]) ==> s[i] == x
    requires forall i :: 0 <= i < |s| - 1 ==> !(p(s[i]) && p(s[i + 1]))
    ensures ReplaceRuns(s, p, [x]) == s
    decreases |s|
  {
    if s == [] {
    } else if p(s[0]) {
      assert LeadingRun(s, p) == 1 by {
        if |s| > 1 {
          assert !p(s[1]);
          assert LeadingRun(s[1..], p) == 0;
        }
      }
      ReplaceRunsFixed(s[1..], p, x);
      assert [s[0]] + s[1..] == s;
    } else {
      ReplaceRunsFixed(s[1..], p, x);
      assert [s[0]] + s[1..] == s;
    }
  }

  /** A property every replacement character has, and every input
      character outside the class has, holds of every result character. */
  lemma {:induction false} ReplaceRunsPreserves(s: string, p: char -> bool, rep: string, q: char -> bool)
    requires forall i :: 0 <= i < |rep| ==> q(rep[i])
    requires forall i :: 0 <= i < |s| ==> p(s[i]) || q(s[i])
    ensures forall i :: 0 <= i < |ReplaceRuns(s, p, rep)| ==> q(ReplaceRuns(s, p, rep)[i])
    decreases |s|
  {
    if s == [] {
    } else if p(s[0]) {
      var k := LeadingRun(s, p);
      var rest := s[k..];
      assert forall i :: 0 <= i < |rest| ==> rest[i] == s[k + i];
      ReplaceRunsPreserves(rest, p, rep, q);
    } else {
      assert forall i :: 0 <= i < |s[1..]| ==> s[1..][i] == s[i + 1];
      ReplaceRunsPreserves(s[1..], p, rep, q);
    }
  }

  /** A string without class characters is left unchanged. */
  lemma {:induction false} ReplaceRunsNone(s: string, p: char -> bool, rep: string)
    requires forall i :: 0 <= i < |s| ==> !p(s[i])
    ensures ReplaceRuns(s, p, rep) == s
    decreases |s|
  {
    if s != [] {
      ReplaceRunsNone(s[1..], p, rep);
      assert [s[0]] + s[1..] == s;
    }
  }

  /** `s.replace(/^X+|X+$/g, '')`: the slice of `s` between its leading and
      trailing runs of the class. */
  function TrimBy(s: string, p: char -> bool): (r: string)
    ensures |r| <= |s|
    ensures LeadingRun(s, p) + |r| <= |s| && r == s[LeadingRun(s, p)..LeadingRun(s, p) + |r|]
    ensures r == [] || (!p(r[0]) && !p(r[|r| - 1]))
    ensures r == [] <==> forall i :: 0 <= i < |s| ==> p(s[i])
  {
    var a := LeadingRun(s, p);
    var rest := s[a..];
    var t := TrailingRun(rest, p);
    assert t < |rest| ==> !p(rest[|rest| - 1 - t]);
    rest[..|rest| - t]
  }

  /** The trimmed string is the slice that starts after the leading run. */
  lemma TrimBySlice(s: string, p: char -> bool)
    ensures forall i :: 0 <= i < |TrimBy(s, p)| ==> TrimBy(s, p)[i] == s[LeadingRun(s, p) + i]
  {
  }

  /** Trimming a string that neither starts nor ends in the class changes nothing. */
  lemma TrimByClean(s: string, p: char -> bool)
    requires s == [] || (!p(s[0]) && !p(s[|s| - 1]))
    ensures TrimBy(s, p) == s
  {
    assert LeadingRun(s, p) == 0;
    assert TrailingRun(s, p) == 0;
  }

  /** `s.trim()`. */
  function Trim(s: string): (r: string)
    ensures |r| <= |s|
    ensures r == [] || (!IsSpace(r[0]) && !IsSpace(r[|r| - 1]))
    ensures r == [] <==> forall i :: 0 <= i < |s| ==> IsSpace(s[i])
  {
    TrimBy(s, IsSpace)
  }

  /** `v.trim().length > 0`: the string has a non-whitespace character. */
  predicate HasContent(v: string) { Trim(v) != [] }

  lemma TrimNoSpace(s: string)
    requires forall i :: 0 <= i < |s| ==> !IsSpace(s[i])
    ensures Trim(s) == s
  {
    assert LeadingRun(s, IsSpace) == 0;
    assert TrailingRun(s, IsSpace) == 0;
  }

  // ---------------------------------------------------------------------
  // split, join and replaceAll with a literal separator

  /** `s.indexOf(t)`: the first occurrence of a non-empty `t`. */
  function IndexOf(s: string, t: string): (r: Option<nat>)
    requires |t| > 0
    ensures r.Some? ==> OccursAt(s, r.value, t) && forall j :: 0 <= j < r.value ==> !OccursAt(s, j, t)
    ensures r.None? ==> forall j :: !OccursAt(s, j, t)
    decreases |s|
  {
    if |s| < |t| then None
    else if s[..|t|] == t then Some(0)
    else
      var r := IndexOf(s[1..], t);
      OccursShift(s, t);
      assert !OccursAt(s, 0, t);
      if r.None? then None else Some(r.value + 1)
  }

  lemma OccursShift(s: string, t: string)
    requires |s| > 0
    ensures forall j :: 1 <= j ==> (OccursAt(s, j, t) <==> OccursAt(s[1..], j - 1, t))
  {
    forall j | 1 <= j ensures OccursAt(s, j, t) <==> OccursAt(s[1..], j - 1, t) {
      if j + |t| <= |s| {
        assert s[1..][j - 1..j - 1 + |t|] == s[j..j + |t|];
      }
    }
  }

  lemma NotContainsIndexOf(s: string, t: string)
    requires |t| > 0
    ensures !Contains(s, t) <==> IndexOf(s, t).None?
  {
    if IndexOf(s, t).Some? {
      ContainsAt(s, IndexOf(s, t).value, t);
    }
  }

  /** `s.split(t)` for a non-empty `t`. */
  function Split(s: string, t: string): (parts: seq<string>)
    requires |t| > 0
    ensures |parts| >= 1
    decreases |s|
  {
    match IndexOf(s, t)
    case None => [s]
    case Some(i) => [s[..i]] + Split(s[i + |t|..], t)
  }

  /** `parts.join(sep)`. */
  function Join(parts: seq<string>, sep: string): string
  {
    if |parts| == 0 then ""
    else if |parts| == 1 then parts[0]
    else parts[0] + sep + Join(parts[1..], sep)
  }

  /** `s.replaceAll(t, rep)` for a non-empty literal `t` and a replacement
      holding no `$` pattern. */
  function ReplaceAll(s: string, t: string, rep: string): string
    requires |t| > 0
    decreases |s|
  {
    match IndexOf(s, t)
    case None => s
    case Some(i) => s[..i] + rep + ReplaceAll(s[i + |t|..], t, rep)
  }

  /** Joining the pieces of a split with the separator gives back the string. */
  lemma {:induction false} JoinSplit(s: string, t: string)
    requires |t| > 0
    ensures Join(Split(s, t), t) == s
    decreases |s|
  {
    var r := IndexOf(s, t);
    if r.Some? {
      var i := r.value;
      var rest := s[i + |t|..];
      var parts := Split(rest, t);
      assert Split(s, t) == [s[..i]] + parts;
      JoinSplit(rest, t);
      JoinCons(s[..i], parts, t);
      assert Join(Split(s, t), t) == s[..i] + t + rest;
      assert s[..i] + t + rest == s by {
        assert s[i..i + |t|] == t;
      }
    }
  }

  lemma JoinCons(a: string, parts: seq<string>, sep: string)
    requires |parts| >= 1
    ensures Join([a] + parts, sep) == a + sep + Join(parts, sep)
  {
    assert ([a] + parts)[1..] == parts;
  }

  /** No piece of a split contains the separator. */
  lemma {:induction false} SplitPiecesClean(s: string, t: string)
    requires |t| > 0
    ensures forall k :: 0 <= k < |Split(s, t)| ==> !Contains(Split(s, t)[k], t)
    decreases |s|
  {
    var r := IndexOf(s, t);
    if r.Some? {
      var i := r.value;
      var rest := s[i + |t|..];
      SplitPiecesClean(rest, t);
      assert Split(s, t) == [s[..i]] + Split(rest, t);
      forall p | 0 <= p ensures !OccursAt(s[..i], p, t) {
        if p + |t| <= i {
          assert s[..i][p..p + |t|] == s[p..p + |t|];
          assert !OccursAt(s, p, t);
        }
      }
    }
  }

  /** `replaceAll` replaces every occurrence: it is the split of `s` at `t`
      joined back with `rep`. */
  lemma {:induction false} ReplaceAllIsSplitJoin(s: string, t: string, rep: string)
    requires |t| > 0
    ensures ReplaceAll(s, t, rep) == Join(Split(s, t), rep)
    decreases |s|
  {
    match IndexOf(s, t)
    case None =>
    case Some(i) =>
      ReplaceAllIsSplitJoin(s[i + |t|..], t, rep);
  }

  /** A string that does not occur is left untouched by `replaceAll`. */
  lemma ReplaceAllAbsent(s: string, t: string, rep: string)
    requires |t| > 0 && !Contains(s, t)
    ensures ReplaceAll(s, t, rep) == s
  {
    NotContainsIndexOf(s, t);
  }

  // ---------------------------------------------------------------------
  // String(n) for naturals, and its inverse

  function DigitChar(d: nat): char
    requires d < 10
  {
    ('0' as int + d) as char
  }

  /** `String(n)` for a non-negative integer: its decimal digits. */
  function NatToString(n: nat): (r: string)
    ensures |r| >= 1
    ensures forall i :: 0 <= i < |r| ==> IsDigit(r[i])
    ensures r[0] == '0' ==> n == 0
    decreases n
  {
    if n < 10 then [DigitChar(n)] else NatToString(n / 10) + [DigitChar(n % 10)]
  }

  /** The value of a string of decimal digits. */
  function DecimalValue(s: string): nat
    requires forall i :: 0 <= i < |s| ==> IsDigit(s[i])
  {
    if s == [] then 0
    else
      assert IsDigit(s[|s| - 1]);
      10 * DecimalValue(s[..|s| - 1]) + (s[|s| - 1] as int - '0' as int)
  }

  /** Reading the digits back gives the number: `String(n)` loses nothing. */
  lemma {:induction false} DecimalValueOfNatToString(n: nat)
    ensures DecimalValue(NatToString(n)) == n
    decreases n
  {
    if n >= 10 {
      DecimalValueOfNatToString(n / 10);
      var s := NatToString(n);
      assert s[..|s| - 1] == NatToString(n / 10);
    }
  }

  function Pow10(k: nat): nat { if k == 0 then 1 else 10 * Pow10(k - 1) }

  /** A number below 10^k has at most k digits. */
  lemma {:induction false} NatToStringLength(n: nat, k: nat)
    requires k >= 1 && n < Pow10(k)
    ensures |NatToString(n)| <= k
    decreases n
  {
    if n >= 10 {
      assert k >= 2;
      NatToStringLength(n / 10, k - 1);
    }
  }

  /** `String(n)` for any integer: a minus sign before the digits of a
      negative one. */
  function IntToString(n: int): string
  {
    if n < 0 then "-" + NatToString(-n) else NatToString(n)
  }
}
