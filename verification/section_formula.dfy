/** Normalisation of section formulas: every case-insensitive occurrence of
    `condition`, optional whitespace, `:`, optional whitespace, `(` is
    rewritten to the literal `condition:(`, scanning left to right over
    non-overlapping matches as a global regular-expression replace does. The
    pattern is written out as a small deterministic matcher. */
module SectionFormula {
  import opened Wrappers

  const KEYWORD := "condition"
  const REPLACEMENT := "condition:("

  /** The characters the regular-expression class `\s` matches: the
      ECMAScript white space and line terminator code points. */
  predicate IsRegexSpace(ch: char)
  {
    || ch == '\t' || ch == '\n' || ch == '\U{b}' || ch == '\U{c}' || ch == '\r'
    || ch == ' ' || ch == '\U{a0}' || ch == '\U{1680}' || ('\U{2000}' <= ch <= '\U{200a}')
    || ch == '\U{2028}' || ch == '\U{2029}' || ch == '\U{202f}' || ch == '\U{205f}'
    || ch == '\U{3000}' || ch == '\U{feff}'
  }

  /** ASCII lower-casing: the only case folding that can make a character
      equal to a letter of the keyword under the case-insensitive flag. */
  function ToLowerAscii(ch: char): char
  {
    if 'A' <= ch <= 'Z' then (ch as int + 32) as char else ch
  }

  /** The matcher's transition on one character from state `q`: states 0
      to 8 expect the letter KEYWORD[q] in either ASCII case, state 9 skips
      spaces and moves on at the colon, state 10 skips spaces. */
  function Step(ch: char, q: nat): (r: Option<nat>)
    requires q <= 10
    ensures r.Some? ==> q <= r.value <= 10 && r.value <= q + 1
    ensures r.Some? && q < 9 ==> ToLowerAscii(ch) == KEYWORD[q]
  {
    if q < 9 then (if ToLowerAscii(ch) == KEYWORD[q] then Some(q + 1) else None)
    else if IsRegexSpace(ch) then Some(q)
    else if q == 9 && ch == ':' then Some(10)
    else None
  }

  /** The matcher accepts in state 10 on the opening parenthesis. */
  predicate Accepts(ch: char, q: nat)
  {
    q == 10 && ch == '('
  }

  /** The matcher from state `q`: the number of characters of `s` consumed
      up to and including the accepting parenthesis, if it gets there. */
  function MatchFrom(s: string, q: nat): (r: Option<nat>)
    requires q <= 10
    ensures r.Some? ==> 11 - q <= r.value <= |s|
    decreases |s|
  {
    if s == [] then None
    else if Accepts(s[0], q) then Some(1)
    else match Step(s[0], q)
      case None => None
      case Some(q') =>
        match MatchFrom(s[1..], q')
        case None => None
        case Some(n) => Some(n + 1)
  }

  /** The length of the match starting at the beginning of `s`, if any. */
  function MatchLength(s: string): (r: Option<nat>)
    ensures r.Some? ==> 11 <= r.value <= |s|
  {
    MatchFrom(s, 0)
  }

  /** `t` is exactly one match of the pattern. */
  predicate IsMatch(t: string)
  {
    MatchLength(t) == Some(|t|)
  }

  /** A match depends only on the characters it consumes. */
  lemma {:induction false} MatchDependsOnPrefix(s: string, t: string, q: nat)
    requires q <= 10 && MatchFrom(s, q).Some?
    requires MatchFrom(s, q).value <= |t| && t[..MatchFrom(s, q).value] == s[..MatchFrom(s, q).value]
    ensures MatchFrom(t, q) == MatchFrom(s, q)
    decreases |s|
  {
    var n := MatchFrom(s, q).value;
    assert t[0] == s[0] by { assert t[..n][0] == s[..n][0]; }
    if !Accepts(s[0], q) {
      var q' := Step(s[0], q).value;
      var s', t' := s[1..], t[1..];
      assert t'[..n - 1] == s'[..n - 1] by {
        assert t'[..n - 1] == t[..n][1..];
        assert s'[..n - 1] == s[..n][1..];
      }
      MatchDependsOnPrefix(s', t', q');
    }
  }

  /** After the first letter, no transition reads a `c` or `C`. */
  lemma StepAvoidsC(ch: char, q: nat)
    requires 1 <= q <= 10 && (Accepts(ch, q) || Step(ch, q).Some?)
    ensures ch != 'c' && ch != 'C'
  {
  }

  /** After the first letter, a match consumes no `c` or `C`. */
  lemma {:induction false} MatchAvoidsC(s: string, q: nat, i: nat)
    requires 1 <= q <= 10 && MatchFrom(s, q).Some? && i < MatchFrom(s, q).value
    ensures s[i] != 'c' && s[i] != 'C'
    decreases |s|
  {
    if i == 0 {
      StepAvoidsC(s[0], q);
    } else {
      MatchAvoidsC(s[1..], Step(s[0], q).value, i - 1);
    }
  }

  lemma ReplacementMatches()
    ensures |REPLACEMENT| == 11 && IsMatch(REPLACEMENT)
  {
    var r := REPLACEMENT;
    assert r[9..] == ":(" && MatchFrom(r[9..], 9) == Some(2);
    MatchKeyword(r, 0, 11);
  }

  // ---------------------------------------------------------------------
  // The language the matcher accepts

  /** Every character of `s` from position `a` up to `b` is matched by `\s`. */
  predicate SpacesBetween(s: string, a: int, b: int)
  {
    forall i | a <= i < b :: 0 <= i < |s| && IsRegexSpace(s[i])
  }

  /** `s` starts with the keyword in any mixture of ASCII cases. */
  predicate KeywordAt(s: string)
  {
    9 <= |s| && forall i :: 0 <= i < 9 ==> ToLowerAscii(s[i]) == KEYWORD[i]
  }

  /** The first `n` characters of `s` are one occurrence of
      `condition\s*:\s*(`: the keyword, spaces, a colon at `j`, spaces and
      the opening parenthesis. */
  predicate Occurrence(s: string, n: nat)
  {
    11 <= n <= |s| && KeywordAt(s) &&
    exists j :: 9 <= j < n - 1 && SpacesBetween(s, 9, j) && s[j] == ':' && SpacesBetween(s, j + 1, n - 1) && s[n - 1] == '('
  }

  /** The matcher finds a match of length `n` exactly where the first `n`
      characters are an occurrence of the pattern. */
  lemma MatchLengthIff(s: string, n: nat)
    ensures MatchLength(s) == Some(n) <==> Occurrence(s, n)
  {
    if MatchLength(s) == Some(n) {
      MatchIsOccurrence(s);
    }
    if Occurrence(s, n) {
      OccurrenceIsMatch(s, n);
    }
  }

  lemma MatchIsOccurrence(s: string)
    requires MatchLength(s).Some?
    ensures Occurrence(s, MatchLength(s).value)
  {
    var n := MatchLength(s).value;
    KeywordFromMatch(s, 0);
    var t := s[9..];
    var j := AfterKeywordFromMatch(t);
    assert SpacesBetween(s, 9, 9 + j) && s[9 + j] == ':' && SpacesBetween(s, 9 + j + 1, n - 1) && s[n - 1] == '(';
  }

  lemma OccurrenceIsMatch(s: string, n: nat)
    requires Occurrence(s, n)
    ensures MatchLength(s) == Some(n)
  {
    var j :| 9 <= j < n - 1 && SpacesBetween(s, 9, j) && s[j] == ':' && SpacesBetween(s, j + 1, n - 1) && s[n - 1] == '(';
    var t := s[9..];
    assert SpacesBetween(t, 0, j - 9) && t[j - 9] == ':' && SpacesBetween(t, j - 8, n - 10) && t[n - 10] == '(';
    MatchAfterKeyword(t, j - 9, n - 9);
    MatchKeyword(s, 0, n);
  }

  /** From state 10, spaces then `(` are consumed up to the parenthesis. */
  lemma {:induction false} MatchAfterColon(s: string, n: nat)
    requires 1 <= n <= |s| && SpacesBetween(s, 0, n - 1) && s[n - 1] == '('
    ensures MatchFrom(s, 10) == Some(n)
    decreases n
  {
    if n > 1 {
      assert IsRegexSpace(s[0]);
      assert SpacesBetween(s[1..], 0, n - 2);
      MatchAfterColon(s[1..], n - 1);
    }
  }

  /** From state 9, spaces, the colon at `j`, spaces and `(` are consumed. */
  lemma {:induction false} MatchAfterKeyword(s: string, j: nat, n: nat)
    requires j < n - 1 && n <= |s|
    requires SpacesBetween(s, 0, j) && s[j] == ':' && SpacesBetween(s, j + 1, n - 1) && s[n - 1] == '('
    ensures MatchFrom(s, 9) == Some(n)
    decreases j
  {
    if j == 0 {
      assert SpacesBetween(s[1..], 0, n - 2);
      MatchAfterColon(s[1..], n - 1);
    } else {
      assert IsRegexSpace(s[0]);
      assert SpacesBetween(s[1..], 0, j - 1) && SpacesBetween(s[1..], j, n - 2);
      MatchAfterKeyword(s[1..], j - 1, n - 1);
    }
  }

  /** From state `q`, the rest of the keyword followed by a match from
      state 9 is a match. */
  lemma {:induction false} MatchKeyword(s: string, q: nat, n: nat)
    requires q <= 9 && 9 - q <= n && 9 - q <= |s|
    requires forall i :: 0 <= i < 9 - q ==> ToLowerAscii(s[i]) == KEYWORD[q + i]
    requires MatchFrom(s[9 - q..], 9) == Some(n - (9 - q))
    ensures MatchFrom(s, q) == Some(n)
    decreases 9 - q
  {
    if q < 9 {
      var t := s[1..];
      forall i | 0 <= i < 9 - (q + 1) ensures ToLowerAscii(t[i]) == KEYWORD[q + 1 + i] {
        assert t[i] == s[i + 1];
      }
      assert t[9 - (q + 1)..] == s[9 - q..];
      MatchKeyword(t, q + 1, n - 1);
      assert Step(s[0], q) == Some(q + 1);
    } else {
      assert s[0..] == s;
    }
  }

  /** A match from state `q` below 9 starts with the rest of the keyword. */
  lemma {:induction false} KeywordFromMatch(s: string, q: nat)
    requires q <= 9 && MatchFrom(s, q).Some?
    ensures 9 - q <= |s| && 9 - q <= MatchFrom(s, q).value
    ensures forall i :: 0 <= i < 9 - q ==> ToLowerAscii(s[i]) == KEYWORD[q + i]
    ensures MatchFrom(s[9 - q..], 9) == Some(MatchFrom(s, q).value - (9 - q))
    decreases 9 - q
  {
    if q < 9 {
      KeywordFromMatch(s[1..], q + 1);
      assert s[1..][9 - (q + 1)..] == s[9 - q..];
    } else {
      assert s[0..] == s;
    }
  }

  /** A match from state 10 is spaces and then `(`. */
  lemma {:induction false} ParenFromMatch(s: string)
    requires MatchFrom(s, 10).Some?
    ensures var n := MatchFrom(s, 10).value; SpacesBetween(s, 0, n - 1) && s[n - 1] == '('
    decreases |s|
  {
    var n := MatchFrom(s, 10).value;
    if !Accepts(s[0], 10) {
      assert IsRegexSpace(s[0]) && MatchFrom(s[1..], 10) == Some(n - 1);
      ParenFromMatch(s[1..]);
    }
  }

  /** A match from state 9 is spaces, the colon at `j`, spaces and then `(`. */
  lemma {:induction false} AfterKeywordFromMatch(s: string) returns (j: nat)
    requires MatchFrom(s, 9).Some?
    ensures var n := MatchFrom(s, 9).value;
      j < n - 1 && SpacesBetween(s, 0, j) && s[j] == ':' && SpacesBetween(s, j + 1, n - 1) && s[n - 1] == '('
    decreases |s|
  {
    var n := MatchFrom(s, 9).value;
    if Step(s[0], 9) == Some(10) {
      assert MatchFrom(s[1..], 10) == Some(n - 1);
      ParenFromMatch(s[1..]);
      j := 0;
    } else {
      assert IsRegexSpace(s[0]) && MatchFrom(s[1..], 9) == Some(n - 1);
      var j' := AfterKeywordFromMatch(s[1..]);
      j := j' + 1;
    }
  }

  // ---------------------------------------------------------------------
  // Scanning and rewriting

  /** A piece of the scanned input: a character outside every match, or the
      text of one match. */
  datatype Span = Kept(ch: char) | Matched(text: string)

  /** The input text a span came from. */
  function SourceOf(spans: seq<Span>): string
  {
    if spans == [] then []
    else (match spans[0] case Kept(ch) => [ch] case Matched(t) => t) + SourceOf(spans[1..])
  }

  /** The output text: kept characters unchanged, each match replaced. */
  function Rendered(spans: seq<Span>): string
  {
    if spans == [] then []
    else (match spans[0] case Kept(ch) => [ch] case Matched(_) => REPLACEMENT) + Rendered(spans[1..])
  }

  /** The left-to-right scan: at each position take the match there if there
      is one and continue after it, otherwise keep one character. */
  function Scan(s: string): (spans: seq<Span>)
    ensures SourceOf(spans) == s
    ensures forall i :: 0 <= i < |spans| && spans[i].Matched? ==> IsMatch(spans[i].text)
    decreases |s|
  {
    if s == [] then []
    else match MatchLength(s)
      case Some(n) =>
        MatchDependsOnPrefix(s, s[..n], 0);
        var rest := Scan(s[n..]);
        var spans := [Matched(s[..n])] + rest;
        assert spans[1..] == rest;
        assert s == s[..n] + s[n..];
        spans
      case None =>
        var rest := Scan(s[1..]);
        var spans := [Kept(s[0])] + rest;
        assert spans[1..] == rest;
        spans
  }

  /** The scan keeps a character only where no match begins: the text from
      every kept character on has no match at its start, so every match is
      taken, leftmost first, as the global flag requires. */
  lemma {:induction false} ScanTakesEveryMatch(s: string)
    ensures forall i :: 0 <= i < |Scan(s)| && Scan(s)[i].Kept? ==> MatchLength(SourceOf(Scan(s)[i..])).None?
    decreases |s|
  {
    if s != [] {
      var spans := Scan(s);
      var n := if MatchLength(s).Some? then MatchLength(s).value else 1;
      var rest := Scan(s[n..]);
      assert spans == [spans[0]] + rest;
      ScanTakesEveryMatch(s[n..]);
      forall i | 0 <= i < |spans| && spans[i].Kept?
        ensures MatchLength(SourceOf(spans[i..])).None?
      {
        if i == 0 {
          assert spans[0..] == spans;
        } else {
          assert spans[i..] == rest[i - 1..];
        }
      }
    }
  }

  /** `normalizeSectionConditionSpacing`: the global replace of every match. */
  function NormalizeSectionConditionSpacing(s: string): (r: string)
    ensures |r| <= |s|
  {
    RenderedNoLonger(Scan(s));
    Rendered(Scan(s))
  }

  /** Replacing matches never lengthens the text, because every match is at
      least as long as the replacement. */
  lemma {:induction false} RenderedNoLonger(spans: seq<Span>)
    requires forall i :: 0 <= i < |spans| && spans[i].Matched? ==> IsMatch(spans[i].text)
    ensures |Rendered(spans)| <= |SourceOf(spans)|
  {
    if spans != [] {
      assert forall i :: 0 <= i < |spans[1..]| ==> spans[1..][i] == spans[i + 1];
      RenderedNoLonger(spans[1..]);
    }
  }

  /** One step of the scan, read off the output. */
  lemma NormalizeStep(s: string)
    requires s != []
    ensures MatchLength(s).Some? ==>
      NormalizeSectionConditionSpacing(s) == REPLACEMENT + NormalizeSectionConditionSpacing(s[MatchLength(s).value..])
    ensures MatchLength(s).None? ==>
      NormalizeSectionConditionSpacing(s) == [s[0]] + NormalizeSectionConditionSpacing(s[1..])
  {
  }

  /** A text without any occurrence of the pattern is returned unchanged. */
  lemma {:induction false} NoMatchUnchanged(s: string)
    requires forall i :: 0 <= i < |s| ==> MatchLength(s[i..]).None?
    ensures NormalizeSectionConditionSpacing(s) == s
    decreases |s|
  {
    if s != [] {
      assert MatchLength(s[0..]).None?;
      assert s[0..] == s;
      NormalizeStep(s);
      forall i | 0 <= i < |s[1..]| ensures MatchLength(s[1..][i..]).None? {
        assert s[1..][i..] == s[i + 1..];
      }
      NoMatchUnchanged(s[1..]);
    }
  }

  /** The output of a text that starts with a match starts with `c`. */
  lemma FirstOutputChar(s: string)
    requires s != []
    ensures MatchLength(s).Some? ==>
      |NormalizeSectionConditionSpacing(s)| > 0 && NormalizeSectionConditionSpacing(s)[0] == 'c'
  {
  }

  /** A prefix of the output free of `c` and `C` is also a prefix of the
      input: the output differs from the input only from a replacement on,
      and every replacement starts with `c`. */
  lemma {:induction false} OutputPrefixWithoutC(s: string, k: nat)
    requires k <= |NormalizeSectionConditionSpacing(s)|
    requires forall i :: 0 <= i < k ==>
      NormalizeSectionConditionSpacing(s)[i] != 'c' && NormalizeSectionConditionSpacing(s)[i] != 'C'
    ensures k <= |s| && s[..k] == NormalizeSectionConditionSpacing(s)[..k]
    decreases |s|
  {
    if s != [] && k > 0 {
      var out := NormalizeSectionConditionSpacing(s);
      NormalizeStep(s);
      FirstOutputChar(s);
      assert out[0] != 'c';
      assert MatchLength(s).None?;
      var tail := NormalizeSectionConditionSpacing(s[1..]);
      assert out == [s[0]] + tail;
      forall i | 0 <= i < k - 1 ensures tail[i] != 'c' && tail[i] != 'C' {
        assert tail[i] == out[i + 1];
      }
      OutputPrefixWithoutC(s[1..], k - 1);
      assert s[..k] == [s[0]] + s[1..][..k - 1];
      assert out[..k] == [s[0]] + tail[..k - 1];
    }
  }

  /** A whole match stays a match of the same length whatever follows it. */
  lemma MatchExtends(m: string, tail: string)
    requires IsMatch(m)
    ensures MatchLength(m + tail) == Some(|m|)
  {
    var out := m + tail;
    assert out[..|m|] == m[..|m|];
    MatchDependsOnPrefix(m, out, 0);
  }

  /** Where the input has no match, the output has none either: a match in
      the output would have to continue past the kept character into text
      free of `c`, which the input shares. */
  lemma KeptCharacterStaysUnmatched(s: string)
    requires s != [] && MatchLength(s).None?
    ensures MatchLength([s[0]] + NormalizeSectionConditionSpacing(s[1..])).None?
  {
    var tail := NormalizeSectionConditionSpacing(s[1..]);
    var out := [s[0]] + tail;
    if MatchLength(out).Some? {
      var m := MatchLength(out).value;
      assert out[1..] == tail;
      assert Step(out[0], 0) == Some(1);
      assert MatchFrom(tail, 1) == Some(m - 1);
      forall i | 0 <= i < m - 1 ensures tail[i] != 'c' && tail[i] != 'C' {
        MatchAvoidsC(tail, 1, i);
      }
      OutputPrefixWithoutC(s[1..], m - 1);
      MatchDependsOnPrefix(tail, s[1..], 1);
      assert false;
    }
  }

  /** Normalising twice gives the same text as normalising once. */
  lemma {:induction false} NormalizeIdempotent(s: string)
    ensures NormalizeSectionConditionSpacing(NormalizeSectionConditionSpacing(s)) == NormalizeSectionConditionSpacing(s)
    decreases |s|, 1
  {
    if s == [] {
      assert Scan(s) == [];
    } else if MatchLength(s).Some? {
      IdempotentAtMatch(s);
    } else {
      IdempotentAtKept(s);
    }
  }

  lemma {:induction false} IdempotentAtMatch(s: string)
    requires s != [] && MatchLength(s).Some?
    ensures NormalizeSectionConditionSpacing(NormalizeSectionConditionSpacing(s)) == NormalizeSectionConditionSpacing(s)
    decreases |s|, 0
  {
    var n := MatchLength(s).value;
    var tail := NormalizeSectionConditionSpacing(s[n..]);
    NormalizeStep(s);
    NormalizeAfterReplacement(tail);
    NormalizeIdempotent(s[n..]);
  }

  /** The replacement text is itself a match, so normalising it again
      rewrites it to itself and carries on after it. */
  lemma NormalizeAfterReplacement(tail: string)
    ensures NormalizeSectionConditionSpacing(REPLACEMENT + tail) == REPLACEMENT + NormalizeSectionConditionSpacing(tail)
  {
    var out := REPLACEMENT + tail;
    ReplacementMatches();
    MatchExtends(REPLACEMENT, tail);
    NormalizeStep(out);
    assert out[11..] == tail;
  }

  lemma {:induction false} IdempotentAtKept(s: string)
    requires s != [] && MatchLength(s).None?
    ensures NormalizeSectionConditionSpacing(NormalizeSectionConditionSpacing(s)) == NormalizeSectionConditionSpacing(s)
    decreases |s|, 0
  {
    var tail := NormalizeSectionConditionSpacing(s[1..]);
    var out := NormalizeSectionConditionSpacing(s);
    NormalizeStep(s);
    assert out == [s[0]] + tail;
    KeptCharacterStaysUnmatched(s);
    NormalizeStep(out);
    assert out[1..] == tail;
    NormalizeIdempotent(s[1..]);
  }

  /** The output equals the input exactly when every match found is already
      written as the lowercase `condition:(` without spaces. */
  lemma FixedPointIff(s: string)
    ensures NormalizeSectionConditionSpacing(s) == s <==>
      forall i :: 0 <= i < |Scan(s)| && Scan(s)[i].Matched? ==> Scan(s)[i].text == REPLACEMENT
  {
    assert NormalizeSectionConditionSpacing(s) == Rendered(Scan(s));
    RenderedEqualsSourceIff(Scan(s));
  }

  lemma {:induction false} RenderedEqualsSourceIff(spans: seq<Span>)
    requires forall i :: 0 <= i < |spans| && spans[i].Matched? ==> IsMatch(spans[i].text)
    ensures Rendered(spans) == SourceOf(spans) <==>
      forall i :: 0 <= i < |spans| && spans[i].Matched? ==> spans[i].text == REPLACEMENT
  {
    if spans != [] {
      var rest := spans[1..];
      assert forall i :: 0 <= i < |rest| ==> rest[i] == spans[i + 1];
      RenderedEqualsSourceIff(rest);
      RenderedNoLonger(rest);
      var head := match spans[0] case Kept(ch) => [ch] case Matched(t) => t;
      var headOut := match spans[0] case Kept(ch) => [ch] case Matched(_) => REPLACEMENT;
      assert |headOut| <= |head| by {
        assert spans[0].Matched? ==> |head| >= 11;
      }
      assert Rendered(spans) == headOut + Rendered(rest);
      assert SourceOf(spans) == head + SourceOf(rest);
      if Rendered(spans) == SourceOf(spans) {
        SplitEqual(headOut, Rendered(rest), head, SourceOf(rest));
      }
    }
  }

  /** Two equal concatenations with equally long first parts have equal parts. */
  lemma SplitEqual(a: string, b: string, c: string, d: string)
    requires a + b == c + d && |a| <= |c| && |b| <= |d|
    ensures a == c && b == d
  {
    assert |a| == |c|;
    assert a == (a + b)[..|a|] && c == (c + d)[..|c|];
    assert b == (a + b)[|a|..] && d == (c + d)[|c|..];
  }

  /** Two characters equal up to ASCII case take the same transition. */
  lemma StepIgnoresCase(a: char, b: char, q: nat)
    requires q <= 10 && ToLowerAscii(a) == ToLowerAscii(b)
    ensures Step(a, q) == Step(b, q) && Accepts(a, q) == Accepts(b, q)
  {
    if a != b {
      assert ('A' <= a <= 'Z' && 'a' <= b <= 'z') || ('a' <= a <= 'z' && 'A' <= b <= 'Z');
    }
  }

  /** Whether a match starts, and how long it is, does not depend on the
      ASCII case of the text. */
  lemma {:induction false} MatchIgnoresCase(s: string, t: string, q: nat)
    requires q <= 10 && |s| == |t|
    requires forall i :: 0 <= i < |s| ==> ToLowerAscii(s[i]) == ToLowerAscii(t[i])
    ensures MatchFrom(s, q) == MatchFrom(t, q)
    decreases |s|
  {
    if s != [] {
      StepIgnoresCase(s[0], t[0], q);
      if !Accepts(s[0], q) && Step(s[0], q).Some? {
        var s', t' := s[1..], t[1..];
        assert forall i :: 0 <= i < |s'| ==> s'[i] == s[i + 1] && t'[i] == t[i + 1];
        MatchIgnoresCase(s', t', Step(s[0], q).value);
      }
    }
  }
}
