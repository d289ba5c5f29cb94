/**
 * The indexer's text rules: which characters make up a token, how a token is
 * lower-cased and stemmed, and which tokens a text yields.
 *
 * Text is a sequence of code points (the indexer's wide characters after
 * UTF-8 conversion). The locale's character classes and case mapping are given
 * by small tables: ASCII letters and digits, and the Russian alphabet
 * (U+0410..U+044F, Ё U+0401, ё U+0451).
 */
module Text {

  /** MAX_TOKEN_LEN: a token buffer holds at most MAX_TOKEN_LEN - 1 characters. */
  const MAX_TOKEN_LEN: nat := 64
  const MAX_TOKEN_CHARS: nat := MAX_TOKEN_LEN - 1

  const NUL: char := '\0'

  predicate IsAsciiUpper(c: char) { 'A' <= c <= 'Z' }
  predicate IsAsciiLower(c: char) { 'a' <= c <= 'z' }
  predicate IsDigit(c: char) { '0' <= c <= '9' }
  predicate IsCyrillicUpper(c: char) { '\U{0410}' <= c <= '\U{042F}' || c == '\U{0401}' }
  predicate IsCyrillicLower(c: char) { '\U{0430}' <= c <= '\U{044F}' || c == '\U{0451}' }

  /** iswalpha, over the table. */
  predicate IsAlpha(c: char) {
    IsAsciiUpper(c) || IsAsciiLower(c) || IsCyrillicUpper(c) || IsCyrillicLower(c)
  }

  /** iswalnum, over the table. */
  predicate IsAlnum(c: char) {
    IsAlpha(c) || IsDigit(c)
  }

  /** is_valid_char: iswalnum, or a Russian letter (А..Я, а..я, Ё, ё). */
  predicate IsValidChar(c: char) {
    IsAlnum(c) || ('\U{0410}' <= c <= '\U{042F}') || ('\U{0430}' <= c <= '\U{044F}') || c == '\U{0401}' || c == '\U{0451}'
  }

  /** towlower, over the table: A..Z and А..Я move by 32, Ё becomes ё, everything else stays. */
  function Lower(c: char): (r: char)
    ensures IsAlpha(c) <==> IsAlpha(r)
    ensures IsValidChar(c) <==> IsValidChar(r)
    ensures !IsAsciiUpper(r) && !IsCyrillicUpper(r)
    ensures IsAsciiLower(c) || IsCyrillicLower(c) || IsDigit(c) ==> r == c
  {
    if IsAsciiUpper(c) then (c as int + 32) as char
    else if '\U{0410}' <= c <= '\U{042F}' then (c as int + 32) as char
    else if c == '\U{0401}' then '\U{0451}'
    else c
  }

  function LowerAll(s: seq<char>): (r: seq<char>)
    ensures |r| == |s|
  {
    if s == [] then [] else LowerAll(s[..|s| - 1]) + [Lower(s[|s| - 1])]
  }

  lemma {:induction false} LowerAllAt(s: seq<char>)
    ensures forall i :: 0 <= i < |s| ==> LowerAll(s)[i] == Lower(s[i])
  {
    if s != [] {
      LowerAllAt(s[..|s| - 1]);
    }
  }

  // ------------------------------------------------------------------ stem

  const OV: seq<char> := "\U{043E}\U{0432}"          // ов
  const EV: seq<char> := "\U{0435}\U{0432}"          // ев
  const AM: seq<char> := "\U{0430}\U{043C}"          // ам
  const YOM: seq<char> := "\U{0451}\U{043C}"         // ём
  const ING: seq<char> := "ing"
  const ED: seq<char> := "ed"

  predicate EndsWith(t: seq<char>, suffix: seq<char>) {
    |suffix| <= |t| && t[|t| - |suffix|..] == suffix
  }

  /**
   * stem: the first rule that applies cuts its suffix, and no other rule is
   * tried. A rule applies when the token ends with the suffix and is longer
   * than the rule's length bound.
   */
  function Stem(t: seq<char>): (r: seq<char>)
    ensures r <= t
    ensures |t| - |r| in {0, 2, 3}
    ensures r != t ==> |r| >= 3
  {
    var n := |t|;
    if n > 4 && EndsWith(t, OV) then t[..n - 2]
    else if n > 4 && EndsWith(t, EV) then t[..n - 2]
    else if n > 4 && EndsWith(t, AM) then t[..n - 2]
    else if n > 4 && EndsWith(t, YOM) then t[..n - 2]
    else if n > 5 && EndsWith(t, ING) then t[..n - 3]
    else if n > 4 && EndsWith(t, ED) then t[..n - 2]
    else t
  }

  /** A two-character suffix, checked character by character as the buffer is. */
  lemma EndsWithTwo(token: seq<char>, n: nat, suffix: seq<char>)
    requires |suffix| == 2 && 2 <= n <= |token|
    ensures EndsWith(token[..n], suffix) <==> token[n - 2] == suffix[0] && token[n - 1] == suffix[1]
  {
    var tail := token[..n][n - 2..];
    assert tail[0] == token[n - 2] && tail[1] == token[n - 1];
    if token[n - 2] == suffix[0] && token[n - 1] == suffix[1] {
      assert tail == suffix;
    }
  }

  lemma EndsWithThree(token: seq<char>, n: nat, suffix: seq<char>)
    requires |suffix| == 3 && 3 <= n <= |token|
    ensures EndsWith(token[..n], suffix) <==> token[n - 3] == suffix[0] && token[n - 2] == suffix[1] && token[n - 1] == suffix[2]
  {
    var tail := token[..n][n - 3..];
    assert tail[0] == token[n - 3] && tail[1] == token[n - 2] && tail[2] == token[n - 1];
    if token[n - 3] == suffix[0] && token[n - 2] == suffix[1] && token[n - 1] == suffix[2] {
      assert tail == suffix;
    }
  }

  /**
   * stem on the token buffer: the first n characters are the token, followed by
   * a NUL. The suffix is cut by writing a NUL where it starts; the new length
   * is returned.
   */
  method StemInPlace(token: array<char>, n: nat) returns (m: nat)
    requires n < token.Length && token[n] == NUL
    modifies token
    ensures m <= n && token[..m] == Stem(old(token[..n]))
    ensures token[..] == if m < n then old(token[..])[m := NUL] else old(token[..])
  {
    ghost var t := token[..n];
    assert |t| == n;
    m := n;
    var cut := 0;
    if n > 4 && token[n - 2] == OV[0] && token[n - 1] == OV[1] {
      cut := 2;
    } else if n > 4 && token[n - 2] == EV[0] && token[n - 1] == EV[1] {
      cut := 2;
    } else if n > 4 && token[n - 2] == AM[0] && token[n - 1] == AM[1] {
      cut := 2;
    } else if n > 4 && token[n - 2] == YOM[0] && token[n - 1] == YOM[1] {
      cut := 2;
    } else if n > 5 && token[n - 3] == ING[0] && token[n - 2] == ING[1] && token[n - 1] == ING[2] {
      cut := 3;
    } else if n > 4 && token[n - 2] == ED[0] && token[n - 1] == ED[1] {
      cut := 2;
    }
    StemCut(token[..], n);
    if cut > 0 {
      token[n - cut] := NUL;
      m := n - cut;
    }
  }

  /** How many characters stem cuts from the n-character token at the start of a buffer. */
  lemma StemCut(token: seq<char>, n: nat)
    requires n <= |token|
    ensures var t := token[..n];
            |t| - |Stem(t)| == (
              if n > 4 && token[n - 2] == OV[0] && token[n - 1] == OV[1] then 2
              else if n > 4 && token[n - 2] == EV[0] && token[n - 1] == EV[1] then 2
              else if n > 4 && token[n - 2] == AM[0] && token[n - 1] == AM[1] then 2
              else if n > 4 && token[n - 2] == YOM[0] && token[n - 1] == YOM[1] then 2
              else if n > 5 && token[n - 3] == ING[0] && token[n - 2] == ING[1] && token[n - 1] == ING[2] then 3
              else if n > 4 && token[n - 2] == ED[0] && token[n - 1] == ED[1] then 2
              else 0)
  {
    if n > 4 {
      EndsWithTwo(token, n, OV);
      EndsWithTwo(token, n, EV);
      EndsWithTwo(token, n, AM);
      EndsWithTwo(token, n, YOM);
      EndsWithTwo(token, n, ED);
      if n > 5 {
        EndsWithThree(token, n, ING);
      }
    }
  }

  /** The rule table in order: a suffix and the length the token must exceed. */
  const RULES: seq<(seq<char>, nat)> := [(OV, 4), (EV, 4), (AM, 4), (YOM, 4), (ING, 5), (ED, 4)]

  predicate Applies(t: seq<char>, rule: (seq<char>, nat)) {
    |t| > rule.1 && EndsWith(t, rule.0)
  }

  /** Reference reading of the table: cut the suffix of the first rule that applies. */
  function FirstMatch(t: seq<char>, rules: seq<(seq<char>, nat)>): seq<char> {
    if rules == [] then t
    else if Applies(t, rules[0]) then t[..|t| - |rules[0].0|]
    else FirstMatch(t, rules[1..])
  }

  /** stem is the first-match reading of its rule table. */
  lemma StemIsFirstMatch(t: seq<char>)
    ensures Stem(t) == FirstMatch(t, RULES)
  {
    var n := |t|;
    assert RULES[5..] == [(ED, 4)] && RULES[5..][1..] == [];
    var f5 := if n > 4 && EndsWith(t, ED) then t[..n - 2] else t;
    assert FirstMatch(t, RULES[5..]) == f5;
    assert RULES[4..][0] == (ING, 5) && RULES[4..][1..] == RULES[5..];
    var f4 := if n > 5 && EndsWith(t, ING) then t[..n - 3] else f5;
    assert FirstMatch(t, RULES[4..]) == f4;
    assert RULES[3..][0] == (YOM, 4) && RULES[3..][1..] == RULES[4..];
    var f3 := if n > 4 && EndsWith(t, YOM) then t[..n - 2] else f4;
    assert FirstMatch(t, RULES[3..]) == f3;
    assert RULES[2..][0] == (AM, 4) && RULES[2..][1..] == RULES[3..];
    var f2 := if n > 4 && EndsWith(t, AM) then t[..n - 2] else f3;
    assert FirstMatch(t, RULES[2..]) == f2;
    assert RULES[1..][0] == (EV, 4) && RULES[1..][1..] == RULES[2..];
    var f1 := if n > 4 && EndsWith(t, EV) then t[..n - 2] else f2;
    assert FirstMatch(t, RULES[1..]) == f1;
  }

  /** A stemmed token no rule applies to is left alone. */
  lemma StemKeepsUnmatched(t: seq<char>)
    requires forall k :: 0 <= k < |RULES| ==> !Applies(t, RULES[k])
    ensures Stem(t) == t
  {
    assert !Applies(t, RULES[0]) && !Applies(t, RULES[1]) && !Applies(t, RULES[2]);
    assert !Applies(t, RULES[3]) && !Applies(t, RULES[4]) && !Applies(t, RULES[5]);
  }

  // ---------------------------------------------------------- token runs

  /** The text the tokenizer walks: everything before the first NUL. */
  function BeforeNul(t: seq<char>): (r: seq<char>)
    ensures r <= t && NUL !in r
    ensures |r| < |t| ==> t[|r|] == NUL
  {
    if t == [] || t[0] == NUL then [] else [t[0]] + BeforeNul(t[1..])
  }

  /** The run of valid characters at the end of t. */
  function TrailingRun(t: seq<char>): (r: seq<char>)
    ensures |r| <= |t|
  {
    if t == [] || !IsValidChar(t[|t| - 1]) then []
    else TrailingRun(t[..|t| - 1]) + [t[|t| - 1]]
  }

  /** The trailing run is the longest suffix of token characters. */
  lemma {:induction false} TrailingRunIsRun(t: seq<char>)
    ensures var r := TrailingRun(t);
            r == t[|t| - |r|..] && (forall i :: 0 <= i < |r| ==> IsValidChar(r[i])) &&
            (|r| < |t| ==> !IsValidChar(t[|t| - |r| - 1]))
  {
    if t != [] && IsValidChar(t[|t| - 1]) {
      var init := t[..|t| - 1];
      TrailingRunIsRun(init);
      var r0 := TrailingRun(init);
      var r := TrailingRun(t);
      assert r == r0 + [t[|t| - 1]];
      var n := |init| - |r0|;
      assert t[n..] == init[n..] + [t[|t| - 1]];
      forall i | 0 <= i < |r|
        ensures IsValidChar(r[i])
      {
        if i < |r0| {
          assert r[i] == r0[i];
        }
      }
      if |r| < |t| {
        assert t[n - 1] == init[n - 1];
      }
    }
  }

  /** The maximal runs of valid characters in t that a non-valid character closes, in order. */
  function ClosedRuns(t: seq<char>): seq<seq<char>> {
    if t == [] then []
    else
      var init := t[..|t| - 1];
      if IsValidChar(t[|t| - 1]) || TrailingRun(init) == [] then ClosedRuns(init)
      else ClosedRuns(init) + [TrailingRun(init)]
  }

  /** The token buffer for a run: lower-cased, at most MAX_TOKEN_CHARS characters kept. */
  function Buffered(run: seq<char>): (r: seq<char>)
    ensures |r| <= MAX_TOKEN_CHARS
  {
    LowerAll(if |run| <= MAX_TOKEN_CHARS then run else run[..MAX_TOKEN_CHARS])
  }

  /** The term a closed run is indexed under. */
  function Commit(run: seq<char>): seq<char> {
    Stem(Buffered(run))
  }

  function CommitAll(runs: seq<seq<char>>): (ts: seq<seq<char>>)
    ensures |ts| == |runs|
  {
    if runs == [] then [] else CommitAll(runs[..|runs| - 1]) + [Commit(runs[|runs| - 1])]
  }

  lemma {:induction false} CommitAllAt(runs: seq<seq<char>>, k: nat)
    requires k < |runs|
    ensures CommitAll(runs)[k] == Commit(runs[k])
  {
    if k < |runs| - 1 {
      CommitAllAt(runs[..|runs| - 1], k);
    }
  }

  /** The terms process_html adds for a text, in order. */
  function Tokens(text: seq<char>): seq<seq<char>> {
    CommitAll(ClosedRuns(BeforeNul(text)))
  }

  // ---------------------------------------------------------------- lemmas

  /** Every closed run is a non-empty run of valid characters. */
  lemma {:induction false} ClosedRunsAreRuns(t: seq<char>)
    ensures forall k :: 0 <= k < |ClosedRuns(t)| ==>
              ClosedRuns(t)[k] != [] && forall i :: 0 <= i < |ClosedRuns(t)[k]| ==> IsValidChar(ClosedRuns(t)[k][i])
  {
    if t != [] {
      ClosedRunsAreRuns(t[..|t| - 1]);
      TrailingRunIsRun(t[..|t| - 1]);
    }
  }

  /** A run still open at the end of the text is never committed. */
  lemma {:induction false} OpenRunDropped(t: seq<char>, run: seq<char>)
    requires forall i :: 0 <= i < |run| ==> IsValidChar(run[i])
    ensures ClosedRuns(t + run) == ClosedRuns(t)
    decreases |run|
  {
    if run != [] {
      var init := run[..|run| - 1];
      assert (t + run)[..|t + run| - 1] == t + init;
      OpenRunDropped(t, init);
    } else {
      assert t + run == t;
    }
  }

  /** A non-valid character closes the run before it, if there is one. */
  lemma SeparatorClosesRun(t: seq<char>, c: char)
    requires !IsValidChar(c)
    ensures ClosedRuns(t + [c]) == if TrailingRun(t) == [] then ClosedRuns(t) else ClosedRuns(t) + [TrailingRun(t)]
  {
    assert (t + [c])[..|t|] == t;
  }

  lemma BufferedValid(run: seq<char>)
    requires forall i :: 0 <= i < |run| ==> IsValidChar(run[i])
    ensures |Buffered(run)| == if |run| <= MAX_TOKEN_CHARS then |run| else MAX_TOKEN_CHARS
    ensures forall i :: 0 <= i < |Buffered(run)| ==> IsValidChar(Buffered(run)[i])
  {
    LowerAllAt(if |run| <= MAX_TOKEN_CHARS then run else run[..MAX_TOKEN_CHARS]);
  }

  /** A committed term is non-empty, fits the token buffer and is made of token characters. */
  lemma CommitValid(run: seq<char>)
    requires run != [] && forall i :: 0 <= i < |run| ==> IsValidChar(run[i])
    ensures 0 < |Commit(run)| <= MAX_TOKEN_CHARS
    ensures forall i :: 0 <= i < |Commit(run)| ==> IsValidChar(Commit(run)[i])
    ensures NUL !in Commit(run)
  {
    var b := Buffered(run);
    BufferedValid(run);
    var c := Stem(b);
    assert c <= b;
    forall i | 0 <= i < |c|
      ensures IsValidChar(c[i]) && c[i] != NUL
    {
      assert c[i] == b[i];
    }
  }

  /** One term of a text: non-empty, short enough for the token buffer, free of NUL. */
  lemma TokenIsTerm(text: seq<char>, k: nat)
    requires k < |Tokens(text)|
    ensures 0 < |Tokens(text)[k]| <= MAX_TOKEN_CHARS && NUL !in Tokens(text)[k]
  {
    var runs := ClosedRuns(BeforeNul(text));
    ClosedRunsAreRuns(BeforeNul(text));
    CommitValid(runs[k]);
    CommitAllAt(runs, k);
  }

  /** The terms of a text: non-empty, short enough for the token buffer, and free of NUL. */
  lemma TokensAreTerms(text: seq<char>)
    ensures forall k :: 0 <= k < |Tokens(text)| ==>
              0 < |Tokens(text)[k]| <= MAX_TOKEN_CHARS && NUL !in Tokens(text)[k]
  {
    forall k | 0 <= k < |Tokens(text)|
      ensures 0 < |Tokens(text)[k]| <= MAX_TOKEN_CHARS && NUL !in Tokens(text)[k]
    {
      TokenIsTerm(text, k);
    }
  }

  // ------------------------------------------------ one character at a time

  /** A token character extends the open run and closes nothing. */
  lemma ValidCharStep(p: seq<char>, c: char)
    requires IsValidChar(c)
    ensures ClosedRuns(p + [c]) == ClosedRuns(p) && TrailingRun(p + [c]) == TrailingRun(p) + [c]
  {
    assert (p + [c])[..|p|] == p;
  }

  /** Any other character ends the open run. */
  lemma SeparatorStep(p: seq<char>, c: char)
    requires !IsValidChar(c)
    ensures TrailingRun(p + [c]) == []
  {
  }

  /** The buffer takes one more character while it has room, lower-cased. */
  lemma BufferedStep(run: seq<char>, c: char)
    ensures Buffered(run + [c]) == if |run| < MAX_TOKEN_CHARS then Buffered(run) + [Lower(c)] else Buffered(run)
  {
    if |run| < MAX_TOKEN_CHARS {
      var a := run + [c];
      LowerAllAt(a);
      LowerAllAt(run);
      assert LowerAll(a)[..|run|] == LowerAll(run) by {
        assert forall i :: 0 <= i < |run| ==> LowerAll(a)[i] == Lower(run[i]);
      }
    } else {
      assert (run + [c])[..MAX_TOKEN_CHARS] == run[..MAX_TOKEN_CHARS];
    }
  }

  lemma CommitAllStep(runs: seq<seq<char>>, run: seq<char>)
    ensures CommitAll(runs + [run]) == CommitAll(runs) + [Commit(run)]
  {
    assert (runs + [run])[..|runs|] == runs;
  }

  /** The closed runs and the open run after one more character. */
  function NextRuns(runs: seq<seq<char>>, run: seq<char>, c: char): (seq<seq<char>>, seq<char>) {
    if IsValidChar(c) then (runs, run + [c])
    else if run == [] then (runs, [])
    else (runs + [run], [])
  }

  /** NextRuns follows ClosedRuns and TrailingRun one character at a time. */
  lemma RunsStep(p: seq<char>, c: char)
    ensures NextRuns(ClosedRuns(p), TrailingRun(p), c) == (ClosedRuns(p + [c]), TrailingRun(p + [c]))
    ensures forall i :: 0 <= i < |TrailingRun(p + [c])| ==> IsValidChar(TrailingRun(p + [c])[i])
  {
    TrailingRunIsRun(p + [c]);
    if IsValidChar(c) {
      ValidCharStep(p, c);
    } else {
      SeparatorStep(p, c);
      SeparatorClosesRun(p, c);
    }
  }
}
