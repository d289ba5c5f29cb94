/**
 * The indexer's HTML filter (`html_filter_char` over an `HtmlState`): fed one
 * wide character at a time, it drops markup and the contents of script and
 * style elements and passes every other character through.
 *
 * The state remembers the letters of the tag being read, lower-cased and cut
 * to a byte each as `(char)towlower(c)` does, in a 32-byte NUL-terminated
 * buffer; on `>` that buffer is compared with "script" and "style".
 */
module HtmlFilter {
  import opened ByteCodec
  import opened Text

  const TAG_BUFFER: nat := 32
  const LT: char := '<'
  const GT: char := '>'
  const SLASH: char := '/'

  const SCRIPT: Bytes := [115, 99, 114, 105, 112, 116]   // "script"
  const STYLE: Bytes := [115, 116, 121, 108, 101]        // "style"

  /** The filter state as a value, the tag buffer as its bytes. */
  datatype FilterState = FilterState(
    insideTag: bool, insideScript: bool, insideStyle: bool, isClosing: bool,
    tag: Bytes, tagLen: nat)

  /** A state whose tag buffer has 32 bytes, a NUL among them, and room for the next letter. */
  predicate WellFormed(s: FilterState) {
    |s.tag| == TAG_BUFFER && s.tagLen <= TAG_BUFFER - 1 &&
    exists k :: 0 <= k < |s.tag| && s.tag[k] == 0
  }

  /** The zero-initialised state. */
  function Initial(): (s: FilterState)
    ensures WellFormed(s) && !s.insideTag && !s.insideScript && !s.insideStyle
  {
    var s := FilterState(false, false, false, false, seq(TAG_BUFFER, _ => 0), 0);
    assert s.tag[0] == 0;
    s
  }

  /** `(char)c`: the low byte of a code point. */
  function Narrow(c: char): byte {
    (c as int % 256) as byte
  }

  /** The NUL-terminated string in a buffer, as strcmp reads it. */
  function CString(b: Bytes): (r: Bytes)
    ensures r <= b && 0 !in r
    ensures |r| < |b| ==> b[|r|] == 0
  {
    if b == [] || b[0] == 0 then [] else [b[0]] + CString(b[1..])
  }

  /**
   * One call of html_filter_char: the new state and the returned character,
   * 0 when the character is filtered out.
   */
  function Filter(s: FilterState, c: char): (r: (FilterState, int))
    requires WellFormed(s)
    ensures WellFormed(r.0)
    ensures r.1 == 0 || r.1 == c as int
  {
    if c == LT then
      (s.(insideTag := true, tagLen := 0, isClosing := false), 0)
    else if s.insideTag then
      var s1 := TagChar(s, c);
      (if c == GT then EndOfTag(s1) else s1, 0)
    else if s.insideScript || s.insideStyle then (s, 0)
    else (s, c as int)
  }

  /** Inside a tag: `/` marks it closing, a letter is stored while the buffer has room. */
  function TagChar(s: FilterState, c: char): (r: FilterState)
    requires WellFormed(s)
    ensures WellFormed(r) && r.insideTag == s.insideTag
  {
    if c == SLASH then s.(isClosing := true)
    else if IsAlpha(c) && s.tagLen < TAG_BUFFER - 1 then
      var t := s.tag[s.tagLen := Narrow(Lower(c))][s.tagLen + 1 := 0];
      assert t[s.tagLen + 1] == 0;
      s.(tag := t, tagLen := s.tagLen + 1)
    else s
  }

  /** On `>`: the tag ends, and a script or style tag opens or closes its element. */
  function EndOfTag(s: FilterState): (r: FilterState)
    requires WellFormed(s)
    ensures WellFormed(r) && !r.insideTag
  {
    var s2 := s.(insideTag := false);
    if CString(s.tag) == SCRIPT then s2.(insideScript := !s.isClosing)
    else if CString(s.tag) == STYLE then s2.(insideStyle := !s.isClosing)
    else s2
  }

  /** The characters a run of calls returns, and the state it ends in. */
  function FilterAll(s: FilterState, text: seq<char>): (r: (FilterState, seq<int>))
    requires WellFormed(s)
    ensures WellFormed(r.0) && |r.1| == |text|
    decreases |text|
  {
    if text == [] then (s, [])
    else
      var first := Filter(s, text[0]);
      var rest := FilterAll(first.0, text[1..]);
      (rest.0, [first.1] + rest.1)
  }

  // ---------------------------------------------------------------- lemmas

  /** Outside markup, script and style, a character other than `<` passes through unchanged. */
  lemma TextPassesThrough(s: FilterState, c: char)
    requires WellFormed(s) && !s.insideTag && !s.insideScript && !s.insideStyle && c != LT
    ensures Filter(s, c) == (s, c as int)
  {
  }

  /** Inside a tag, or inside a script or style element, nothing passes through. */
  lemma MarkupIsDropped(s: FilterState, c: char)
    requires WellFormed(s) && (s.insideTag || s.insideScript || s.insideStyle || c == LT)
    ensures Filter(s, c).1 == 0
  {
  }

  /** `<` always opens a tag and forgets that the last one was a closing tag. */
  lemma LessThanOpensTag(s: FilterState)
    requires WellFormed(s)
    ensures Filter(s, LT).0.insideTag && !Filter(s, LT).0.isClosing && Filter(s, LT).0.tagLen == 0
  {
  }

  // ------------------------------------------------------- reading a tag

  /** The bytes a run of tag letters leaves in the buffer. */
  function TagBytes(name: seq<char>): (r: Bytes)
    ensures |r| == |name|
  {
    if name == [] then [] else [Narrow(Lower(name[0]))] + TagBytes(name[1..])
  }

  /** The buffer after the letters of name are stored from position k, each followed by a NUL. */
  function Store(tag: Bytes, k: nat, name: seq<char>): (r: Bytes)
    requires k + |name| < |tag|
    ensures |r| == |tag|
    decreases |name|
  {
    if name == [] then tag else Store(tag[k := Narrow(Lower(name[0]))][k + 1 := 0], k + 1, name[1..])
  }

  predicate AllAlpha(name: seq<char>) {
    forall i :: 0 <= i < |name| ==> IsAlpha(name[i])
  }

  /** A letter of the table never narrows to the NUL byte. */
  lemma AlphaNarrowsToNonZero(c: char)
    requires IsAlpha(c)
    ensures Narrow(Lower(c)) != 0
  {
  }

  lemma {:induction false} StoreContents(tag: Bytes, k: nat, name: seq<char>)
    requires k + |name| < |tag|
    ensures Store(tag, k, name)[..k] == tag[..k]
    ensures Store(tag, k, name)[k..k + |name|] == TagBytes(name)
    ensures name != [] ==> Store(tag, k, name)[k + |name|] == 0
    decreases |name|
  {
    if name != [] {
      var t := tag[k := Narrow(Lower(name[0]))][k + 1 := 0];
      StoreContents(t, k + 1, name[1..]);
      var r := Store(tag, k, name);
      assert r == Store(t, k + 1, name[1..]);
      assert r[k] == t[k];
      assert r[k..k + |name|] == [r[k]] + r[k + 1..k + 1 + |name[1..]|];
    }
  }

  /** Letters read inside a tag are stored in order and nothing is returned for them. */
  lemma {:induction false} ReadLetters(t: FilterState, name: seq<char>)
    requires WellFormed(t) && t.insideTag && AllAlpha(name) && t.tagLen + |name| < TAG_BUFFER
    ensures FilterAll(t, name).0 == t.(tag := Store(t.tag, t.tagLen, name), tagLen := t.tagLen + |name|)
    ensures forall i :: 0 <= i < |name| ==> FilterAll(t, name).1[i] == 0
    decreases |name|
  {
    if name != [] {
      var c := name[0];
      assert IsAlpha(c) && c != LT && c != GT && c != SLASH;
      var t1 := t.(tag := t.tag[t.tagLen := Narrow(Lower(c))][t.tagLen + 1 := 0], tagLen := t.tagLen + 1);
      assert t1.tag[t.tagLen + 1] == 0;
      assert AllAlpha(name[1..]) by {
        forall i | 0 <= i < |name[1..]| ensures IsAlpha(name[1..][i]) { assert name[1..][i] == name[i + 1]; }
      }
      ReadLetters(t1, name[1..]);
      assert Filter(t, c) == (t1, 0);
      FilterAllCons(t, name);
      assert Store(t.tag, t.tagLen, name) == Store(t1.tag, t1.tagLen, name[1..]);
    }
  }

  /** The string strcmp sees in a buffer holding n bytes other than NUL and then a NUL. */
  lemma {:induction false} CStringOf(b: Bytes, n: nat)
    requires n < |b| && b[n] == 0 && forall i :: 0 <= i < n ==> b[i] != 0
    ensures CString(b) == b[..n]
    decreases n
  {
    if n > 0 {
      CStringOf(b[1..], n - 1);
      assert b[..n] == [b[0]] + b[1..][..n - 1];
    }
  }

  lemma FilterOne(s: FilterState, c: char)
    requires WellFormed(s)
    ensures FilterAll(s, [c]) == (Filter(s, c).0, [Filter(s, c).1])
  {
    assert [c][0] == c && [c][1..] == [];
    assert FilterAll(Filter(s, c).0, []) == (Filter(s, c).0, []);
    assert [Filter(s, c).1] + [] == [Filter(s, c).1];
  }

  /** One call after another: the run over a + b is the run over a, then over b. */
  lemma {:induction false} FilterAllAppend(s: FilterState, a: seq<char>, b: seq<char>)
    requires WellFormed(s)
    ensures FilterAll(s, a + b) ==
              (FilterAll(FilterAll(s, a).0, b).0, FilterAll(s, a).1 + FilterAll(FilterAll(s, a).0, b).1)
    decreases |a|
  {
    if a == [] {
      assert a + b == b;
      assert [] + FilterAll(s, b).1 == FilterAll(s, b).1;
    } else {
      var (s1, o) := Filter(s, a[0]);
      FilterAllAppend(s1, a[1..], b);
      var x := FilterAll(s1, a[1..]);
      var y := FilterAll(x.0, b);
      AppendCons(s, a, b, s1, o, x.0, x.1, y.0, y.1);
    }
  }

  /** The step of FilterAllAppend: the run over a + b from the first call on. */
  lemma AppendCons(s: FilterState, a: seq<char>, b: seq<char>, s1: FilterState, o: int,
                   x: FilterState, xs: seq<int>, y: FilterState, ys: seq<int>)
    requires WellFormed(s) && a != [] && Filter(s, a[0]) == (s1, o)
    requires FilterAll(s1, a[1..]) == (x, xs) && FilterAll(s1, a[1..] + b) == (y, xs + ys)
    ensures FilterAll(s, a) == (x, [o] + xs)
    ensures FilterAll(s, a + b) == (y, ([o] + xs) + ys)
  {
    FilterAllCons(s, a);
    assert (a + b)[0] == a[0] && (a + b)[1..] == a[1..] + b;
    FilterAllCons(s, a + b);
    Assoc([o], xs, ys);
  }

  /** The first call of a run, then the rest of it. */
  lemma FilterAllCons(s: FilterState, text: seq<char>)
    requires WellFormed(s) && text != []
    ensures FilterAll(s, text) ==
              (FilterAll(Filter(s, text[0]).0, text[1..]).0,
               [Filter(s, text[0]).1] + FilterAll(Filter(s, text[0]).0, text[1..]).1)
  {
  }

  /** `<` and an optional `/`: a tag is open, its name empty, and nothing is returned. */
  lemma TagOpening(s: FilterState, closing: bool)
    requires WellFormed(s)
    ensures var r := FilterAll(s, [LT] + (if closing then [SLASH] else []));
            r.0 == s.(insideTag := true, tagLen := 0, isClosing := closing) &&
            forall i :: 0 <= i < |r.1| ==> r.1[i] == 0
  {
    var t0 := Filter(s, LT).0;
    if closing {
      FilterOne(t0, SLASH);
      FilterAllCons(s, [LT, SLASH]);
      assert [LT, SLASH][1..] == [SLASH];
      assert [LT] + [SLASH] == [LT, SLASH];
    } else {
      FilterOne(s, LT);
      assert [LT] + [] == [LT];
    }
  }

  /** `<`, an optional `/`, then letters: a tag is open and its name is the letters, lower-cased. */
  lemma OpenTag(s: FilterState, closing: bool, name: seq<char>)
    requires WellFormed(s) && AllAlpha(name) && 0 < |name| < TAG_BUFFER
    ensures var r := FilterAll(s, [LT] + (if closing then [SLASH] else []) + name);
            r.0.insideTag && r.0.isClosing == closing && CString(r.0.tag) == TagBytes(name) &&
            r.0.insideScript == s.insideScript && r.0.insideStyle == s.insideStyle &&
            forall i :: 0 <= i < |r.1| ==> r.1[i] == 0
  {
    var prefix := [LT] + (if closing then [SLASH] else []);
    TagOpening(s, closing);
    var t := FilterAll(s, prefix).0;
    FilterAllAppend(s, prefix, name);
    ReadLetters(t, name);
    NameInBuffer(t.tag, name);
  }

  /** The letters stored from the start of the buffer are the string strcmp sees there. */
  lemma NameInBuffer(tag: Bytes, name: seq<char>)
    requires AllAlpha(name) && 0 < |name| < |tag|
    ensures CString(Store(tag, 0, name)) == TagBytes(name)
  {
    var u := Store(tag, 0, name);
    StoreContents(tag, 0, name);
    forall i | 0 <= i < |name|
      ensures u[i] != 0
    {
      assert u[i] == u[0..|name|][i] == TagBytes(name)[i];
      TagBytesNonZero(name, i);
    }
    CStringOf(u, |name|);
  }

  lemma {:induction false} TagBytesNonZero(name: seq<char>, i: nat)
    requires AllAlpha(name) && i < |name|
    ensures TagBytes(name)[i] != 0
    decreases i
  {
    if i == 0 {
      AlphaNarrowsToNonZero(name[0]);
    } else {
      assert AllAlpha(name[1..]) by {
        forall j | 0 <= j < |name[1..]| ensures IsAlpha(name[1..][j]) { assert name[1..][j] == name[j + 1]; }
      }
      TagBytesNonZero(name[1..], i - 1);
    }
  }

  /** A whole tag `<name>` or `</name>`: the flag of a script or style element follows it, nothing is returned. */
  lemma WholeTag(s: FilterState, closing: bool, name: seq<char>)
    requires WellFormed(s) && AllAlpha(name) && 0 < |name| < TAG_BUFFER
    ensures var r := FilterAll(s, [LT] + (if closing then [SLASH] else []) + name + [GT]);
            !r.0.insideTag && CString(r.0.tag) == TagBytes(name) &&
            r.0.insideScript == (if TagBytes(name) == SCRIPT then !closing else s.insideScript) &&
            r.0.insideStyle == (if TagBytes(name) == STYLE then !closing else s.insideStyle) &&
            forall i :: 0 <= i < |r.1| ==> r.1[i] == 0
  {
    var open := [LT] + (if closing then [SLASH] else []) + name;
    OpenTag(s, closing, name);
    FilterAllAppend(s, open, [GT]);
    var u := FilterAll(s, open).0;
    FilterOne(u, GT);
  }

  const SCRIPT_NAME: seq<char> := "script"
  const OPEN_SCRIPT: seq<char> := [LT] + SCRIPT_NAME + [GT]             // <script>
  const CLOSE_SCRIPT: seq<char> := [LT] + [SLASH] + SCRIPT_NAME + [GT]  // </script>

  lemma ScriptIsTagName()
    ensures AllAlpha(SCRIPT_NAME) && |SCRIPT_NAME| == 6
    ensures TagBytes(SCRIPT_NAME) == SCRIPT && TagBytes(SCRIPT_NAME) != STYLE
  {
  }

  /** `<script>` starts a script element; what follows is dropped. */
  lemma ScriptTagOpens(s: FilterState)
    requires WellFormed(s)
    ensures FilterAll(s, OPEN_SCRIPT).0.insideScript && !FilterAll(s, OPEN_SCRIPT).0.insideTag
  {
    ScriptIsTagName();
    WholeTag(s, false, SCRIPT_NAME);
    assert [LT] + [] + SCRIPT_NAME + [GT] == OPEN_SCRIPT;
  }

  /** `</script>` ends a script element. */
  lemma ScriptTagCloses(s: FilterState)
    requires WellFormed(s)
    ensures !FilterAll(s, CLOSE_SCRIPT).0.insideScript && !FilterAll(s, CLOSE_SCRIPT).0.insideTag
    ensures CString(FilterAll(s, CLOSE_SCRIPT).0.tag) == SCRIPT
  {
    ScriptIsTagName();
    WholeTag(s, true, SCRIPT_NAME);
    assert [LT] + [SLASH] + SCRIPT_NAME + [GT] == CLOSE_SCRIPT;
  }

  // ---------------------------------------- a tag with no letters (finding)

  /** Characters inside a tag that are neither letters nor `<`, `>`, `/`. */
  predicate Nameless(junk: seq<char>) {
    forall i :: 0 <= i < |junk| ==> !IsAlpha(junk[i]) && junk[i] != LT && junk[i] != GT && junk[i] != SLASH
  }

  lemma {:induction false} ReadNameless(t: FilterState, junk: seq<char>)
    requires WellFormed(t) && t.insideTag && Nameless(junk)
    ensures FilterAll(t, junk).0 == t
    ensures forall i :: 0 <= i < |junk| ==> FilterAll(t, junk).1[i] == 0
    decreases |junk|
  {
    if junk != [] {
      assert Nameless(junk[1..]) by {
        forall i | 0 <= i < |junk[1..]| ensures junk[1..][i] == junk[i + 1] { }
      }
      ReadNameless(t, junk[1..]);
    }
  }

  /**
   * As written: `<` does not clear the tag buffer, so a tag with no letters is
   * compared under the name of the tag before it. After a script element has
   * been closed, such a tag opens it again.
   */
  lemma NamelessTagReusesLastName(t: FilterState, junk: seq<char>)
    requires WellFormed(t) && !t.insideTag && CString(t.tag) == SCRIPT && Nameless(junk)
    ensures FilterAll(t, [LT] + junk + [GT]).0.insideScript
  {
    var t0 := Filter(t, LT).0;
    FilterOne(t, LT);
    FilterAllAppend(t, [LT], junk);
    ReadNameless(t0, junk);
    FilterAllAppend(t, [LT] + junk, [GT]);
    assert Filter(t0, GT).0.insideScript;
  }

  const COMMENT_BODY: seq<char> := "!----"
  const COMMENT_THEN_X: seq<char> := [LT] + COMMENT_BODY + [GT] + ['x']   // <!---->x

  lemma CommentBodyIsNameless()
    ensures Nameless(COMMENT_BODY)
  {
    var j := COMMENT_BODY;
    assert forall i :: 0 <= i < |j| ==> j[i] == '!' || j[i] == '-';
  }

  /** As written: after a closed script element, `<!---->x` drops the `x`. */
  lemma CommentAfterScriptHidesText(s: FilterState)
    requires WellFormed(s)
    ensures FilterAll(FilterAll(s, CLOSE_SCRIPT).0, COMMENT_THEN_X).1[7] == 0
  {
    var t := FilterAll(s, CLOSE_SCRIPT).0;
    ScriptTagCloses(s);
    CommentBodyIsNameless();
    NamelessTagReusesLastName(t, COMMENT_BODY);
    var c := [LT] + COMMENT_BODY + [GT];
    FilterAllAppend(t, c, ['x']);
    var r1 := FilterAll(t, c);
    FilterOne(r1.0, 'x');
    assert Filter(r1.0, 'x').1 == 0;
    assert c + ['x'] == COMMENT_THEN_X;
    assert |r1.1| == 7;
    assert FilterAll(t, COMMENT_THEN_X).1 == r1.1 + [0];
  }

  /** The filter as evidently intended: `<` also empties the tag name. */
  function FilterCleared(s: FilterState, c: char): (r: (FilterState, int))
    requires WellFormed(s)
    ensures WellFormed(r.0)
    ensures r.1 == 0 || r.1 == c as int
  {
    if c == LT then
      var t := s.tag[0 := 0];
      assert t[0] == 0;
      (s.(insideTag := true, tagLen := 0, isClosing := false, tag := t), 0)
    else Filter(s, c)
  }

  function FilterAllCleared(s: FilterState, text: seq<char>): (r: (FilterState, seq<int>))
    requires WellFormed(s)
    ensures WellFormed(r.0) && |r.1| == |text|
    decreases |text|
  {
    if text == [] then (s, [])
    else
      var (s1, out) := FilterCleared(s, text[0]);
      var (s2, outs) := FilterAllCleared(s1, text[1..]);
      (s2, [out] + outs)
  }

  lemma {:induction false} FilterAllClearedAppend(s: FilterState, a: seq<char>, b: seq<char>)
    requires WellFormed(s)
    ensures FilterAllCleared(s, a + b) ==
              (FilterAllCleared(FilterAllCleared(s, a).0, b).0,
               FilterAllCleared(s, a).1 + FilterAllCleared(FilterAllCleared(s, a).0, b).1)
    decreases |a|
  {
    if a == [] {
      assert a + b == b;
      assert [] + FilterAllCleared(s, b).1 == FilterAllCleared(s, b).1;
    } else {
      assert (a + b)[0] == a[0] && (a + b)[1..] == a[1..] + b;
      var (s1, o) := FilterCleared(s, a[0]);
      FilterAllClearedAppend(s1, a[1..], b);
      var x := FilterAllCleared(s1, a[1..]);
      var y := FilterAllCleared(x.0, b);
      assert FilterAllCleared(s, a) == (x.0, [o] + x.1);
      assert [o] + (x.1 + y.1) == ([o] + x.1) + y.1;
    }
  }

  lemma {:induction false} ReadNamelessCleared(t: FilterState, junk: seq<char>)
    requires WellFormed(t) && t.insideTag && Nameless(junk)
    ensures FilterAllCleared(t, junk).0 == t
    decreases |junk|
  {
    if junk != [] {
      assert Nameless(junk[1..]) by {
        forall i | 0 <= i < |junk[1..]| ensures junk[1..][i] == junk[i + 1] { }
      }
      ReadNamelessCleared(t, junk[1..]);
    }
  }

  /** As intended: a tag with no letters leaves the script and style flags as they were. */
  lemma NamelessTagChangesNothing(t: FilterState, junk: seq<char>)
    requires WellFormed(t) && Nameless(junk)
    ensures var r := FilterAllCleared(t, [LT] + junk + [GT]).0;
            !r.insideTag && r.insideScript == t.insideScript && r.insideStyle == t.insideStyle
  {
    var t0 := FilterCleared(t, LT).0;
    assert [LT][0] == LT && [LT][1..] == [];
    assert FilterAllCleared(t0, []) == (t0, []);
    assert [0] + [] == [0];
    assert FilterAllCleared(t, [LT]) == (t0, [0]);
    FilterAllClearedAppend(t, [LT], junk);
    ReadNamelessCleared(t0, junk);
    FilterAllClearedAppend(t, [LT] + junk, [GT]);
    assert t0.tag[0] == 0 && CString(t0.tag) == [];
    assert [GT][1..] == [];
  }

  /** As intended: outside script and style, the text after a comment passes through. */
  lemma CommentKeepsText(t: FilterState)
    requires WellFormed(t) && !t.insideTag && !t.insideScript && !t.insideStyle
    ensures FilterAllCleared(t, COMMENT_THEN_X).1[7] == 'x' as int
  {
    CommentBodyIsNameless();
    NamelessTagChangesNothing(t, COMMENT_BODY);
    var c := [LT] + COMMENT_BODY + [GT];
    FilterAllClearedAppend(t, c, ['x']);
    var r1 := FilterAllCleared(t, c);
    assert ['x'][0] == 'x' && ['x'][1..] == [];
    assert FilterAllCleared(FilterCleared(r1.0, 'x').0, []) == (FilterCleared(r1.0, 'x').0, []);
    assert FilterCleared(r1.0, 'x').1 == 'x' as int;
    assert FilterAllCleared(r1.0, ['x']).1 == ['x' as int];
    assert c + ['x'] == COMMENT_THEN_X;
    assert |r1.1| == 7;
    assert FilterAllCleared(t, COMMENT_THEN_X).1 == r1.1 + ['x' as int];
  }

  /** The `HtmlState` the indexer keeps while it filters a page. */
  class HtmlState {
    var insideTag: bool
    var insideScript: bool
    var insideStyle: bool
    var isClosing: bool
    const tag: array<byte>
    var tagLen: nat

    function State(): FilterState
      reads this, tag
    {
      FilterState(insideTag, insideScript, insideStyle, isClosing, tag[..], tagLen)
    }

    ghost predicate Valid()
      reads this, tag
    {
      WellFormed(State())
    }

    /** A zero-initialised state. */
    constructor ()
      ensures Valid() && State() == Initial() && fresh(tag)
    {
      insideTag, insideScript, insideStyle, isClosing := false, false, false, false;
      tag := new byte[TAG_BUFFER](_ => 0);
      tagLen := 0;
      new;
      assert forall i :: 0 <= i < TAG_BUFFER ==> tag[..][i] == Initial().tag[i];
      assert tag[..] == Initial().tag;
    }

    /** html_filter_char: the character to keep, or 0 when it is markup or script/style text. */
    method FilterChar(c: char) returns (r: int)
      requires Valid()
      modifies this, tag
      ensures Valid() && (State(), r) == Filter(old(State()), c)
    {
      if c == LT {
        insideTag := true;
        tagLen := 0;
        isClosing := false;
        return 0;
      }
      if insideTag {
        ReadTagChar(c);
        return 0;
      }
      if insideScript || insideStyle {
        return 0;
      }
      return c as int;
    }

    /** The branch of html_filter_char for a character inside a tag. */
    method ReadTagChar(c: char)
      requires Valid() && insideTag && c != LT
      modifies this, tag
      ensures Valid() && State() == Filter(old(State()), c).0
    {
      StoreTagChar(c);
      if c == GT {
        CloseTag();
      }
    }

    method StoreTagChar(c: char)
      requires Valid()
      modifies this, tag
      ensures Valid() && State() == TagChar(old(State()), c)
    {
      ghost var s := State();
      if c == SLASH {
        isClosing := true;
      } else if IsAlpha(c) && tagLen < TAG_BUFFER - 1 {
        tag[tagLen] := Narrow(Lower(c));
        tagLen := tagLen + 1;
        tag[tagLen] := 0;
        assert tag[..] == s.tag[s.tagLen := Narrow(Lower(c))][s.tagLen + 1 := 0];
      }
    }

    method CloseTag()
      requires Valid()
      modifies this
      ensures Valid() && State() == EndOfTag(old(State()))
    {
      insideTag := false;
      var name := CString(tag[..]);
      if name == SCRIPT {
        insideScript := !isClosing;
      } else if name == STYLE {
        insideStyle := !isClosing;
      }
    }
  }
}
