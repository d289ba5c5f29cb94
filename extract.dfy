/**
 * The indexer's JSON field scanner (`extract`): find `"field":` in one input
 * line, skip whitespace, and if a `"` follows copy the string after it into the
 * caller's buffer, up to the closing quote, decoding `\n`, `\t` and `\r`.
 *
 * The line and the field name are C strings, so neither contains a NUL byte:
 * the end of the sequence is where the C code meets the terminator.
 */
module JsonField {
  import opened Wrappers
  import opened ByteCodec
  import opened QueryLexer

  const QUOTE: byte := 34       // '"'
  const COLON: byte := 58       // ':'
  const BACKSLASH: byte := 92   // '\\'
  const NEWLINE: byte := 10
  const TAB: byte := 9
  const RETURN: byte := 13
  const LETTER_N: byte := 110   // 'n'
  const LETTER_T: byte := 116   // 't'
  const LETTER_R: byte := 114   // 'r'

  /** The size of the `search` buffer: snprintf keeps at most SEARCH_SIZE - 1 bytes of the pattern. */
  const SEARCH_SIZE: nat := 256

  predicate NoNul(s: Bytes) {
    forall i :: 0 <= i < |s| ==> s[i] != 0
  }

  /** The pattern extract looks for: `"field":`, cut to what fits the search buffer. */
  function SearchPattern(field: Bytes): (p: Bytes)
    ensures 0 < |p| < SEARCH_SIZE
  {
    var full := [QUOTE] + field + [QUOTE, COLON];
    if |full| < SEARCH_SIZE then full else full[..SEARCH_SIZE - 1]
  }

  predicate MatchAt(s: Bytes, pat: Bytes, k: nat) {
    k + |pat| <= |s| && s[k..k + |pat|] == pat
  }

  /** strstr from position k: the first position at or after k where pat occurs. */
  function FindFrom(s: Bytes, pat: Bytes, k: nat): (r: Option<nat>)
    ensures r.Some? ==> k <= r.value && MatchAt(s, pat, r.value)
    decreases |s| - k
  {
    if k + |pat| > |s| then None
    else if s[k..k + |pat|] == pat then Some(k)
    else FindFrom(s, pat, k + 1)
  }

  /** strstr finds the first occurrence: no earlier position matches. */
  lemma {:induction false} FindFromFirst(s: Bytes, pat: Bytes, k: nat)
    ensures FindFrom(s, pat, k).Some? ==> forall j :: k <= j < FindFrom(s, pat, k).value ==> !MatchAt(s, pat, j)
    ensures FindFrom(s, pat, k).None? ==> forall j :: k <= j ==> !MatchAt(s, pat, j)
    decreases |s| - k
  {
    if k + |pat| <= |s| && s[k..k + |pat|] != pat {
      FindFromFirst(s, pat, k + 1);
    }
  }

  /** The character an escape sequence `\c` stands for. */
  function Unescape(c: byte): byte {
    if c == LETTER_N then NEWLINE
    else if c == LETTER_T then TAB
    else if c == LETTER_R then RETURN
    else c
  }

  /**
   * The copy loop on the bytes after the opening quote: at most room bytes,
   * stopping at a quote or the end; a backslash with a byte after it stands for
   * that byte, decoded.
   */
  function CopyValue(s: Bytes, room: int): (r: Bytes)
    ensures |r| <= |s| && (room <= 0 ==> r == []) && (room > 0 ==> |r| <= room)
    decreases |s|
  {
    if s == [] || s[0] == QUOTE || room <= 0 then []
    else if s[0] == BACKSLASH && |s| > 1 then [Unescape(s[1])] + CopyValue(s[2..], room - 1)
    else [s[0]] + CopyValue(s[1..], room - 1)
  }

  /** What extract returns for a line, a field and a buffer of bufferSize bytes: the value, or NULL. */
  function ExtractField(json: Bytes, field: Bytes, bufferSize: int): Option<Bytes> {
    var pat := SearchPattern(field);
    var k := FindFrom(json, pat, 0);
    if k.None? then None
    else
      var p := SkipSpaces(json, k.value + |pat|);
      if p < |json| && json[p] == QUOTE then Some(CopyValue(json[p + 1..], bufferSize - 1))
      else None
  }

  /** Where the value starts: just past the opening quote, when the field is present and a quote follows. */
  function ValueStart(json: Bytes, field: Bytes): (r: Option<nat>)
    ensures r.Some? ==> 0 < r.value <= |json| && json[r.value - 1] == QUOTE
  {
    var pat := SearchPattern(field);
    var k := FindFrom(json, pat, 0);
    if k.None? then None
    else
      var p := SkipSpaces(json, k.value + |pat|);
      if p < |json| && json[p] == QUOTE then Some(p + 1) else None
  }

  lemma ExtractFromStart(json: Bytes, field: Bytes, bufferSize: int)
    ensures ExtractField(json, field, bufferSize) ==
              if ValueStart(json, field).None? then None
              else Some(CopyValue(json[ValueStart(json, field).value..], bufferSize - 1))
  {
  }

  lemma ExtractAt(json: Bytes, field: Bytes, bufferSize: int, start: nat)
    requires ValueStart(json, field) == Some(start)
    ensures ExtractField(json, field, bufferSize) == Some(CopyValue(json[start..], bufferSize - 1))
  {
    ExtractFromStart(json, field, bufferSize);
  }

  /**
   * extract: the value is written to buffer (buffer_size is its length) and
   * NUL-terminated; the result says whether the field was found.
   */
  method Extract(json: Bytes, field: Bytes, buffer: array<byte>) returns (found: bool)
    requires NoNul(json) && NoNul(field) && buffer.Length >= 1
    modifies buffer
    ensures found <==> ExtractField(json, field, buffer.Length).Some?
    ensures found ==> var v := ExtractField(json, field, buffer.Length).value;
                      |v| < buffer.Length && buffer[..|v|] == v && buffer[|v|] == 0 &&
                      buffer[|v| + 1..] == old(buffer[|v| + 1..])
    ensures !found ==> buffer[..] == old(buffer[..])
  {
    ExtractFromStart(json, field, buffer.Length);
    var start := LocateValue(json, field);
    if start.None? {
      return false;
    }
    var n := CopyInto(json[start.value..], buffer);
    return true;
  }

  /** The search and the whitespace loop of extract. */
  method LocateValue(json: Bytes, field: Bytes) returns (r: Option<nat>)
    ensures r == ValueStart(json, field)
  {
    var pat := SearchPattern(field);
    var k := FindFrom(json, pat, 0);
    if k.None? {
      return None;
    }
    var pos := k.value + |pat|;
    while pos < |json| && IsSpace(json[pos])
      invariant k.value + |pat| <= pos <= |json|
      invariant SkipSpaces(json, pos) == SkipSpaces(json, k.value + |pat|)
      decreases |json| - pos
    {
      pos := pos + 1;
    }
    if pos < |json| && json[pos] == QUOTE {
      return Some(pos + 1);
    }
    return None;
  }

  /** One step of the copy loop, at position pos of s. */
  lemma CopyStep(s: Bytes, pos: nat, room: int)
    requires pos < |s| && s[pos] != QUOTE && room > 0
    ensures s[pos] == BACKSLASH && pos + 1 < |s| ==>
              CopyValue(s[pos..], room) == [Unescape(s[pos + 1])] + CopyValue(s[pos + 2..], room - 1)
    ensures !(s[pos] == BACKSLASH && pos + 1 < |s|) ==>
              CopyValue(s[pos..], room) == [s[pos]] + CopyValue(s[pos + 1..], room - 1)
  {
    var rest := s[pos..];
    assert rest[0] == s[pos] && rest[1..] == s[pos + 1..];
    if pos + 1 < |s| {
      assert rest[1] == s[pos + 1] && rest[2..] == s[pos + 2..];
    }
  }

  /** The copy loop of extract, on the bytes after the opening quote; n is where the NUL goes. */
  method CopyInto(s: Bytes, buffer: array<byte>) returns (n: nat)
    requires buffer.Length >= 1
    modifies buffer
    ensures n < buffer.Length && buffer[..n] == CopyValue(s, buffer.Length - 1) && buffer[n] == 0
    ensures buffer[n + 1..] == old(buffer[n + 1..])
  {
    var room := buffer.Length - 1;
    var pos := 0;
    var i := 0;
    ghost var out: Bytes := [];
    ghost var before := buffer[..];
    while pos < |s| && s[pos] != QUOTE && i < room
      invariant 0 <= pos <= |s| && 0 <= i <= room && |out| == i
      invariant buffer[..i] == out
      invariant forall k :: i <= k < buffer.Length ==> buffer[k] == before[k]
      invariant out + CopyValue(s[pos..], room - i) == CopyValue(s, room)
      decreases |s| - pos
    {
      var c, next := CopyByte(s, pos);
      CopyStep(s, pos, room - i);
      Advance(out, c, CopyValue(s[pos..], room - i), CopyValue(s[next..], room - i - 1), CopyValue(s, room));
      buffer[i] := c;
      assert buffer[..i + 1] == buffer[..i] + [c];
      out := out + [c];
      pos := next;
      i := i + 1;
    }
    assert CopyValue(s[pos..], room - i) == [];
    assert out + [] == out;
    buffer[i] := 0;
    assert buffer[..i] == out;
    SuffixKept(buffer[..], before, i + 1);
    n := i;
  }

  /** Two sequences that agree from m on have the same suffix from m. */
  lemma SuffixKept(a: Bytes, b: Bytes, m: nat)
    requires |a| == |b| && m <= |a| && forall k :: m <= k < |a| ==> a[k] == b[k]
    ensures a[m..] == b[m..]
  {
    assert forall k :: 0 <= k < |a| - m ==> a[m..][k] == a[m + k] && b[m..][k] == b[m + k];
  }

  /** The byte one step of the copy loop writes, and where the next step reads. */
  method CopyByte(s: Bytes, pos: nat) returns (c: byte, next: nat)
    requires pos < |s|
    ensures s[pos] == BACKSLASH && pos + 1 < |s| ==> c == Unescape(s[pos + 1]) && next == pos + 2
    ensures !(s[pos] == BACKSLASH && pos + 1 < |s|) ==> c == s[pos] && next == pos + 1
  {
    if s[pos] == BACKSLASH && pos + 1 < |s| {
      c, next := Unescape(s[pos + 1]), pos + 2;
    } else {
      c, next := s[pos], pos + 1;
    }
  }

  /** The copied prefix grows by the byte the step takes off the rest. */
  lemma Advance(out: Bytes, c: byte, tail: Bytes, rest: Bytes, total: Bytes)
    requires out + tail == total && tail == [c] + rest
    ensures (out + [c]) + rest == total
  {
    assert (out + [c]) + rest == out + ([c] + rest);
  }

  /** JSON string escaping of one byte, the inverse of what the copy loop decodes. */
  function EscapeByte(c: byte): (r: Bytes)
    ensures 1 <= |r| <= 2 && r[0] != QUOTE
  {
    if c == QUOTE || c == BACKSLASH then [BACKSLASH, c]
    else if c == NEWLINE then [BACKSLASH, LETTER_N]
    else if c == TAB then [BACKSLASH, LETTER_T]
    else if c == RETURN then [BACKSLASH, LETTER_R]
    else [c]
  }

  function Escape(v: Bytes): (r: Bytes)
    ensures |v| <= |r| <= 2 * |v|
  {
    if v == [] then [] else EscapeByte(v[0]) + Escape(v[1..])
  }

  /**
   * Copying an escaped value back out gives the value, cut to the room the
   * buffer leaves: the closing quote ends the copy, and no escaped byte is
   * mistaken for it.
   */
  lemma {:induction false} CopyEscaped(v: Bytes, t: Bytes, room: int)
    requires room >= 0 && t != [] && t[0] == QUOTE
    ensures CopyValue(Escape(v) + t, room) == v[..if |v| < room then |v| else room]
  {
    if v == [] {
      assert Escape(v) + t == t;
      assert CopyValue(t, room) == [];
    } else if room == 0 {
      assert v[..0] == [];
    } else {
      CopyEscaped(v[1..], t, room - 1);
      CopyEscapedStep(v, t, room);
      var m := if |v| < room then |v| else room;
      assert (if |v[1..]| < room - 1 then |v[1..]| else room - 1) == m - 1;
      assert v[1..][..m - 1] == v[1..m];
      assert v[..m] == [v[0]] + v[1..m];
    }
  }

  /** The first escaped byte of a value is copied back as that byte. */
  lemma CopyEscapedStep(v: Bytes, t: Bytes, room: int)
    requires v != [] && room > 0
    ensures CopyValue(Escape(v) + t, room) == [v[0]] + CopyValue(Escape(v[1..]) + t, room - 1)
  {
    var tail := Escape(v[1..]) + t;
    assert Escape(v) + t == EscapeByte(v[0]) + tail;
    CopyEscapedByte(v[0], tail, room);
  }

  /** One escaped byte is copied back as that byte. */
  lemma CopyEscapedByte(c: byte, tail: Bytes, room: int)
    requires room > 0
    ensures CopyValue(EscapeByte(c) + tail, room) == [c] + CopyValue(tail, room - 1)
  {
    var s := EscapeByte(c) + tail;
    if |EscapeByte(c)| == 2 {
      assert s[0] == BACKSLASH && s[1] == EscapeByte(c)[1] && s[2..] == tail;
      assert Unescape(EscapeByte(c)[1]) == c;
    } else {
      assert s[0] == c && s[1..] == tail;
    }
  }

  /** An escape other than `\n`, `\t` or `\r` stands for the escaped byte itself. */
  lemma OtherEscapePassesThrough(c: byte, s: Bytes, room: int)
    requires room > 0 && c != LETTER_N && c != LETTER_T && c != LETTER_R
    ensures CopyValue([BACKSLASH, c] + s, room) == [c] + CopyValue(s, room - 1)
  {
    assert ([BACKSLASH, c] + s)[2..] == s;
  }

  /** The copy never brings in a NUL byte the input did not hold, so the value is a C string. */
  lemma {:induction false} CopyValueNoNul(s: Bytes, room: int)
    requires NoNul(s)
    ensures NoNul(CopyValue(s, room))
    decreases |s|
  {
    if s == [] || s[0] == QUOTE || room <= 0 {
    } else if s[0] == BACKSLASH && |s| > 1 {
      assert NoNul(s[2..]);
      CopyValueNoNul(s[2..], room - 1);
    } else {
      assert NoNul(s[1..]);
      CopyValueNoNul(s[1..], room - 1);
    }
  }

  /** strstr reports the first match. */
  lemma {:induction false} FindFromFinds(s: Bytes, pat: Bytes, j: nat, k: nat)
    requires j <= k && MatchAt(s, pat, k)
    requires forall i :: j <= i < k ==> !MatchAt(s, pat, i)
    ensures FindFrom(s, pat, j) == Some(k)
    decreases k - j
  {
    if j < k {
      assert !MatchAt(s, pat, j);
      FindFromFinds(s, pat, j + 1, k);
    }
  }

  /** A run of spaces followed by a byte that is not one is skipped exactly. */
  lemma {:induction false} SkipRun(s: Bytes, a: nat, b: nat)
    requires a <= b < |s| && !IsSpace(s[b])
    requires forall i :: a <= i < b ==> IsSpace(s[i])
    ensures SkipSpaces(s, a) == b
    decreases b - a
  {
    if a < b {
      SkipRun(s, a + 1, b);
    }
  }

  predicate AllSpaces(sp: Bytes) {
    forall i :: 0 <= i < |sp| ==> IsSpace(sp[i])
  }

  function Line(pre: Bytes, field: Bytes, sp: Bytes, v: Bytes, post: Bytes): Bytes {
    pre + SearchPattern(field) + sp + [QUOTE] + Escape(v) + [QUOTE] + post
  }

  /**
   * A line holding `"field":`, spaces and a quoted value, with no earlier
   * occurrence of the pattern, yields that value, cut to bufferSize - 1 bytes.
   */
  lemma ExtractOfLine(pre: Bytes, field: Bytes, sp: Bytes, v: Bytes, post: Bytes, bufferSize: int)
    requires bufferSize >= 1 && AllSpaces(sp)
    requires forall i :: 0 <= i < |pre| ==> !MatchAt(Line(pre, field, sp, v, post), SearchPattern(field), i)
    ensures ExtractField(Line(pre, field, sp, v, post), field, bufferSize) ==
              Some(v[..if |v| < bufferSize - 1 then |v| else bufferSize - 1])
  {
    CopyEscaped(v, [QUOTE] + post, bufferSize - 1);
    LineValue(pre, field, sp, v, post, bufferSize);
  }

  /** In such a line the copy starts at the escaped value, just past the quote after the spaces. */
  lemma LineValue(pre: Bytes, field: Bytes, sp: Bytes, v: Bytes, post: Bytes, bufferSize: int)
    requires AllSpaces(sp)
    requires forall i :: 0 <= i < |pre| ==> !MatchAt(Line(pre, field, sp, v, post), SearchPattern(field), i)
    ensures ExtractField(Line(pre, field, sp, v, post), field, bufferSize) ==
              Some(CopyValue(Escape(v) + ([QUOTE] + post), bufferSize - 1))
  {
    FindInLine(pre, field, sp, v, post);
    SkipInLine(pre, field, sp, v, post);
    RestOfLine(pre, field, sp, v, post);
    ValueAt(Line(pre, field, sp, v, post), field, bufferSize, |pre|, |pre| + |SearchPattern(field)| + |sp|,
            Escape(v) + ([QUOTE] + post));
  }

  /** Where strstr and the whitespace loop stop decides the value: the copy of what follows the quote. */
  lemma ValueAt(json: Bytes, field: Bytes, bufferSize: int, k: nat, p: nat, rest: Bytes)
    requires FindFrom(json, SearchPattern(field), 0) == Some(k)
    requires SkipSpaces(json, k + |SearchPattern(field)|) == p && p < |json| && json[p] == QUOTE
    requires json[p + 1..] == rest
    ensures ExtractField(json, field, bufferSize) == Some(CopyValue(rest, bufferSize - 1))
  {
  }

  /** The layout of a line: the pattern at |pre|, the spaces, the opening quote, the rest. */
  lemma RestOfLine(pre: Bytes, field: Bytes, sp: Bytes, v: Bytes, post: Bytes)
    ensures var json := Line(pre, field, sp, v, post);
            var k := |pre|;
            var p := k + |SearchPattern(field)| + |sp|;
            p < |json| && MatchAt(json, SearchPattern(field), k) && json[p] == QUOTE &&
            json[p + 1..] == Escape(v) + ([QUOTE] + post) &&
            json[k + |SearchPattern(field)|..p] == sp
  {
    var pat := SearchPattern(field);
    var json := Line(pre, field, sp, v, post);
    var rest := Escape(v) + ([QUOTE] + post);
    assert json == pre + pat + sp + [QUOTE] + rest;
    var k := |pre|;
    var p := k + |pat| + |sp|;
    assert json[k..k + |pat|] == pat;
    assert json[k + |pat|..p] == sp;
    assert json[p] == QUOTE;
    assert json[p + 1..] == rest;
  }

  /** strstr finds the pattern right after pre. */
  lemma FindInLine(pre: Bytes, field: Bytes, sp: Bytes, v: Bytes, post: Bytes)
    requires forall i :: 0 <= i < |pre| ==> !MatchAt(Line(pre, field, sp, v, post), SearchPattern(field), i)
    ensures FindFrom(Line(pre, field, sp, v, post), SearchPattern(field), 0) == Some(|pre|)
  {
    RestOfLine(pre, field, sp, v, post);
    FindFromFinds(Line(pre, field, sp, v, post), SearchPattern(field), 0, |pre|);
  }

  /** The whitespace loop stops at the opening quote. */
  lemma SkipInLine(pre: Bytes, field: Bytes, sp: Bytes, v: Bytes, post: Bytes)
    requires AllSpaces(sp)
    ensures var q := |pre| + |SearchPattern(field)|;
            SkipSpaces(Line(pre, field, sp, v, post), q) == q + |sp|
  {
    var json := Line(pre, field, sp, v, post);
    var q := |pre| + |SearchPattern(field)|;
    var p := q + |sp|;
    RestOfLine(pre, field, sp, v, post);
    forall i | q <= i < p
      ensures IsSpace(json[i])
    {
      assert json[i] == json[q..p][i - q];
    }
    SkipRun(json, q, p);
  }

  /** Without an occurrence of `"field":` there is no value. */
  lemma ExtractAbsent(json: Bytes, field: Bytes, bufferSize: int)
    requires forall i :: 0 <= i <= |json| ==> !MatchAt(json, SearchPattern(field), i)
    ensures ExtractField(json, field, bufferSize) == None
  {
  }
}
