/**
 * The query lexer (`QueryParser` in the engine): a cursor over the query
 * bytes that hands out one token per call.
 *
 *   `&&` -> And, `||` -> Or, `!` -> Not, `(` -> LParen, `)` -> RParen,
 *   a maximal run of bytes that are neither whitespace nor one of `( ) ! & |`
 *   -> Term, end of input -> End. A `&` or `|` that is not doubled is dropped.
 *
 * NextToken is the specification of one call; the class does the same work with
 * the engine's while loops and its recursive retry after a dropped byte.
 */
module QueryLexer {
  import opened ByteCodec

  datatype Token = Term(value: Bytes) | And | Or | Not | LParen | RParen | End

  const LPAREN_BYTE: byte := 40   // '('
  const RPAREN_BYTE: byte := 41   // ')'
  const BANG_BYTE: byte := 33     // '!'
  const AMP_BYTE: byte := 38      // '&'
  const BAR_BYTE: byte := 124     // '|'

  /** std::isspace in the "C" locale: space, \t, \n, \v, \f, \r. */
  predicate IsSpace(c: byte) {
    c == 32 || 9 <= c <= 13
  }

  /** A byte that ends a term (the break condition of read_term). */
  predicate EndsTerm(c: byte) {
    IsSpace(c) || c == LPAREN_BYTE || c == RPAREN_BYTE || c == BANG_BYTE || c == AMP_BYTE || c == BAR_BYTE
  }

  /** Where skip_whitespace leaves the cursor: past the run of spaces at pos. */
  function SkipSpaces(q: Bytes, pos: nat): (p: nat)
    requires pos <= |q|
    ensures pos <= p <= |q|
    ensures forall i :: pos <= i < p ==> IsSpace(q[i])
    ensures p == |q| || !IsSpace(q[p])
    decreases |q| - pos
  {
    if pos < |q| && IsSpace(q[pos]) then SkipSpaces(q, pos + 1) else pos
  }

  /** Where read_term stops: past the run of term bytes at pos. */
  function TermEnd(q: Bytes, pos: nat): (e: nat)
    requires pos <= |q|
    ensures pos <= e <= |q|
    ensures forall i :: pos <= i < e ==> !EndsTerm(q[i])
    ensures e == |q| || EndsTerm(q[e])
    decreases |q| - pos
  {
    if pos < |q| && !EndsTerm(q[pos]) then TermEnd(q, pos + 1) else pos
  }

  /**
   * get_next_token from cursor pos: the token and the new cursor. Every call
   * either reports End with the cursor at the end of the query or moves the
   * cursor forward. A Term's value is a non-empty run of term bytes that ends
   * at a delimiter or at the end of the query, and everything skipped before it
   * is whitespace or a dropped `&`/`|`.
   */
  function NextToken(q: Bytes, pos: nat): (r: (Token, nat))
    requires pos <= |q|
    ensures r.1 <= |q|
    ensures r.0 == End ==> r.1 == |q|
    ensures r.0 != End ==> pos < r.1
    decreases |q| - pos
  {
    var p := SkipSpaces(q, pos);
    if p == |q| then (End, p)
    else if q[p] == LPAREN_BYTE then (LParen, p + 1)
    else if q[p] == RPAREN_BYTE then (RParen, p + 1)
    else if q[p] == BANG_BYTE then (Not, p + 1)
    else if q[p] == AMP_BYTE && p + 1 < |q| && q[p + 1] == AMP_BYTE then (And, p + 2)
    else if q[p] == BAR_BYTE && p + 1 < |q| && q[p + 1] == BAR_BYTE then (Or, p + 2)
    else
      var e := TermEnd(q, p);
      if e > p then (Term(q[p..e]), e)
      else NextToken(q, p + 1)
  }

  /**
   * What a Term from cursor pos looks like: its value is a non-empty run of
   * term bytes that ends at a delimiter or at the end of the query, and
   * everything skipped before it is whitespace or a dropped `&`/`|`.
   */
  ghost predicate TermShape(q: Bytes, pos: nat, r: (Token, nat))
    requires pos <= |q| && r.1 <= |q|
  {
    r.0.Term? ==>
      var s := r.1 - |r.0.value|;
      pos <= s < r.1 && q[s..r.1] == r.0.value &&
      (forall i :: pos <= i < s ==> Skipped(q, i)) &&
      (forall i :: s <= i < r.1 ==> !EndsTerm(q[i])) &&
      (r.1 == |q| || EndsTerm(q[r.1]))
  }

  /** A byte get_next_token passes over: whitespace, or an `&` or `|` that is not doubled. */
  predicate Skipped(q: Bytes, i: nat)
    requires i < |q|
  {
    IsSpace(q[i]) || ((q[i] == AMP_BYTE || q[i] == BAR_BYTE) && !(i + 1 < |q| && q[i + 1] == q[i]))
  }

  /** Every Term that get_next_token returns has that shape. */
  lemma {:induction false} NextTokenTerm(q: Bytes, pos: nat)
    requires pos <= |q|
    ensures TermShape(q, pos, NextToken(q, pos))
    decreases |q| - pos
  {
    var p := SkipSpaces(q, pos);
    if p < |q| && !(q[p] == LPAREN_BYTE || q[p] == RPAREN_BYTE || q[p] == BANG_BYTE)
       && !(q[p] == AMP_BYTE && p + 1 < |q| && q[p + 1] == AMP_BYTE)
       && !(q[p] == BAR_BYTE && p + 1 < |q| && q[p + 1] == BAR_BYTE) {
      if TermEnd(q, p) > p {
        TermAt(q, pos, p);
      } else {
        NextTokenTerm(q, p + 1);
        TermAfterDrop(q, pos, p, NextToken(q, p + 1));
      }
    }
  }

  /** A term read right after the spaces. */
  lemma TermAt(q: Bytes, pos: nat, p: nat)
    requires pos <= |q| && p == SkipSpaces(q, pos) && p < |q| && TermEnd(q, p) > p
    ensures TermShape(q, pos, (Term(q[p..TermEnd(q, p)]), TermEnd(q, p)))
  {
  }

  /** A term found after a dropped byte at p keeps its shape seen from pos. */
  lemma TermAfterDrop(q: Bytes, pos: nat, p: nat, r: (Token, nat))
    requires pos <= |q| && p == SkipSpaces(q, pos) && p < |q| && Skipped(q, p)
    requires r.1 <= |q| && TermShape(q, p + 1, r)
    ensures TermShape(q, pos, r)
  {
  }

  /** The tokens that repeated calls hand out from pos, up to (not including) End. */
  function TokensFrom(q: Bytes, pos: nat): (ts: seq<Token>)
    requires pos <= |q|
    ensures forall i :: 0 <= i < |ts| ==> ts[i] != End
    decreases |q| - pos
  {
    var (t, p) := NextToken(q, pos);
    if t == End then [] else [t] + TokensFrom(q, p)
  }

  function Tokenize(q: Bytes): seq<Token> {
    TokensFrom(q, 0)
  }

  /** Once End has been reported, the stream stays at End. */
  lemma TokensAtEnd(q: Bytes)
    ensures NextToken(q, |q|) == (End, |q|) && TokensFrom(q, |q|) == []
  {
  }

  /** From a cursor at a doubled `&`, the token is And and the cursor moves by two. */
  lemma DoubleAmpersandIsAnd(q: Bytes, pos: nat)
    requires pos + 1 < |q| && q[pos] == AMP_BYTE && q[pos + 1] == AMP_BYTE
    ensures NextToken(q, pos) == (And, pos + 2)
  {
  }

  /** From a cursor at a doubled `|`, the token is Or and the cursor moves by two. */
  lemma DoubleBarIsOr(q: Bytes, pos: nat)
    requires pos + 1 < |q| && q[pos] == BAR_BYTE && q[pos + 1] == BAR_BYTE
    ensures NextToken(q, pos) == (Or, pos + 2)
  {
  }

  /** `(`, `)` and `!` are one-byte tokens. */
  lemma SingleByteOperators(q: Bytes, pos: nat)
    requires pos < |q|
    ensures q[pos] == LPAREN_BYTE ==> NextToken(q, pos) == (LParen, pos + 1)
    ensures q[pos] == RPAREN_BYTE ==> NextToken(q, pos) == (RParen, pos + 1)
    ensures q[pos] == BANG_BYTE ==> NextToken(q, pos) == (Not, pos + 1)
  {
  }

  /** A `&` or `|` that is not doubled is consumed and yields no token of its own. */
  lemma LoneOperatorDropped(q: Bytes, pos: nat)
    requires pos < |q| && (q[pos] == AMP_BYTE || q[pos] == BAR_BYTE)
    requires !(pos + 1 < |q| && q[pos + 1] == q[pos])
    ensures NextToken(q, pos) == NextToken(q, pos + 1)
    ensures TokensFrom(q, pos) == TokensFrom(q, pos + 1)
  {
  }

  /** A byte get_next_token drops: the retry from the next byte gives the same token. */
  lemma RetryAfter(q: Bytes, start: nat, p: nat)
    requires start <= |q| && p == SkipSpaces(q, start) && p < |q| && TermEnd(q, p) == p
    requires !(q[p] == LPAREN_BYTE || q[p] == RPAREN_BYTE || q[p] == BANG_BYTE)
    requires !(q[p] == AMP_BYTE && p + 1 < |q| && q[p + 1] == AMP_BYTE)
    requires !(q[p] == BAR_BYTE && p + 1 < |q| && q[p + 1] == BAR_BYTE)
    ensures NextToken(q, start) == NextToken(q, p + 1)
  {
  }

  /** The lexer as the engine runs it: a cursor `pos` over the query bytes. */
  class QueryParser {
    const query: Bytes
    var pos: nat

    ghost predicate Valid()
      reads this
    {
      pos <= |query|
    }

    constructor (q: Bytes)
      ensures Valid() && query == q && pos == 0
    {
      query := q;
      pos := 0;
    }

    method SkipWhitespace()
      requires Valid()
      modifies this
      ensures Valid() && pos == SkipSpaces(query, old(pos))
    {
      while pos < |query| && IsSpace(query[pos])
        invariant old(pos) <= pos <= |query|
        invariant SkipSpaces(query, pos) == SkipSpaces(query, old(pos))
        decreases |query| - pos
      {
        pos := pos + 1;
      }
    }

    method ReadTerm() returns (term: Bytes)
      requires Valid()
      modifies this
      ensures Valid() && pos == TermEnd(query, old(pos)) && term == query[old(pos)..pos]
    {
      var start := pos;
      while pos < |query|
        invariant start <= pos <= |query|
        invariant TermEnd(query, pos) == TermEnd(query, start)
        decreases |query| - pos
      {
        var c := query[pos];
        if EndsTerm(c) {
          break;
        }
        pos := pos + 1;
      }
      term := query[start..pos];
    }

    method GetNextToken() returns (t: Token)
      requires Valid()
      modifies this
      ensures Valid() && (t, pos) == NextToken(query, old(pos))
      decreases |query| - pos
    {
      ghost var start := pos;
      SkipWhitespace();
      if pos >= |query| {
        return End;
      }
      var p := pos;
      var c := query[p];
      if c == LPAREN_BYTE {
        pos := p + 1;
        return LParen;
      } else if c == RPAREN_BYTE {
        pos := p + 1;
        return RParen;
      } else if c == BANG_BYTE {
        pos := p + 1;
        return Not;
      } else if c == AMP_BYTE {
        if p + 1 < |query| && query[p + 1] == AMP_BYTE {
          pos := p + 2;
          return And;
        }
      } else if c == BAR_BYTE {
        if p + 1 < |query| && query[p + 1] == BAR_BYTE {
          pos := p + 2;
          return Or;
        }
      }
      var term := ReadTerm();
      if term != [] {
        return Term(term);
      }
      RetryAfter(query, start, p);
      pos := p + 1;
      t := GetNextToken();
    }
  }
}
