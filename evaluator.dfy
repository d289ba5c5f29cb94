/**
 * The boolean query evaluator (`QueryEvaluator` in the engine): recursive
 * descent that evaluates while it parses.
 *
 *   Expression := Term ((AND | OR) Term)*     left to right, one precedence level
 *   Term       := NOT? Factor
 *   Factor     := TERM | '(' Expression ')'
 *
 * The specification functions take the remaining token stream (its head is the
 * current token; the empty stream stands for End) and return the set and the
 * stream left over. Errors never stop evaluation: an unknown term, a missing
 * `)` and an unexpected token each give the empty set.
 */
module QueryEval {
  import opened ByteCodec
  import opened IndexFormat
  import opened QueryLexer
  import opened DocSets

  /** What the engine holds after loading: the url table and the term table. */
  datatype Index = Index(documents: seq<Bytes>, table: map<Bytes, TermEntry>)

  /** The ids in a term's posting list; none for an unknown term. */
  function Docs(ix: Index, term: Bytes): set<int> {
    if term in ix.table then set i | 0 <= i < |ix.table[term].docs| :: ix.table[term].docs[i] else {}
  }

  function All(ix: Index): set<int> {
    Universe(|ix.documents|)
  }

  predicate IsSuffix(rest: seq<Token>, s: seq<Token>) {
    |rest| <= |s| && rest == s[|s| - |rest|..]
  }

  /**
   * parse_expression: one Term, then the loop over (AND|OR) Term. Its meaning
   * is stated by ExpressionOf, EvalTailChain and ExpressionConsumesPrefix.
   */
  function EvalExpression(ix: Index, s: seq<Token>): (r: (set<int>, seq<Token>))
    ensures |r.1| <= |s|
    decreases |s|, 3
  {
    var (left, rest) := EvalTerm(ix, s);
    EvalTail(ix, left, rest)
  }

  /** The while loop of parse_expression, with `acc` the result so far. */
  function EvalTail(ix: Index, acc: set<int>, s: seq<Token>): (r: (set<int>, seq<Token>))
    ensures |r.1| <= |s|
    decreases |s|, 2
  {
    if s != [] && (s[0] == And || s[0] == Or) then
      var (right, rest) := EvalTerm(ix, s[1..]);
      EvalTail(ix, if s[0] == And then acc * right else acc + right, rest)
    else
      (acc, s)
  }

  /**
   * parse_term: NOT applies to the one Factor that follows it. Its meaning is
   * stated by TermOfNot, TermOfFactor and TermConsumesPrefix.
   */
  function EvalTerm(ix: Index, s: seq<Token>): (r: (set<int>, seq<Token>))
    ensures |r.1| <= |s|
    decreases |s|, 1
  {
    if s != [] && s[0] == Not then
      var (f, rest) := EvalFactor(ix, s[1..]);
      (All(ix) - f, rest)
    else
      EvalFactor(ix, s)
  }

  /**
   * parse_factor. Its meaning is stated by FactorOfTerm, FactorOfParen,
   * UnexpectedTokenIsEmpty and FactorConsumesPrefix.
   */
  function EvalFactor(ix: Index, s: seq<Token>): (r: (set<int>, seq<Token>))
    ensures |r.1| <= |s|
    decreases |s|, 0
  {
    if s != [] && s[0] == LParen then
      var (inner, rest) := EvalExpression(ix, s[1..]);
      CloseParen(inner, rest)
    else if s != [] && s[0].Term? then
      (Docs(ix, s[0].value), s[1..])
    else
      ({}, s)
  }

  /** The `)` check after a parenthesised Expression: a missing `)` gives the empty set. */
  function CloseParen(inner: set<int>, rest: seq<Token>): (r: (set<int>, seq<Token>))
    ensures |r.1| <= |rest|
  {
    if rest != [] && rest[0] == RParen then (inner, rest[1..]) else ({}, rest)
  }

  /** evaluate(): one Expression; whatever follows it is never looked at. */
  function EvalQuery(ix: Index, q: Bytes): set<int> {
    EvalExpression(ix, Tokenize(q)).0
  }

  // ------------------------------------------------------------------ lemmas

  // One unfolding of each parse function, stated on streams built with `+`.

  lemma FactorOfTerm(ix: Index, t: Bytes, s: seq<Token>)
    ensures EvalFactor(ix, [Term(t)] + s) == (Docs(ix, t), s)
    ensures EvalTerm(ix, [Term(t)] + s) == (Docs(ix, t), s)
  {
    assert ([Term(t)] + s)[1..] == s;
  }

  lemma FactorOfParen(ix: Index, s: seq<Token>)
    ensures EvalFactor(ix, [LParen] + s) == CloseParen(EvalExpression(ix, s).0, EvalExpression(ix, s).1)
  {
    assert ([LParen] + s)[1..] == s;
  }

  lemma TermOfNot(ix: Index, s: seq<Token>)
    ensures EvalTerm(ix, [Not] + s) == (All(ix) - EvalFactor(ix, s).0, EvalFactor(ix, s).1)
  {
    assert ([Not] + s)[1..] == s;
  }

  lemma TailOfOperator(ix: Index, acc: set<int>, op: Token, s: seq<Token>)
    requires op == And || op == Or
    ensures var (right, rest) := EvalTerm(ix, s);
            EvalTail(ix, acc, [op] + s) == EvalTail(ix, if op == And then acc * right else acc + right, rest)
  {
    assert ([op] + s)[1..] == s;
  }

  lemma TermOfFactor(ix: Index, s: seq<Token>)
    requires s == [] || s[0] != Not
    ensures EvalTerm(ix, s) == EvalFactor(ix, s)
  {
  }

  lemma TailStops(ix: Index, acc: set<int>, s: seq<Token>)
    requires s == [] || !(s[0] == And || s[0] == Or)
    ensures EvalTail(ix, acc, s) == (acc, s)
  {
  }

  lemma ExpressionOf(ix: Index, s: seq<Token>)
    ensures EvalExpression(ix, s) == EvalTail(ix, EvalTerm(ix, s).0, EvalTerm(ix, s).1)
  {
  }

  /** A flat query `t0 op1 t1 op2 t2 ...` after its first term, as a token stream. */
  function ChainTail(rest: seq<(bool, Bytes)>): seq<Token> {
    if rest == [] then [] else [if rest[0].0 then And else Or, Term(rest[0].1)] + ChainTail(rest[1..])
  }

  /** Strict left-to-right folding: AND as intersection, OR as union. */
  function FoldLeft(ix: Index, acc: set<int>, rest: seq<(bool, Bytes)>): set<int>
    decreases |rest|
  {
    if rest == [] then acc
    else FoldLeft(ix, if rest[0].0 then acc * Docs(ix, rest[0].1) else acc + Docs(ix, rest[0].1), rest[1..])
  }

  lemma {:induction false} EvalTailChain(ix: Index, acc: set<int>, rest: seq<(bool, Bytes)>)
    ensures EvalTail(ix, acc, ChainTail(rest)) == (FoldLeft(ix, acc, rest), [])
    decreases |rest|
  {
    if rest != [] {
      var op := if rest[0].0 then And else Or;
      assert ChainTail(rest) == [op] + ([Term(rest[0].1)] + ChainTail(rest[1..]));
      TailOfOperator(ix, acc, op, [Term(rest[0].1)] + ChainTail(rest[1..]));
      FactorOfTerm(ix, rest[0].1, ChainTail(rest[1..]));
      EvalTailChain(ix, if rest[0].0 then acc * Docs(ix, rest[0].1) else acc + Docs(ix, rest[0].1), rest[1..]);
    }
  }

  /**
   * AND and OR share one precedence level and fold left to right: a flat query
   * evaluates to the left fold of its terms, and nothing is left over.
   */
  lemma FlatQueryFoldsLeft(ix: Index, first: Bytes, rest: seq<(bool, Bytes)>)
    ensures EvalExpression(ix, [Term(first)] + ChainTail(rest)) == (FoldLeft(ix, Docs(ix, first), rest), [])
  {
    FactorOfTerm(ix, first, ChainTail(rest));
    EvalTailChain(ix, Docs(ix, first), rest);
  }

  /** `a && b || c` is (A ∩ B) ∪ C, not A ∩ (B ∪ C). */
  lemma AndThenOrGroupsLeft(ix: Index, a: Bytes, b: Bytes, c: Bytes)
    ensures EvalExpression(ix, [Term(a), And, Term(b), Or, Term(c)]).0
            == (Docs(ix, a) * Docs(ix, b)) + Docs(ix, c)
  {
    var rest := [(true, b), (false, c)];
    assert ChainTail(rest[1..][1..]) == [];
    assert ChainTail(rest[1..]) == [Or, Term(c)];
    assert [Term(a)] + ChainTail(rest) == [Term(a), And, Term(b), Or, Term(c)];
    FlatQueryFoldsLeft(ix, a, rest);
    assert FoldLeft(ix, Docs(ix, a), rest) == FoldLeft(ix, Docs(ix, a) * Docs(ix, b), rest[1..]);
  }

  /** `b || c )`: the Expression inside the parentheses stops at the `)`. */
  lemma OrBeforeCloseParen(ix: Index, b: Bytes, c: Bytes)
    ensures EvalExpression(ix, [Term(b), Or, Term(c), RParen]) == (Docs(ix, b) + Docs(ix, c), [RParen])
  {
    var B, C := Docs(ix, b), Docs(ix, c);
    assert [Term(b), Or, Term(c), RParen] == [Term(b)] + ([Or] + ([Term(c)] + [RParen]));
    FactorOfTerm(ix, b, [Or] + ([Term(c)] + [RParen]));
    TailOfOperator(ix, B, Or, [Term(c)] + [RParen]);
    FactorOfTerm(ix, c, [RParen]);
    TailStops(ix, B + C, [RParen]);
  }

  /** A parenthesised Expression that stops exactly at its `)` is a Term of its own. */
  lemma ParenthesizedTerm(ix: Index, s: seq<Token>, x: set<int>)
    requires EvalExpression(ix, s) == (x, [RParen])
    ensures EvalTerm(ix, [LParen] + s) == (x, [])
  {
    FactorOfParen(ix, s);
    assert [RParen][1..] == [];
  }

  /** `a && g`, where the Term g consumes the rest of the stream. */
  lemma AndLastTerm(ix: Index, a: Bytes, g: seq<Token>, x: set<int>)
    requires EvalTerm(ix, g) == (x, [])
    ensures EvalExpression(ix, [Term(a)] + ([And] + g)) == (Docs(ix, a) * x, [])
  {
    FactorOfTerm(ix, a, [And] + g);
    TailOfOperator(ix, Docs(ix, a), And, g);
    TailStops(ix, Docs(ix, a) * x, []);
  }

  /** `a && (b || c)` is A ∩ (B ∪ C): parentheses override the left fold. */
  lemma ParenthesesGroup(ix: Index, a: Bytes, b: Bytes, c: Bytes)
    ensures EvalExpression(ix, [Term(a)] + ([And] + ([LParen] + [Term(b), Or, Term(c), RParen]))).0
            == Docs(ix, a) * (Docs(ix, b) + Docs(ix, c))
  {
    var inner := [Term(b), Or, Term(c), RParen];
    OrBeforeCloseParen(ix, b, c);
    ParenthesizedTerm(ix, inner, Docs(ix, b) + Docs(ix, c));
    AndLastTerm(ix, a, [LParen] + inner, Docs(ix, b) + Docs(ix, c));
  }

  /** NOT takes the complement of the single Factor after it, over all loaded ids. */
  lemma NotAppliesToOneFactor(ix: Index, a: Bytes, b: Bytes)
    ensures EvalExpression(ix, [Not, Term(a), And, Term(b)]).0 == (All(ix) - Docs(ix, a)) * Docs(ix, b)
  {
    var s := [Not] + ([Term(a)] + ([And] + [Term(b)]));
    assert s == [Not, Term(a), And, Term(b)];
    FactorOfTerm(ix, a, [And] + [Term(b)]);
    TermOfNot(ix, [Term(a)] + ([And] + [Term(b)]));
    TailOfOperator(ix, All(ix) - Docs(ix, a), And, [Term(b)]);
    FactorOfTerm(ix, b, []);
    assert [Term(b)] + [] == [Term(b)];
    assert EvalTail(ix, (All(ix) - Docs(ix, a)) * Docs(ix, b), []) == ((All(ix) - Docs(ix, a)) * Docs(ix, b), []);
  }

  /** `a op !a`, for And or Or. */
  lemma {:induction false} WithOwnComplement(ix: Index, a: Bytes, op: Token)
    requires op == And || op == Or
    ensures var A, N := Docs(ix, a), All(ix) - Docs(ix, a);
            EvalExpression(ix, [Term(a), op, Not, Term(a)]).0 == if op == And then A * N else A + N
  {
    var s := [Term(a)] + ([op] + ([Not] + [Term(a)]));
    assert s == [Term(a), op, Not, Term(a)];
    FactorOfTerm(ix, a, [op] + ([Not] + [Term(a)]));
    TailOfOperator(ix, Docs(ix, a), op, [Not] + [Term(a)]);
    FactorOfTerm(ix, a, []);
    assert [Term(a)] + [] == [Term(a)];
    TermOfNot(ix, [Term(a)]);
  }

  /** `a && !a` is empty. */
  lemma AndNotSelfIsEmpty(ix: Index, a: Bytes)
    ensures EvalExpression(ix, [Term(a), And, Not, Term(a)]).0 == {}
  {
    WithOwnComplement(ix, a, And);
  }

  /** `a || !a` is every loaded id, plus any out-of-range ids that a's list holds. */
  lemma OrNotSelfIsUniverse(ix: Index, a: Bytes)
    ensures EvalExpression(ix, [Term(a), Or, Not, Term(a)]).0 == Docs(ix, a) + All(ix)
  {
    WithOwnComplement(ix, a, Or);
  }

  /**
   * `!!a` is the whole universe: a Factor cannot start with NOT, so the second
   * `!` is an unexpected token (empty set) and the outer NOT complements that.
   */
  lemma DoubleNotIsUniverse(ix: Index, a: Bytes)
    ensures EvalExpression(ix, [Not, Not, Term(a)]) == (All(ix), [Not, Term(a)])
  {
    var t := [Not, Term(a)];
    assert [Not] + t == [Not, Not, Term(a)];
    UnexpectedTokenIsEmpty(ix, t);
    TermOfNot(ix, t);
    assert All(ix) - {} == All(ix);
    TailStops(ix, All(ix), t);
  }

  /** An unknown term evaluates to the empty set and is consumed. */
  lemma UnknownTermIsEmpty(ix: Index, t: Bytes, s: seq<Token>)
    requires t !in ix.table
    ensures EvalFactor(ix, [Term(t)] + s) == ({}, s)
  {
    FactorOfTerm(ix, t, s);
  }

  /** A `(` whose Expression is not followed by `)` gives the empty set; the stray token stays. */
  lemma MissingCloseParenIsEmpty(ix: Index, s: seq<Token>)
    requires var rest := EvalExpression(ix, s).1; rest == [] || rest[0] != RParen
    ensures EvalFactor(ix, [LParen] + s) == ({}, EvalExpression(ix, s).1)
  {
    FactorOfParen(ix, s);
  }

  /** A Factor that begins with anything but TERM or `(` is the empty set and consumes nothing. */
  lemma UnexpectedTokenIsEmpty(ix: Index, s: seq<Token>)
    requires s == [] || !(s[0].Term? || s[0] == LParen)
    ensures EvalFactor(ix, s) == ({}, s)
  {
  }

  /**
   * A parse that stops before the end of its stream never looked past the
   * point where it stopped, so appending tokens changes only the leftover.
   */
  lemma {:induction false} ExpressionExtends(ix: Index, s: seq<Token>, u: seq<Token>)
    requires EvalExpression(ix, s).1 != []
    ensures EvalExpression(ix, s + u) == (EvalExpression(ix, s).0, EvalExpression(ix, s).1 + u)
    decreases |s|, 3
  {
    var (left, rest) := EvalTerm(ix, s);
    assert rest != [];
    TermExtends(ix, s, u);
    TailExtends(ix, left, rest, u);
  }

  lemma {:induction false} TailExtends(ix: Index, acc: set<int>, s: seq<Token>, u: seq<Token>)
    requires EvalTail(ix, acc, s).1 != []
    ensures EvalTail(ix, acc, s + u) == (EvalTail(ix, acc, s).0, EvalTail(ix, acc, s).1 + u)
    decreases |s|, 2
  {
    assert s != [];
    assert (s + u)[0] == s[0] && (s + u)[1..] == s[1..] + u;
    if s[0] == And || s[0] == Or {
      var (right, rest) := EvalTerm(ix, s[1..]);
      assert rest != [];
      TermExtends(ix, s[1..], u);
      TailExtends(ix, if s[0] == And then acc * right else acc + right, rest, u);
    }
  }

  lemma {:induction false} TermExtends(ix: Index, s: seq<Token>, u: seq<Token>)
    requires EvalTerm(ix, s).1 != []
    ensures EvalTerm(ix, s + u) == (EvalTerm(ix, s).0, EvalTerm(ix, s).1 + u)
    decreases |s|, 1
  {
    assert s != [];
    assert s == [s[0]] + s[1..];
    assert s + u == [s[0]] + (s[1..] + u);
    if s[0] == Not {
      TermOfNot(ix, s[1..]);
      TermOfNot(ix, s[1..] + u);
      FactorExtends(ix, s[1..], u);
    } else {
      FactorExtends(ix, s, u);
    }
  }

  lemma {:induction false} FactorExtends(ix: Index, s: seq<Token>, u: seq<Token>)
    requires EvalFactor(ix, s).1 != []
    ensures EvalFactor(ix, s + u) == (EvalFactor(ix, s).0, EvalFactor(ix, s).1 + u)
    decreases |s|, 0
  {
    assert s != [];
    assert s == [s[0]] + s[1..];
    assert s + u == [s[0]] + (s[1..] + u);
    if s[0] == LParen {
      FactorOfParen(ix, s[1..]);
      FactorOfParen(ix, s[1..] + u);
      ExpressionExtends(ix, s[1..], u);
      CloseParenExtends(EvalExpression(ix, s[1..]).0, EvalExpression(ix, s[1..]).1, u);
    } else if s[0].Term? {
      FactorOfTerm(ix, s[0].value, s[1..]);
      FactorOfTerm(ix, s[0].value, s[1..] + u);
    }
  }

  /** Appending tokens after a non-empty leftover does not change the `)` check. */
  lemma CloseParenExtends(inner: set<int>, rest: seq<Token>, u: seq<Token>)
    requires rest != []
    ensures CloseParen(inner, rest + u) == (CloseParen(inner, rest).0, CloseParen(inner, rest).1 + u)
  {
    assert (rest + u)[0] == rest[0];
    assert (rest + u)[1..] == rest[1..] + u;
  }

  /** Every parse function consumes a prefix of its stream: the leftover is a suffix. */
  lemma SuffixTransitive(a: seq<Token>, b: seq<Token>, c: seq<Token>)
    requires IsSuffix(a, b) && IsSuffix(b, c)
    ensures IsSuffix(a, c)
  {
    assert c[|c| - |b|..][|b| - |a|..] == c[|c| - |a|..];
  }

  lemma {:induction false} ExpressionConsumesPrefix(ix: Index, s: seq<Token>)
    ensures IsSuffix(EvalExpression(ix, s).1, s)
    decreases |s|, 3
  {
    var (left, rest) := EvalTerm(ix, s);
    TermConsumesPrefix(ix, s);
    TailConsumesPrefix(ix, left, rest);
    SuffixTransitive(EvalTail(ix, left, rest).1, rest, s);
  }

  lemma {:induction false} TailConsumesPrefix(ix: Index, acc: set<int>, s: seq<Token>)
    ensures IsSuffix(EvalTail(ix, acc, s).1, s)
    decreases |s|, 2
  {
    if s != [] && (s[0] == And || s[0] == Or) {
      var (right, rest) := EvalTerm(ix, s[1..]);
      var acc' := if s[0] == And then acc * right else acc + right;
      TermConsumesPrefix(ix, s[1..]);
      TailConsumesPrefix(ix, acc', rest);
      SuffixTransitive(rest, s[1..], s);
      SuffixTransitive(EvalTail(ix, acc', rest).1, rest, s);
    }
  }

  lemma {:induction false} TermConsumesPrefix(ix: Index, s: seq<Token>)
    ensures IsSuffix(EvalTerm(ix, s).1, s)
    decreases |s|, 1
  {
    if s != [] && s[0] == Not {
      FactorConsumesPrefix(ix, s[1..]);
      SuffixTransitive(EvalFactor(ix, s[1..]).1, s[1..], s);
    } else {
      FactorConsumesPrefix(ix, s);
    }
  }

  lemma {:induction false} FactorConsumesPrefix(ix: Index, s: seq<Token>)
    ensures IsSuffix(EvalFactor(ix, s).1, s)
    decreases |s|, 0
  {
    if s != [] && s[0] == LParen {
      var (inner, rest) := EvalExpression(ix, s[1..]);
      ExpressionConsumesPrefix(ix, s[1..]);
      SuffixTransitive(rest, s[1..], s);
      if rest != [] && rest[0] == RParen {
        SuffixTransitive(rest[1..], rest, s);
      }
    }
  }

  /** Tokens after a complete top-level Expression are ignored. */
  lemma TrailingTokensIgnored(ix: Index, s: seq<Token>, u: seq<Token>)
    requires EvalExpression(ix, s).1 != []
    ensures EvalExpression(ix, s + u).0 == EvalExpression(ix, s).0
  {
    ExpressionExtends(ix, s, u);
  }

  // -------------------------------------------------------------- the engine

  /** get_docs_for_term: inserts every node of the term's list into a set. */
  method DocsForTerm(ix: Index, term: Bytes) returns (r: set<int>)
    ensures r == Docs(ix, term)
  {
    r := {};
    if term in ix.table {
      var docs := ix.table[term].docs;
      var i := 0;
      while i < |docs|
        invariant 0 <= i <= |docs|
        invariant r == set j | 0 <= j < i :: docs[j]
      {
        r := r + {docs[i]};
        i := i + 1;
      }
    }
  }

  /**
   * The evaluator as the engine runs it: it owns the lexer and the current
   * token, and its parse methods advance both as they go.
   */
  class QueryEvaluator {
    const parser: QueryParser
    const index: Index
    var current: Token
    ghost var rest: seq<Token>

    /** The tokens not yet consumed, the current one first; empty once End is current. */
    ghost function Stream(): seq<Token>
      reads this
    {
      if current == End then [] else [current] + rest
    }

    ghost predicate Valid()
      reads this, parser
    {
      parser.Valid() && rest == TokensFrom(parser.query, parser.pos) && (current == End ==> rest == [])
    }

    constructor (p: QueryParser, ix: Index)
      requires p.Valid()
      modifies p
      ensures Valid() && parser == p && index == ix
      ensures parser.query == p.query && Stream() == TokensFrom(p.query, old(p.pos))
    {
      var t := p.GetNextToken();
      parser := p;
      index := ix;
      current := t;
      rest := TokensFrom(p.query, p.pos);
      new;
      TokensAtEnd(p.query);
    }

    method Advance()
      requires Valid() && current != End
      modifies this, parser
      ensures Valid() && Stream() == old(Stream())[1..]
    {
      var t := parser.GetNextToken();
      current := t;
      rest := TokensFrom(parser.query, parser.pos);
      TokensAtEnd(parser.query);
    }

    method ParseExpression() returns (r: set<int>)
      requires Valid()
      modifies this, parser
      ensures Valid() && (r, Stream()) == EvalExpression(index, old(Stream()))
      decreases |Stream()|, 3
    {
      ghost var s0 := Stream();
      r := ParseTerm();
      while current == And || current == Or
        invariant Valid() && |Stream()| <= |s0|
        invariant EvalTail(index, r, Stream()) == EvalExpression(index, s0)
        decreases |Stream()|
      {
        var op := current;
        Advance();
        var right := ParseTerm();
        if op == And {
          r := Intersect(r, right);
        } else {
          r := Union(r, right);
        }
      }
    }

    method ParseTerm() returns (r: set<int>)
      requires Valid()
      modifies this, parser
      ensures Valid() && (r, Stream()) == EvalTerm(index, old(Stream()))
      decreases |Stream()|, 1
    {
      if current == Not {
        Advance();
        var f := ParseFactor();
        r := Complement(f, |index.documents|);
      } else {
        r := ParseFactor();
      }
    }

    method ParseFactor() returns (r: set<int>)
      requires Valid()
      modifies this, parser
      ensures Valid() && (r, Stream()) == EvalFactor(index, old(Stream()))
      decreases |Stream()|, 0
    {
      if current == LParen {
        Advance();
        var inner := ParseExpression();
        ghost var after := Stream();
        if current != RParen {
          assert CloseParen(inner, after) == ({}, after);
          return {};
        }
        Advance();
        assert CloseParen(inner, after) == (inner, Stream());
        r := inner;
      } else if current.Term? {
        var term := current.value;
        Advance();
        r := DocsForTerm(index, term);
      } else {
        r := {};
      }
    }
  }

  /** The boolean path of the engine: lex, evaluate one Expression, ignore the rest. */
  method EvaluateQuery(ix: Index, q: Bytes) returns (r: set<int>)
    ensures r == EvalQuery(ix, q)
  {
    var parser := new QueryParser(q);
    var evaluator := new QueryEvaluator(parser, ix);
    r := evaluator.ParseExpression();
  }
}
