/**
 * What the engine shows for a query. A query without any of `& | ! ( )` is
 * looked up as one term (the whole query string is the term); any other query
 * goes through the boolean evaluator. Both paths list at most 50 urls and skip
 * ids that are not a loaded document.
 *
 * The specification functions say which ids are listed; the methods are the
 * engine's loops over the posting list and over the sorted result.
 */
module Presenter {
  import opened Wrappers
  import opened ByteCodec
  import opened IndexFormat
  import opened QueryLexer
  import opened QueryEval

  /** How many urls a result lists. */
  const MAX_LISTED: nat := 50

  /** search_single_term: the term's header line, its listed urls and the "... more" count. */
  datatype SingleResult =
    | NotFound
    | Found(term: Bytes, freq: int, docCount: int, urls: seq<Bytes>, more: Option<int>)

  /** search_boolean: the "Found N" count, the listed urls and the "... more" count. */
  datatype BooleanResult = BooleanResult(found: int, urls: seq<Bytes>, more: Option<int>)

  /** Which path main takes, and what that path shows. */
  datatype Outcome = SingleTerm(single: SingleResult) | Boolean(boolean: BooleanResult)

  // ------------------------------------------------------- listing ids

  predicate InRange(ix: Index, id: int) {
    0 <= id < |ix.documents|
  }

  /** The ids of `ids` that name a loaded document, in their order. */
  function InRangeIds(ix: Index, ids: seq<int>): (r: seq<int>)
    ensures |r| <= |ids|
    ensures forall k :: 0 <= k < |r| ==> InRange(ix, r[k])
  {
    if ids == [] then []
    else
      var last := ids[|ids| - 1];
      InRangeIds(ix, ids[..|ids| - 1]) + if InRange(ix, last) then [last] else []
  }

  /** An id is kept exactly when it occurs in the list and names a loaded document. */
  lemma {:induction false} InRangeIdsMembers(ix: Index, ids: seq<int>)
    ensures forall x :: x in InRangeIds(ix, ids) <==> x in ids && InRange(ix, x)
    decreases |ids|
  {
    if ids != [] {
      var init, last := ids[..|ids| - 1], ids[|ids| - 1];
      InRangeIdsMembers(ix, init);
      assert ids == init + [last];
      assert forall x :: x in ids <==> x in init || x == last;
    }
  }

  /** The first n elements of s, or all of s when it is shorter. */
  function Take(s: seq<int>, n: nat): (r: seq<int>)
    ensures |r| <= n && r <= s
    ensures |s| <= n ==> r == s
  {
    if |s| <= n then s else s[..n]
  }

  /** The url of each id. */
  function UrlsOf(ix: Index, ids: seq<int>): (r: seq<Bytes>)
    requires forall k :: 0 <= k < |ids| ==> InRange(ix, ids[k])
    ensures |r| == |ids|
    ensures forall k :: 0 <= k < |ids| ==> InRange(ix, ids[k]) && r[k] == ix.documents[ids[k]]
  {
    if ids == [] then []
    else
      assert InRange(ix, ids[0]);
      [ix.documents[ids[0]]] + UrlsOf(ix, ids[1..])
  }

  /** The ids a listing shows: the first 50 in-range ids, in the order given. */
  function Listed(ix: Index, ids: seq<int>): (r: seq<int>)
    ensures forall k :: 0 <= k < |r| ==> InRange(ix, r[k])
  {
    Take(InRangeIds(ix, ids), MAX_LISTED)
  }

  lemma {:induction false} InRangeIdsAppend(ix: Index, a: seq<int>, b: seq<int>)
    ensures InRangeIds(ix, a + b) == InRangeIds(ix, a) + InRangeIds(ix, b)
    decreases |b|
  {
    if b == [] {
      assert a + b == a;
    } else {
      var last := b[|b| - 1];
      assert (a + b)[..|a + b| - 1] == a + b[..|b| - 1];
      InRangeIdsAppend(ix, a, b[..|b| - 1]);
    }
  }

  /** Once 50 in-range ids have been seen, the ones after them are not listed. */
  lemma ListedStopsAtCap(ix: Index, ids: seq<int>, i: nat)
    requires i <= |ids| && |InRangeIds(ix, ids[..i])| == MAX_LISTED
    ensures Listed(ix, ids) == InRangeIds(ix, ids[..i])
  {
    assert ids == ids[..i] + ids[i..];
    InRangeIdsAppend(ix, ids[..i], ids[i..]);
  }

  /** A longer prefix never has fewer in-range ids. */
  lemma InRangeIdsMonotone(ix: Index, ids: seq<int>, i: nat, j: nat)
    requires i <= j <= |ids|
    ensures |InRangeIds(ix, ids[..i])| <= |InRangeIds(ix, ids[..j])|
  {
    assert ids[..j] == ids[..i] + ids[i..j];
    InRangeIdsAppend(ix, ids[..i], ids[i..j]);
  }

  /** The listed ids: at most 50, each in range and taken from the input, all of them when few. */
  lemma ListedBounds(ix: Index, ids: seq<int>)
    ensures |Listed(ix, ids)| <= MAX_LISTED
    ensures forall x :: x in Listed(ix, ids) ==> x in ids && InRange(ix, x)
    ensures |InRangeIds(ix, ids)| <= MAX_LISTED ==> forall x :: x in ids && InRange(ix, x) ==> x in Listed(ix, ids)
  {
    var f := InRangeIds(ix, ids);
    InRangeIdsMembers(ix, ids);
    forall x | x in Listed(ix, ids)
      ensures x in f
    {
      var k :| 0 <= k < |Listed(ix, ids)| && Listed(ix, ids)[k] == x;
      assert f[k] == x;
    }
  }

  predicate Ascending(s: seq<int>) {
    forall i, j :: 0 <= i < j < |s| ==> s[i] < s[j]
  }

  /** Keeping only the in-range ids keeps an ascending order ascending. */
  lemma {:induction false} InRangeIdsAscending(ix: Index, ids: seq<int>)
    requires Ascending(ids)
    ensures Ascending(InRangeIds(ix, ids))
    decreases |ids|
  {
    if ids != [] {
      var init := ids[..|ids| - 1];
      var last := ids[|ids| - 1];
      var f := InRangeIds(ix, init);
      InRangeIdsAscending(ix, init);
      InRangeIdsMembers(ix, init);
      forall x | x in f
        ensures x < last
      {
        var k :| 0 <= k < |init| && init[k] == x;
        assert ids[k] == x;
      }
      if InRange(ix, last) {
        var g := f + [last];
        forall i, j | 0 <= i < j < |g|
          ensures g[i] < g[j]
        {
          if j == |f| {
            assert g[i] == f[i] && f[i] in f;
          } else {
            assert g[i] == f[i] && g[j] == f[j];
          }
        }
      } else {
        assert InRangeIds(ix, ids) == f + [];
      }
    }
  }

  /** The boolean listing is in strictly ascending id order. */
  lemma ListedAscending(ix: Index, ids: seq<int>)
    requires Ascending(ids)
    ensures Ascending(Listed(ix, ids))
  {
    InRangeIdsAscending(ix, ids);
  }

  // --------------------------------------------------- sorting a result

  /** The smallest id of a non-empty set. */
  ghost function Min(s: set<int>): (m: int)
    requires s != {}
    ensures m in s
    ensures forall y :: y in s ==> m <= y
    decreases |s|
  {
    HasAnElement(s);
    var x :| x in s;
    var rest := s - {x};
    if rest == {} then
      assert forall y :: y in s ==> y == x by {
        forall y | y in s ensures y == x { assert y !in rest; }
      }
      x
    else
      var m' := Min(rest);
      assert forall y :: y in s ==> y in rest || y == x;
      if x < m' then x else m'
  }

  lemma HasAnElement(s: set<int>)
    requires s != {}
    ensures exists x :: x in s
  {
    if forall x :: x !in s {
      assert false;
    }
  }

  /** The result set as std::sort leaves the vector built from it (see SortedIdsSorted). */
  ghost function SortedIds(s: set<int>): (r: seq<int>)
    ensures |r| == |s|
    decreases |s|
  {
    if s == {} then []
    else
      var m := Min(s);
      var tail := SortedIds(s - {m});
      [m] + tail
  }

  /** The smallest element, found by a scan over the set. */
  method Smallest(s: set<int>) returns (m: int)
    requires s != {}
    ensures m == Min(s)
  {
    HasAnElement(s);
    m :| m in s;
    var todo := s - {m};
    while todo != {}
      invariant todo <= s && m in s
      invariant forall x :: x in s && x !in todo ==> m <= x
      decreases |todo|
    {
      HasAnElement(todo);
      var x :| x in todo;
      if x < m {
        m := x;
      }
      todo := todo - {x};
    }
  }

  /** The sorted vector is strictly ascending and holds exactly the ids of the set. */
  lemma {:induction false} SortedIdsSorted(s: set<int>)
    ensures Ascending(SortedIds(s))
    ensures forall x :: x in SortedIds(s) <==> x in s
    decreases |s|
  {
    if s != {} {
      var m := Min(s);
      var tail := SortedIds(s - {m});
      SortedIdsSorted(s - {m});
      var r := [m] + tail;
      assert SortedIds(s) == r;
      forall i, j | 0 <= i < j < |r|
        ensures r[i] < r[j]
      {
        assert r[j] == tail[j - 1] && tail[j - 1] in tail;
        if i > 0 {
          assert r[i] == tail[i - 1];
        }
      }
      forall x
        ensures x in r <==> x in s
      {
        assert x in r <==> x == m || x in tail;
      }
    }
  }

  lemma SortedIdsUnfold(s: set<int>)
    requires s != {}
    ensures SortedIds(s) == [Min(s)] + SortedIds(s - {Min(s)})
  {
  }

  /** The sorted vector of a result set: the smallest remaining id, one at a time. */
  method SortResult(s: set<int>) returns (r: seq<int>)
    ensures r == SortedIds(s)
  {
    r := [];
    var todo := s;
    while todo != {}
      invariant r + SortedIds(todo) == SortedIds(s)
      decreases |todo|
    {
      var m := Smallest(todo);
      SortStep(r, todo, s, m);
      r := r + [m];
      todo := todo - {m};
    }
  }

  /** Moving the smallest remaining id to the output keeps the output a prefix of the sorted vector. */
  lemma SortStep(r: seq<int>, todo: set<int>, s: set<int>, m: int)
    requires todo != {} && m == Min(todo) && r + SortedIds(todo) == SortedIds(s)
    ensures m in todo && (r + [m]) + SortedIds(todo - {m}) == SortedIds(s)
  {
    SortedIdsUnfold(todo);
    assert (r + [m]) + SortedIds(todo - {m}) == r + ([m] + SortedIds(todo - {m}));
  }

  // ---------------------------------------------------- the two paths

  /** Whether the boolean listing stops early with a "... more" line: a further id follows the 50th listed one. */
  predicate StopsEarly(ix: Index, ids: seq<int>) {
    |ids| > 0 && |InRangeIds(ix, ids[..|ids| - 1])| >= MAX_LISTED
  }

  /** What search_single_term shows for a term. */
  function SingleTermResult(ix: Index, term: Bytes): SingleResult {
    if term !in ix.table then NotFound
    else
      var e := ix.table[term];
      var ids := Listed(ix, e.docs);
      ListedBounds(ix, e.docs);
      Found(e.term, e.freq, e.docCount, UrlsOf(ix, ids), if e.docCount > MAX_LISTED then Some(e.docCount - MAX_LISTED) else None)
  }

  /** What search_boolean shows for a query. */
  ghost function BooleanQueryResult(ix: Index, q: Bytes): BooleanResult {
    var found := EvalQuery(ix, q);
    var sorted := SortedIds(found);
    ListedBounds(ix, sorted);
    BooleanResult(|found|, UrlsOf(ix, Listed(ix, sorted)),
                  if StopsEarly(ix, sorted) then Some(|found| - MAX_LISTED) else None)
  }

  /** The byte that makes main send a query down the boolean path. */
  predicate IsOperatorByte(c: byte) {
    c == AMP_BYTE || c == BAR_BYTE || c == BANG_BYTE || c == LPAREN_BYTE || c == RPAREN_BYTE
  }

  predicate NoOperators(q: Bytes) {
    forall i :: 0 <= i < |q| ==> !IsOperatorByte(q[i])
  }

  /** The is_simple loop of main. */
  method IsSimple(q: Bytes) returns (simple: bool)
    ensures simple <==> NoOperators(q)
  {
    simple := true;
    var i := 0;
    while i < |q|
      invariant 0 <= i <= |q|
      invariant simple <==> NoOperators(q[..i])
      invariant simple
    {
      if IsOperatorByte(q[i]) {
        simple := false;
        assert q[..i + 1][i] == q[i];
        break;
      }
      i := i + 1;
    }
    if simple {
      assert q[..i] == q;
    }
  }

  /** search_single_term: walk the list while fewer than 50 urls are listed. */
  method SearchSingleTerm(ix: Index, term: Bytes) returns (r: SingleResult)
    ensures r == SingleTermResult(ix, term)
  {
    if term !in ix.table {
      return NotFound;
    }
    var e := ix.table[term];
    var docs := e.docs;
    var urls: seq<Bytes> := [];
    ghost var shown: seq<int> := [];
    var i := 0;
    while i < |docs| && |urls| < MAX_LISTED
      invariant 0 <= i <= |docs|
      invariant shown == InRangeIds(ix, docs[..i]) && |shown| <= MAX_LISTED
      invariant urls == UrlsOf(ix, shown)
    {
      var id := docs[i];
      InRangeIdsStep(ix, docs, i);
      if 0 <= id < |ix.documents| {
        UrlsAppend(ix, shown, id);
        urls := urls + [ix.documents[id]];
        shown := shown + [id];
      }
      i := i + 1;
    }
    if i == |docs| {
      assert docs[..i] == docs;
    } else {
      ListedStopsAtCap(ix, docs, i);
    }
    r := Found(e.term, e.freq, e.docCount, urls, if e.docCount > MAX_LISTED then Some(e.docCount - MAX_LISTED) else None);
  }

  /** One more id of the list: it is appended when in range. */
  lemma InRangeIdsStep(ix: Index, ids: seq<int>, i: nat)
    requires i < |ids|
    ensures InRangeIds(ix, ids[..i + 1]) == InRangeIds(ix, ids[..i]) + if InRange(ix, ids[i]) then [ids[i]] else []
  {
    assert ids[..i + 1][..i] == ids[..i];
  }

  lemma UrlsAppend(ix: Index, ids: seq<int>, id: int)
    requires forall k :: 0 <= k < |ids| ==> InRange(ix, ids[k])
    requires InRange(ix, id)
    ensures UrlsOf(ix, ids + [id]) == UrlsOf(ix, ids) + [ix.documents[id]]
  {
  }

  /** search_boolean: evaluate, sort, then list until 50 urls are shown and another id follows. */
  method SearchBoolean(ix: Index, q: Bytes) returns (r: BooleanResult)
    ensures r == BooleanQueryResult(ix, q)
  {
    var found := EvaluateQuery(ix, q);
    var sorted := SortResult(found);
    var urls, more := ListSorted(ix, sorted, |found|);
    r := BooleanResult(|found|, urls, more);
  }

  /** search_boolean's listing loop over the sorted ids; found is the size of the result. */
  method ListSorted(ix: Index, sorted: seq<int>, found: int) returns (urls: seq<Bytes>, more: Option<int>)
    ensures urls == UrlsOf(ix, Listed(ix, sorted))
    ensures more == if StopsEarly(ix, sorted) then Some(found - MAX_LISTED) else None
  {
    urls := [];
    more := None;
    ghost var shown: seq<int> := [];
    var i := 0;
    while i < |sorted|
      invariant 0 <= i <= |sorted|
      invariant shown == InRangeIds(ix, sorted[..i]) && |shown| <= MAX_LISTED
      invariant urls == UrlsOf(ix, shown)
      invariant i > 0 ==> |InRangeIds(ix, sorted[..i - 1])| < MAX_LISTED
      invariant more == None
    {
      if |urls| >= MAX_LISTED {
        more := Some(found - MAX_LISTED);
        break;
      }
      assert |InRangeIds(ix, sorted[..i])| < MAX_LISTED;
      var id := sorted[i];
      InRangeIdsStep(ix, sorted, i);
      if 0 <= id < |ix.documents| {
        UrlsAppend(ix, shown, id);
        urls := urls + [ix.documents[id]];
        shown := shown + [id];
      }
      i := i + 1;
    }
    if more.Some? {
      ListingStopped(ix, sorted, i);
    } else {
      assert sorted[..i] == sorted;
      ListingFinished(ix, sorted);
    }
  }

  /** The loop meets a further id after the 50th listed one: the listing is cut there. */
  lemma ListingStopped(ix: Index, sorted: seq<int>, i: nat)
    requires i < |sorted| && |InRangeIds(ix, sorted[..i])| == MAX_LISTED
    ensures StopsEarly(ix, sorted) && Listed(ix, sorted) == InRangeIds(ix, sorted[..i])
  {
    ListedStopsAtCap(ix, sorted, i);
    InRangeIdsMonotone(ix, sorted, i, |sorted| - 1);
  }

  /** The loop runs to the end: every in-range id is listed. */
  lemma ListingFinished(ix: Index, sorted: seq<int>)
    requires |InRangeIds(ix, sorted)| <= MAX_LISTED
    requires |sorted| > 0 ==> |InRangeIds(ix, sorted[..|sorted| - 1])| < MAX_LISTED
    ensures !StopsEarly(ix, sorted) && Listed(ix, sorted) == InRangeIds(ix, sorted)
  {
  }

  /** main's choice of path for one query. */
  method Search(ix: Index, q: Bytes) returns (o: Outcome)
    ensures NoOperators(q) ==> o == SingleTerm(SingleTermResult(ix, q))
    ensures !NoOperators(q) ==> o == Boolean(BooleanQueryResult(ix, q))
  {
    var simple := IsSimple(q);
    if simple {
      var r := SearchSingleTerm(ix, q);
      o := SingleTerm(r);
    } else {
      var r := SearchBoolean(ix, q);
      o := Boolean(r);
    }
  }

  // ------------------------------------------------------------ lemmas

  /** A query on the single-term path has no operator tokens: every token the lexer gives is a Term. */
  lemma {:induction false} SimpleQueryHasOnlyTerms(q: Bytes, pos: nat)
    requires pos <= |q| && NoOperators(q)
    ensures forall k :: 0 <= k < |TokensFrom(q, pos)| ==> TokensFrom(q, pos)[k].Term?
    decreases |q| - pos
  {
    var p := SkipSpaces(q, pos);
    if p < |q| {
      assert !EndsTerm(q[p]);
      var (t, p') := NextToken(q, pos);
      assert t.Term?;
      SimpleQueryHasOnlyTerms(q, p');
    }
  }

  /** The boolean listing: ascending, at most 50, each a loaded document in the result. */
  lemma BooleanListing(ix: Index, q: Bytes)
    ensures var ids := Listed(ix, SortedIds(EvalQuery(ix, q)));
            Ascending(ids) && |ids| <= MAX_LISTED &&
            forall x :: x in ids ==> x in EvalQuery(ix, q) && InRange(ix, x)
  {
    var sorted := SortedIds(EvalQuery(ix, q));
    SortedIdsSorted(EvalQuery(ix, q));
    ListedAscending(ix, sorted);
    ListedBounds(ix, sorted);
  }

  /** With 50 or fewer in-range ids, the single-term listing shows every one of them. */
  lemma SingleListingComplete(ix: Index, term: Bytes)
    requires term in ix.table && |InRangeIds(ix, ix.table[term].docs)| <= MAX_LISTED
    ensures Listed(ix, ix.table[term].docs) == InRangeIds(ix, ix.table[term].docs)
  {
  }

  /** The "... more" line of the single-term path counts from doc_count, not from what was listed. */
  lemma SingleMoreCountsDocCount(ix: Index, term: Bytes)
    requires term in ix.table
    ensures SingleTermResult(ix, term).more.Some? <==> ix.table[term].docCount > MAX_LISTED
    ensures SingleTermResult(ix, term).more.Some? ==>
              SingleTermResult(ix, term).more.value == ix.table[term].docCount - MAX_LISTED
  {
  }

  /**
   * The "... more" line of the boolean path: it appears only after 50 urls were
   * listed with an id still to come, and always when more than 50 ids are in range.
   */
  lemma BooleanMoreMeansFullListing(ix: Index, q: Bytes)
    ensures var sorted := SortedIds(EvalQuery(ix, q));
            BooleanQueryResult(ix, q).more.Some? ==> |Listed(ix, sorted)| == MAX_LISTED && |sorted| > MAX_LISTED
    ensures var sorted := SortedIds(EvalQuery(ix, q));
            |InRangeIds(ix, sorted)| > MAX_LISTED ==> BooleanQueryResult(ix, q).more.Some?
  {
    var sorted := SortedIds(EvalQuery(ix, q));
    if sorted != [] {
      InRangeIdsStep(ix, sorted, |sorted| - 1);
      assert sorted[..|sorted|] == sorted;
    }
  }
}
