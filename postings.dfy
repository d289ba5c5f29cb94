/**
 * The indexer's posting store: a chained hash table of HASH_SIZE buckets, each
 * a chain of term entries, the newest first. An entry carries the term, how
 * often it occurred, and the list of documents it occurs in, the newest first.
 *
 * A chain is a sequence of entry values (index 0 is the head), and a bucket
 * update replaces the chain; the store is the array of chains together with
 * the count of distinct terms.
 */
module Postings {
  import opened ByteCodec
  import opened Text
  import opened Wrappers

  const HASH_SIZE: nat := 1000003
  const DJB2_SEED: nat := 5381

  // ------------------------------------------------------------------ hash

  /** djb2 over the characters of s as unsigned 32-bit arithmetic: h = h * 33 + c, wrapping. */
  function Djb2(s: seq<char>): (h: nat)
    ensures h < TWO32
  {
    if s == [] then DJB2_SEED else (Djb2(s[..|s| - 1]) * 33 + s[|s| - 1] as int) % TWO32
  }

  /** The bucket of a term: djb2 of the characters before the first NUL, modulo HASH_SIZE. */
  function BucketOf(s: seq<char>): (b: nat)
    ensures b < HASH_SIZE
  {
    Djb2(BeforeNul(s)) % HASH_SIZE
  }

  lemma ModAdd(a: nat, b: nat)
    ensures (a % TWO32 + b) % TWO32 == (a + b) % TWO32
  {
    var q := a / TWO32;
    assert a == q * TWO32 + a % TWO32;
  }

  /** One turn of hash's loop: `(h << 5) + h + c` in unsigned 32-bit arithmetic is djb2's step. */
  lemma ShiftAddStep(h: nat, c: nat)
    requires h < TWO32
    ensures ((h * 32 % TWO32 + h) % TWO32 + c) % TWO32 == (h * 33 + c) % TWO32
  {
    ModAdd(h * 32, h);
    ModAdd(h * 32 + h, c);
  }

  lemma {:induction false} BeforeNulOfPrefix(s: seq<char>, i: nat)
    requires i <= |s| && (i == |s| || s[i] == NUL) && forall k :: 0 <= k < i ==> s[k] != NUL
    ensures BeforeNul(s) == s[..i]
  {
    if i > 0 {
      BeforeNulOfPrefix(s[1..], i - 1);
      assert s[..i] == [s[0]] + s[1..][..i - 1];
    }
  }

  /** hash: the bucket of a NUL-terminated wide string. */
  method Hash(s: seq<char>) returns (b: nat)
    ensures b == BucketOf(s) && b < HASH_SIZE
  {
    var h: nat := DJB2_SEED;
    var i := 0;
    while i < |s| && s[i] != NUL
      invariant 0 <= i <= |s| && h == Djb2(s[..i])
      invariant forall k :: 0 <= k < i ==> s[k] != NUL
      decreases |s| - i
    {
      ShiftAddStep(h, s[i] as int);
      assert s[..i + 1][..i] == s[..i];
      h := ((h * 32) % TWO32 + h) % TWO32;
      h := (h + s[i] as int) % TWO32;
      i := i + 1;
    }
    BeforeNulOfPrefix(s, i);
    b := h % HASH_SIZE;
  }

  /** The bucket ignores everything from the first NUL on. */
  lemma BucketStopsAtNul(s: seq<char>, t: seq<char>)
    requires NUL !in s
    ensures BucketOf(s + [NUL] + t) == BucketOf(s)
  {
    var u := s + [NUL] + t;
    assert u[|s|] == NUL;
    BeforeNulOfPrefix(u, |s|);
    BeforeNulOfPrefix(s, |s|);
    assert u[..|s|] == s && s[..|s|] == s;
  }

  // --------------------------------------------------------------- entries

  /** A term entry: its term, occurrences counted, and its documents, the newest first. */
  datatype Entry = Entry(term: seq<char>, freq: int, docCount: int, docs: seq<int>)

  predicate Distinct(ds: seq<int>) {
    forall i, j :: 0 <= i < j < |ds| ==> ds[i] != ds[j]
  }

  /** What every entry of the store satisfies. */
  predicate WellFormedEntry(e: Entry) {
    NUL !in e.term && |e.term| <= MAX_TOKEN_CHARS &&
    e.docCount == |e.docs| && Distinct(e.docs) && 1 <= e.docCount <= e.freq
  }

  /** add_doc's effect: an id already listed changes nothing, a new one goes to the head. */
  function WithDoc(e: Entry, docId: int): Entry {
    if docId in e.docs then e else e.(docs := [docId] + e.docs, docCount := e.docCount + 1)
  }

  /** add_doc: scan the document list for the id; if it is missing put it at the head. */
  method AddDoc(e: Entry, docId: int) returns (r: Entry)
    ensures r == WithDoc(e, docId)
  {
    var i := 0;
    while i < |e.docs|
      invariant 0 <= i <= |e.docs| && docId !in e.docs[..i]
      decreases |e.docs| - i
    {
      if e.docs[i] == docId {
        return e;
      }
      assert e.docs[..i + 1] == e.docs[..i] + [e.docs[i]];
      i := i + 1;
    }
    assert e.docs[..i] == e.docs;
    r := e.(docs := [docId] + e.docs, docCount := e.docCount + 1);
  }

  /** After add_doc the id is listed exactly once, and the count still equals the list's length. */
  lemma WithDocListsOnce(e: Entry, docId: int)
    requires Distinct(e.docs) && e.docCount == |e.docs|
    ensures var r := WithDoc(e, docId);
            Distinct(r.docs) && r.docCount == |r.docs| && multiset(r.docs)[docId] == 1 &&
            multiset(r.docs) == multiset(e.docs) + multiset{docId} - (if docId in e.docs then multiset{docId} else multiset{})
  {
    if docId in e.docs {
      DistinctOnce(e.docs, docId);
    } else {
      assert multiset(e.docs)[docId] == 0;
      assert multiset([docId] + e.docs) == multiset{docId} + multiset(e.docs);
    }
  }

  lemma {:induction false} DistinctOnce(ds: seq<int>, x: int)
    requires Distinct(ds) && x in ds
    ensures multiset(ds)[x] == 1
  {
    if ds[0] == x {
      assert x !in ds[1..];
      assert ds == [ds[0]] + ds[1..];
    } else {
      assert Distinct(ds[1..]) by {
        forall i, j | 0 <= i < j < |ds[1..]| ensures ds[1..][i] != ds[1..][j] {
          assert ds[1..][i] == ds[i + 1] && ds[1..][j] == ds[j + 1];
        }
      }
      DistinctOnce(ds[1..], x);
      assert ds == [ds[0]] + ds[1..];
    }
  }

  /** Adding the same document twice is the same as adding it once. */
  lemma WithDocIdempotent(e: Entry, docId: int)
    ensures WithDoc(WithDoc(e, docId), docId) == WithDoc(e, docId)
  {
  }

  // ----------------------------------------------------------------- chains

  /** The position of the entry for t in a chain, if any: where add_term's scan stops. */
  function Find(chain: seq<Entry>, t: seq<char>): (r: Option<nat>)
    ensures r.Some? ==> r.value < |chain| && chain[r.value].term == t &&
                        forall k :: 0 <= k < r.value ==> chain[k].term != t
    ensures r.None? ==> forall k :: 0 <= k < |chain| ==> chain[k].term != t
  {
    if chain == [] then None
    else if chain[0].term == t then Some(0)
    else var r := Find(chain[1..], t); if r.None? then None else Some(r.value + 1)
  }

  /** add_term's effect on the chain of the term's bucket. */
  function AddToChain(chain: seq<Entry>, t: seq<char>, docId: int): seq<Entry> {
    var j := Find(chain, t);
    if j.Some? then chain[j.value := WithDoc(chain[j.value].(freq := chain[j.value].freq + 1), docId)]
    else [WithDoc(Entry(t, 1, 0, []), docId)] + chain
  }

  /** add_term's effect on the store's buckets. */
  function AddToBuckets(bs: seq<seq<Entry>>, t: seq<char>, docId: int): (r: seq<seq<Entry>>)
    requires |bs| == HASH_SIZE
    ensures |r| == HASH_SIZE
  {
    var h := BucketOf(t);
    bs[h := AddToChain(bs[h], t, docId)]
  }

  /** A run of add_term calls for the same document, in order. */
  function AddAllToBuckets(bs: seq<seq<Entry>>, ts: seq<seq<char>>, docId: int): (r: seq<seq<Entry>>)
    requires |bs| == HASH_SIZE
    ensures |r| == HASH_SIZE
  {
    if ts == [] then bs else AddToBuckets(AddAllToBuckets(bs, ts[..|ts| - 1], docId), ts[|ts| - 1], docId)
  }

  /** How many entries the buckets hold. */
  function EntryCount(bs: seq<seq<Entry>>): nat {
    if bs == [] then 0 else EntryCount(bs[..|bs| - 1]) + |bs[|bs| - 1]|
  }

  /** The entry for t, found where the store keeps it. */
  function Lookup(bs: seq<seq<Entry>>, t: seq<char>): Option<Entry>
    requires |bs| == HASH_SIZE
  {
    var j := Find(bs[BucketOf(t)], t);
    if j.Some? then Some(bs[BucketOf(t)][j.value]) else None
  }

  /**
   * The store's invariant: every entry sits in its term's bucket, a chain
   * holds a term at most once, and every entry is well formed.
   */
  predicate WellFormedStore(bs: seq<seq<Entry>>) {
    |bs| == HASH_SIZE &&
    (forall b, j :: 0 <= b < |bs| && 0 <= j < |bs[b]| ==> BucketOf(bs[b][j].term) == b && WellFormedEntry(bs[b][j])) &&
    (forall b, j, k :: 0 <= b < |bs| && 0 <= j < k < |bs[b]| ==> bs[b][j].term != bs[b][k].term)
  }

  // ------------------------------------------------------- add_term lemmas

  lemma FindAfterUpdate(chain: seq<Entry>, j: nat, e: Entry, u: seq<char>)
    requires j < |chain| && e.term == chain[j].term
    ensures Find(chain[j := e], u) == Find(chain, u)
  {
    var c := chain[j := e];
    assert forall k :: 0 <= k < |c| ==> c[k].term == chain[k].term;
  }

  lemma FindAfterPrepend(chain: seq<Entry>, e: Entry, u: seq<char>)
    requires e.term != u
    ensures Find([e] + chain, u) == if Find(chain, u).Some? then Some(Find(chain, u).value + 1) else None
  {
    assert ([e] + chain)[1..] == chain;
  }

  /** add_term leaves the entry of every other term as it was. */
  lemma AddLeavesOtherTerms(bs: seq<seq<Entry>>, t: seq<char>, docId: int, u: seq<char>)
    requires |bs| == HASH_SIZE && u != t
    ensures Lookup(AddToBuckets(bs, t, docId), u) == Lookup(bs, u)
  {
    var h := BucketOf(t);
    var r := AddToBuckets(bs, t, docId);
    if BucketOf(u) == h {
      var chain := bs[h];
      var j := Find(chain, t);
      if j.Some? {
        var e := WithDoc(chain[j.value].(freq := chain[j.value].freq + 1), docId);
        FindAfterUpdate(chain, j.value, e, u);
      } else {
        FindAfterPrepend(chain, WithDoc(Entry(t, 1, 0, []), docId), u);
      }
    }
  }

  /**
   * add_term counts the occurrence: the term's entry has one more occurrence
   * than before (a new entry starts at 1) and lists the document.
   */
  lemma AddCountsOccurrence(bs: seq<seq<Entry>>, t: seq<char>, docId: int)
    requires |bs| == HASH_SIZE
    ensures var r := Lookup(AddToBuckets(bs, t, docId), t);
            r.Some? && r.value.term == t && docId in r.value.docs &&
            r.value.freq == (if Lookup(bs, t).Some? then Lookup(bs, t).value.freq + 1 else 1) &&
            r.value == (if Lookup(bs, t).Some? then WithDoc(Lookup(bs, t).value.(freq := Lookup(bs, t).value.freq + 1), docId)
                        else Entry(t, 1, 1, [docId]))
  {
    var h := BucketOf(t);
    var chain := bs[h];
    var j := Find(chain, t);
    if j.Some? {
      var e := WithDoc(chain[j.value].(freq := chain[j.value].freq + 1), docId);
      FindAfterUpdate(chain, j.value, e, t);
    } else {
      var e := WithDoc(Entry(t, 1, 0, []), docId);
      assert Find([e] + chain, t) == Some(0);
    }
  }

  lemma {:induction false} EntryCountUpdate(bs: seq<seq<Entry>>, h: nat, c: seq<Entry>)
    requires h < |bs|
    ensures EntryCount(bs[h := c]) == EntryCount(bs) - |bs[h]| + |c|
  {
    var n := |bs|;
    var u := bs[h := c];
    assert u[..n - 1] == if h == n - 1 then bs[..n - 1] else bs[..n - 1][h := c];
    if h < n - 1 {
      EntryCountUpdate(bs[..n - 1], h, c);
    }
  }

  /** Only a new term adds an entry to the store. */
  lemma AddCountsNewTerms(bs: seq<seq<Entry>>, t: seq<char>, docId: int)
    requires |bs| == HASH_SIZE
    ensures EntryCount(AddToBuckets(bs, t, docId)) == EntryCount(bs) + (if Lookup(bs, t).None? then 1 else 0)
  {
    EntryCountUpdate(bs, BucketOf(t), AddToChain(bs[BucketOf(t)], t, docId));
  }

  /** A well-formed store holds each term at most once. */
  lemma TermsUnique(bs: seq<seq<Entry>>, b1: nat, j1: nat, b2: nat, j2: nat)
    requires WellFormedStore(bs)
    requires b1 < |bs| && j1 < |bs[b1]| && b2 < |bs| && j2 < |bs[b2]|
    requires bs[b1][j1].term == bs[b2][j2].term
    ensures b1 == b2 && j1 == j2
  {
    assert b1 == BucketOf(bs[b1][j1].term) && b2 == BucketOf(bs[b2][j2].term);
  }

  lemma BumpedWellFormed(e: Entry, docId: int)
    requires WellFormedEntry(e)
    ensures WellFormedEntry(WithDoc(e.(freq := e.freq + 1), docId))
  {
    WithDocListsOnce(e.(freq := e.freq + 1), docId);
  }

  /** The store's invariant for the chain of bucket h. */
  predicate WellFormedChain(c: seq<Entry>, h: nat) {
    (forall j :: 0 <= j < |c| ==> BucketOf(c[j].term) == h && WellFormedEntry(c[j])) &&
    (forall j, k :: 0 <= j < k < |c| ==> c[j].term != c[k].term)
  }

  lemma ChainOf(bs: seq<seq<Entry>>, h: nat)
    requires WellFormedStore(bs) && h < |bs|
    ensures WellFormedChain(bs[h], h)
  {
  }

  lemma StoreUpdate(bs: seq<seq<Entry>>, h: nat, c: seq<Entry>)
    requires WellFormedStore(bs) && h < |bs| && WellFormedChain(c, h)
    ensures WellFormedStore(bs[h := c])
  {
    var r: seq<seq<Entry>> := bs[h := c];
    forall b, j | 0 <= b < |r| && 0 <= j < |r[b]|
      ensures BucketOf(r[b][j].term) == b && WellFormedEntry(r[b][j])
    {
      if b != h {
        assert r[b] == bs[b];
      }
    }
    forall b, j, k | 0 <= b < |r| && 0 <= j < k < |r[b]|
      ensures r[b][j].term != r[b][k].term
    {
      if b != h {
        assert r[b] == bs[b];
      }
    }
  }

  /** add_term keeps the store's invariant, for a term the token buffer can hold. */
  lemma AddKeepsStore(bs: seq<seq<Entry>>, t: seq<char>, docId: int)
    requires WellFormedStore(bs) && NUL !in t && |t| <= MAX_TOKEN_CHARS
    ensures WellFormedStore(AddToBuckets(bs, t, docId))
  {
    var h := BucketOf(t);
    ChainOf(bs, h);
    AddKeepsChain(bs[h], h, t, docId);
    StoreUpdate(bs, h, AddToChain(bs[h], t, docId));
  }

  /** The chain of the term's bucket stays well formed. */
  lemma AddKeepsChain(chain: seq<Entry>, h: nat, t: seq<char>, docId: int)
    requires WellFormedChain(chain, h) && BucketOf(t) == h && NUL !in t && |t| <= MAX_TOKEN_CHARS
    ensures WellFormedChain(AddToChain(chain, t, docId), h)
  {
    var j := Find(chain, t);
    if j.Some? {
      BumpKeepsChain(chain, h, t, docId, j.value);
    } else {
      PrependKeepsChain(chain, h, t, docId);
    }
  }

  /** A term already in the chain: its entry is bumped in place. */
  lemma BumpKeepsChain(chain: seq<Entry>, h: nat, t: seq<char>, docId: int, i: nat)
    requires WellFormedChain(chain, h) && Find(chain, t) == Some(i)
    ensures WellFormedChain(AddToChain(chain, t, docId), h)
  {
    var e := WithDoc(chain[i].(freq := chain[i].freq + 1), docId);
    BumpedWellFormed(chain[i], docId);
    ReplaceInChain(chain, h, i, e);
  }

  /** Replacing one entry by a well-formed one with the same term keeps a chain well formed. */
  lemma ReplaceInChain(chain: seq<Entry>, h: nat, i: nat, e: Entry)
    requires WellFormedChain(chain, h) && i < |chain| && e.term == chain[i].term && WellFormedEntry(e)
    ensures WellFormedChain(chain[i := e], h)
  {
    var c := chain[i := e];
    assert forall k :: 0 <= k < |c| ==> c[k].term == chain[k].term;
  }

  /** A new term: its entry goes to the head of the chain. */
  lemma PrependKeepsChain(chain: seq<Entry>, h: nat, t: seq<char>, docId: int)
    requires WellFormedChain(chain, h) && BucketOf(t) == h && NUL !in t && |t| <= MAX_TOKEN_CHARS
    requires Find(chain, t) == None
    ensures WellFormedChain(AddToChain(chain, t, docId), h)
  {
    var e := WithDoc(Entry(t, 1, 0, []), docId);
    assert [docId] + [] == [docId];
    assert e == Entry(t, 1, 1, [docId]);
    assert Distinct([docId]);
    PrependInChain(chain, h, e);
  }

  /** Putting a well-formed entry of the bucket, with a new term, at the head keeps a chain well formed. */
  lemma PrependInChain(chain: seq<Entry>, h: nat, e: Entry)
    requires WellFormedChain(chain, h) && BucketOf(e.term) == h && WellFormedEntry(e)
    requires forall k :: 0 <= k < |chain| ==> chain[k].term != e.term
    ensures WellFormedChain([e] + chain, h)
  {
    var c := [e] + chain;
    assert forall k :: 1 <= k < |c| ==> c[k] == chain[k - 1];
  }

  lemma {:induction false} EmptyCount(bs: seq<seq<Entry>>)
    requires forall b :: 0 <= b < |bs| ==> bs[b] == []
    ensures EntryCount(bs) == 0
  {
    if bs != [] {
      EmptyCount(bs[..|bs| - 1]);
    }
  }

  lemma AddAllStep(bs: seq<seq<Entry>>, ts: seq<seq<char>>, t: seq<char>, docId: int)
    requires |bs| == HASH_SIZE
    ensures AddAllToBuckets(bs, ts + [t], docId) == AddToBuckets(AddAllToBuckets(bs, ts, docId), t, docId)
  {
    assert (ts + [t])[..|ts|] == ts;
  }

  /** A term's freq in the store, 0 when it is absent. */
  function FreqOf(bs: seq<seq<Entry>>, t: seq<char>): int
    requires |bs| == HASH_SIZE
  {
    if Lookup(bs, t).Some? then Lookup(bs, t).value.freq else 0
  }

  /**
   * A run of add_term calls for one document: a term that occurs k times
   * gains exactly k in freq and lists the document; any other term keeps
   * its entry.
   */
  lemma {:induction false} AddAllCounts(bs: seq<seq<Entry>>, ts: seq<seq<char>>, docId: int, t: seq<char>)
    requires |bs| == HASH_SIZE
    ensures multiset(ts)[t] == 0 ==> Lookup(AddAllToBuckets(bs, ts, docId), t) == Lookup(bs, t)
    ensures multiset(ts)[t] > 0 ==>
              var r := Lookup(AddAllToBuckets(bs, ts, docId), t);
              r.Some? && r.value.term == t && docId in r.value.docs &&
              r.value.freq == FreqOf(bs, t) + multiset(ts)[t]
    decreases |ts|
  {
    if ts != [] {
      var init := ts[..|ts| - 1];
      var last := ts[|ts| - 1];
      assert ts == init + [last];
      AddAllCounts(bs, init, docId, t);
      var m := AddAllToBuckets(bs, init, docId);
      assert AddAllToBuckets(bs, ts, docId) == AddToBuckets(m, last, docId);
      assert multiset(ts) == multiset(init) + multiset{last};
      if last == t {
        AddCountsOccurrence(m, t, docId);
      } else {
        AddLeavesOtherTerms(m, last, docId, t);
      }
    }
  }

  /** add_term calls with terms the token buffer can hold keep the store's invariant. */
  lemma {:induction false} AddAllKeepsStore(bs: seq<seq<Entry>>, ts: seq<seq<char>>, docId: int)
    requires WellFormedStore(bs)
    requires forall k :: 0 <= k < |ts| ==> NUL !in ts[k] && |ts[k]| <= MAX_TOKEN_CHARS
    ensures WellFormedStore(AddAllToBuckets(bs, ts, docId))
    decreases |ts|
  {
    if ts != [] {
      var init := ts[..|ts| - 1];
      assert forall k :: 0 <= k < |init| ==> init[k] == ts[k];
      AddAllKeepsStore(bs, init, docId);
      AddKeepsStore(AddAllToBuckets(bs, init, docId), ts[|ts| - 1], docId);
    }
  }

  /** An entry found in a well-formed store is well formed. */
  lemma LookupWellFormed(bs: seq<seq<Entry>>, t: seq<char>)
    requires WellFormedStore(bs) && Lookup(bs, t).Some?
    ensures WellFormedEntry(Lookup(bs, t).value)
  {
  }

  /**
   * process_html's effect on one term: a term of the text that occurs k times
   * gains exactly k in freq and lists the document exactly once; a term not
   * in the text keeps its entry.
   */
  lemma DocumentCounts(bs: seq<seq<Entry>>, text: seq<char>, docId: int, t: seq<char>)
    requires WellFormedStore(bs)
    ensures var k := multiset(Tokens(text))[t];
            var r := Lookup(AddAllToBuckets(bs, Tokens(text), docId), t);
            (k == 0 ==> r == Lookup(bs, t)) &&
            (k > 0 ==> r.Some? && r.value.term == t && r.value.freq == FreqOf(bs, t) + k &&
                       multiset(r.value.docs)[docId] == 1)
  {
    var ts := Tokens(text);
    TokensAreTerms(text);
    AddAllCounts(bs, ts, docId, t);
    if multiset(ts)[t] > 0 {
      var after := AddAllToBuckets(bs, ts, docId);
      AddAllKeepsStore(bs, ts, docId);
      LookupWellFormed(after, t);
      DistinctOnce(Lookup(after, t).value.docs, docId);
    }
  }

  /** DocumentCounts for every term at once. */
  lemma TextCounts(before: seq<seq<Entry>>, after: seq<seq<Entry>>, text: seq<char>, docId: int)
    requires WellFormedStore(before) && after == AddAllToBuckets(before, Tokens(text), docId)
    ensures forall t :: multiset(Tokens(text))[t] == 0 ==> Lookup(after, t) == Lookup(before, t)
    ensures forall t :: multiset(Tokens(text))[t] > 0 ==>
              Lookup(after, t).Some? &&
              Lookup(after, t).value.freq == FreqOf(before, t) + multiset(Tokens(text))[t] &&
              multiset(Lookup(after, t).value.docs)[docId] == 1
  {
    forall t
      ensures multiset(Tokens(text))[t] == 0 ==> Lookup(after, t) == Lookup(before, t)
      ensures multiset(Tokens(text))[t] > 0 ==>
                Lookup(after, t).Some? &&
                Lookup(after, t).value.freq == FreqOf(before, t) + multiset(Tokens(text))[t] &&
                multiset(Lookup(after, t).value.docs)[docId] == 1
    {
      DocumentCounts(before, text, docId, t);
    }
  }

  /** The indexer's `hash_table` and its count of distinct terms. */
  class PostingStore {
    const buckets: array<seq<Entry>>
    var totalUniqueTerms: int

    ghost predicate Valid()
      reads this, buckets
    {
      buckets.Length == HASH_SIZE && WellFormedStore(buckets[..]) && totalUniqueTerms == EntryCount(buckets[..])
    }

    /** An empty table: every bucket is an empty chain. */
    constructor ()
      ensures Valid() && fresh(buckets) && totalUniqueTerms == 0
      ensures forall b :: 0 <= b < HASH_SIZE ==> buckets[b] == []
    {
      buckets := new seq<Entry>[HASH_SIZE](_ => []);
      totalUniqueTerms := 0;
      new;
      EmptyCount(buckets[..]);
    }

    /**
     * add_term: scan the chain of the token's bucket; bump the entry found, or
     * push a new one at the head of the chain and count a new term.
     */
    method AddTerm(token: seq<char>, docId: int)
      requires Valid() && NUL !in token && |token| <= MAX_TOKEN_CHARS
      modifies this, buckets
      ensures Valid()
      ensures buckets[..] == AddToBuckets(old(buckets[..]), token, docId)
      ensures totalUniqueTerms == old(totalUniqueTerms) + (if Lookup(old(buckets[..]), token).None? then 1 else 0)
      ensures Lookup(old(buckets[..]), token).None? ==>
                buckets[BucketOf(token)] == [Entry(token, 1, 1, [docId])] + old(buckets[BucketOf(token)])
    {
      ghost var bs := buckets[..];
      var h := Hash(token);
      var chain := buckets[h];
      var j := 0;
      while j < |chain| && chain[j].term != token
        invariant 0 <= j <= |chain| && forall k :: 0 <= k < j ==> chain[k].term != token
        decreases |chain| - j
      {
        j := j + 1;
      }
      if j < |chain| {
        assert Find(chain, token) == Some(j);
        var e := AddDoc(chain[j].(freq := chain[j].freq + 1), docId);
        buckets[h] := chain[j := e];
      } else {
        assert Find(chain, token) == None;
        var e := AddDoc(Entry(token, 1, 0, []), docId);
        assert [docId] + [] == [docId];
        buckets[h] := [e] + chain;
        totalUniqueTerms := totalUniqueTerms + 1;
      }
      assert buckets[..] == AddToBuckets(bs, token, docId);
      AddKeepsStore(bs, token, docId);
      AddCountsNewTerms(bs, token, docId);
    }

    /** The commit step of process_html: terminate the buffer, stem it, add the term. */
    method CommitToken(token: array<char>, len: nat, docId: int, ghost run: seq<char>)
      requires Valid() && 0 < len < token.Length
      requires run != [] && (forall i :: 0 <= i < |run| ==> IsValidChar(run[i])) && token[..len] == Buffered(run)
      modifies this, buckets, token
      ensures Valid() && buckets[..] == AddToBuckets(old(buckets[..]), Commit(run), docId)
    {
      token[len] := NUL;
      assert token[..len] == Buffered(run);
      var m := StemInPlace(token, len);
      CommitValid(run);
      AddTerm(token[..m], docId);
    }

    /** One turn of process_html's loop: c extends the open run or closes it. */
    method Feed(token: array<char>, len: nat, c: char, docId: int,
                ghost runs: seq<seq<char>>, ghost run: seq<char>, ghost before: seq<seq<Entry>>)
      returns (len2: nat)
      requires Valid() && token.Length == MAX_TOKEN_LEN && |before| == HASH_SIZE
      requires forall i :: 0 <= i < |run| ==> IsValidChar(run[i])
      requires len == |Buffered(run)| && token[..len] == Buffered(run)
      requires buckets[..] == AddAllToBuckets(before, CommitAll(runs), docId)
      modifies this, buckets, token
      ensures Valid()
      ensures len2 == |Buffered(NextRuns(runs, run, c).1)| && token[..len2] == Buffered(NextRuns(runs, run, c).1)
      ensures buckets[..] == AddAllToBuckets(before, CommitAll(NextRuns(runs, run, c).0), docId)
    {
      if IsValidChar(c) {
        len2 := BufferChar(token, len, c, run);
      } else {
        CloseRun(token, len, docId, runs, run, before);
        len2 := 0;
      }
    }

    /** A separator closes the open run, if there is one, and commits it. */
    method CloseRun(token: array<char>, len: nat, docId: int,
                    ghost runs: seq<seq<char>>, ghost run: seq<char>, ghost before: seq<seq<Entry>>)
      requires Valid() && token.Length == MAX_TOKEN_LEN && |before| == HASH_SIZE
      requires forall i :: 0 <= i < |run| ==> IsValidChar(run[i])
      requires len == |Buffered(run)| && token[..len] == Buffered(run)
      requires buckets[..] == AddAllToBuckets(before, CommitAll(runs), docId)
      modifies this, buckets, token
      ensures Valid()
      ensures buckets[..] == AddAllToBuckets(before, CommitAll(if run == [] then runs else runs + [run]), docId)
    {
      if len > 0 {
        AddAllStep(before, CommitAll(runs), Commit(run), docId);
        CommitAllStep(runs, run);
        CommitToken(token, len, docId, run);
      }
    }

    /** A token character goes into the buffer, lower-cased, while there is room. */
    static method BufferChar(token: array<char>, len: nat, c: char, ghost run: seq<char>) returns (len2: nat)
      requires token.Length == MAX_TOKEN_LEN && len == |Buffered(run)| && token[..len] == Buffered(run)
      modifies token
      ensures len2 == |Buffered(run + [c])| && token[..len2] == Buffered(run + [c])
    {
      BufferedStep(run, c);
      len2 := len;
      if len < MAX_TOKEN_LEN - 1 {
        token[len] := Lower(c);
        len2 := len + 1;
      }
    }

    /**
     * process_html's token loop over the wide text: token characters go to the
     * buffer, lower-cased, while it has room; any other character commits the
     * buffered token, stemmed, with add_term. The loop stops at the first NUL.
     */
    method ProcessHtml(text: seq<char>, docId: int)
      requires Valid()
      modifies this, buckets
      ensures Valid()
      ensures buckets[..] == AddAllToBuckets(old(buckets[..]), Tokens(text), docId)
      ensures forall t :: multiset(Tokens(text))[t] == 0 ==> Lookup(buckets[..], t) == Lookup(old(buckets[..]), t)
      ensures forall t :: multiset(Tokens(text))[t] > 0 ==>
                Lookup(buckets[..], t).Some? &&
                Lookup(buckets[..], t).value.freq == FreqOf(old(buckets[..]), t) + multiset(Tokens(text))[t] &&
                multiset(Lookup(buckets[..], t).value.docs)[docId] == 1
    {
      ghost var bs := buckets[..];
      var token := new char[MAX_TOKEN_LEN];
      var len := 0;
      var i := 0;
      ghost var runs: seq<seq<char>> := [];
      ghost var run: seq<char> := [];
      while i < |text| && text[i] != NUL
        invariant 0 <= i <= |text| && NUL !in text[..i]
        invariant runs == ClosedRuns(text[..i]) && run == TrailingRun(text[..i])
        invariant forall k :: 0 <= k < |run| ==> IsValidChar(run[k])
        invariant Valid() && token.Length == MAX_TOKEN_LEN
        invariant buckets[..] == AddAllToBuckets(bs, CommitAll(runs), docId)
        invariant len == |Buffered(run)| && token[..len] == Buffered(run)
        decreases |text| - i
      {
        RunsStep(text[..i], text[i]);
        assert text[..i + 1] == text[..i] + [text[i]];
        len := Feed(token, len, text[i], docId, runs, run, bs);
        runs, run := NextRuns(runs, run, text[i]).0, NextRuns(runs, run, text[i]).1;
        i := i + 1;
      }
      forall k | 0 <= k < i
        ensures text[k] != NUL
      {
        assert text[k] == text[..i][k];
      }
      BeforeNulOfPrefix(text, i);
      TextCounts(bs, buckets[..], text, docId);
    }
  }
}
