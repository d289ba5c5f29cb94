/**
 * The two index files shared by the indexer and the query engine, in the layout
 * the engine's reader expects.
 *
 *   forward.idx:  int32 document_count,
 *                 then per document three length-prefixed byte strings
 *                 (int32 len, len bytes): title, url, oid.
 *   inverted.idx: int64 term_count,
 *                 then per term: int64 freq, int32 len, len bytes of UTF-8 text,
 *                 int32 doc_count, doc_count int32 document ids.
 *
 * Decoding is a function of the whole file's bytes; a read past its end is an
 * explicit failure. Bytes after the last record are never looked at.
 */
module IndexFormat {
  import opened Wrappers
  import opened ByteCodec

  /** A document-table row as the indexer keeps it. */
  datatype Document = Document(title: Bytes, url: Bytes, oid: Bytes)

  /** A posting entry as the query engine holds it after loading. */
  datatype TermEntry = TermEntry(term: Bytes, freq: int, docCount: int, docs: seq<int>)

  // ---------------------------------------------------------------- forward file

  function EncodeField(s: Bytes): Bytes {
    Int32Bytes(|s|) + s
  }

  function EncodeDocument(d: Document): Bytes {
    EncodeField(d.title) + EncodeField(d.url) + EncodeField(d.oid)
  }

  function EncodeDocuments(ds: seq<Document>): Bytes {
    if ds == [] then [] else EncodeDocument(ds[0]) + EncodeDocuments(ds[1..])
  }

  function EncodeForward(ds: seq<Document>): Bytes {
    Int32Bytes(|ds|) + EncodeDocuments(ds)
  }

  /** One length-prefixed string: `in.read(&l, 4); s.resize(l); in.read(s.data(), l)`. */
  function ReadField(b: Bytes): (r: Result<(Bytes, Bytes)>)
    ensures r.Ok? ==> |r.value.1| + 4 + |r.value.0| == |b| && b[4..] == r.value.0 + r.value.1
  {
    var (l, rest) :- ReadInt32(b);
    ReadBytes(rest, l)
  }

  /**
   * One document record; only the url is kept, as the engine's loader does.
   * ReadDocumentOf states what it reads back from an encoded record.
   */
  function ReadDocument(b: Bytes): (r: Result<(Bytes, Bytes)>)
    ensures r.Ok? ==> |r.value.1| + 12 <= |b|
  {
    var (_, b1) :- ReadField(b);
    var (url, b2) :- ReadField(b1);
    var (_, b3) :- ReadField(b2);
    Ok((url, b3))
  }

  /** n document records in file order. */
  function ReadDocuments(b: Bytes, n: nat): (r: Result<(seq<Bytes>, Bytes)>)
    ensures r.Ok? ==> |r.value.0| == n && |r.value.1| <= |b|
    decreases n
  {
    if n == 0 then Ok(([], b))
    else
      var (url, b1) :- ReadDocument(b);
      var (urls, b2) :- ReadDocuments(b1, n - 1);
      Ok(([url] + urls, b2))
  }

  /**
   * The document table that load_forward leaves in `documents`: the stored
   * count of urls. A negative stored count makes `documents.resize` throw.
   */
  function DecodeForward(b: Bytes): (r: Result<seq<Bytes>>)
    ensures r.Ok? ==> |b| >= 4 && |r.value| == Int32Of(b[..4])
  {
    var (n, rest) :- ReadInt32(b);
    if n < 0 then Err(BadLength)
    else
      var (urls, _) :- ReadDocuments(rest, n);
      Ok(urls)
  }

  // --------------------------------------------------------------- inverted file

  function EncodeIds(ids: seq<int>): Bytes {
    if ids == [] then [] else Int32Bytes(ids[0]) + EncodeIds(ids[1..])
  }

  function EncodeRecord(e: TermEntry): Bytes {
    Int64Bytes(e.freq) + EncodeField(e.term) + Int32Bytes(e.docCount) + EncodeIds(e.docs)
  }

  function EncodeRecords(es: seq<TermEntry>): Bytes {
    if es == [] then [] else EncodeRecord(es[0]) + EncodeRecords(es[1..])
  }

  /** The inverted file in the reader's layout. */
  function EncodeInverted(es: seq<TermEntry>): Bytes {
    Int64Bytes(|es|) + EncodeRecords(es)
  }

  /** The inner loop of load_inverted: n ids, none when n is zero or negative. */
  function ReadIds(b: Bytes, n: int): (r: Result<(seq<int>, Bytes)>)
    ensures r.Ok? ==> |r.value.0| == (if n < 0 then 0 else n) && |r.value.1| <= |b|
    ensures r.Ok? ==> forall i :: 0 <= i < |r.value.0| ==> IsInt32(r.value.0[i])
    decreases if n < 0 then 0 else n
  {
    if n <= 0 then Ok(([], b))
    else
      var (id, b1) :- ReadInt32(b);
      var (ids, b2) :- ReadIds(b1, n - 1);
      Ok(([id] + ids, b2))
  }

  /** One term record: the list has exactly doc_count nodes, in file order. */
  function ReadRecord(b: Bytes): (r: Result<(TermEntry, Bytes)>)
    ensures r.Ok? ==> |r.value.1| + 16 <= |b|
    ensures r.Ok? ==> |r.value.0.docs| == (if r.value.0.docCount < 0 then 0 else r.value.0.docCount)
  {
    var (freq, b1) :- ReadInt64(b);
    var (term, b2) :- ReadField(b1);
    var (count, b3) :- ReadInt32(b2);
    var (ids, b4) :- ReadIds(b3, count);
    Ok((TermEntry(term, freq, count, ids), b4))
  }

  /** n term records in file order; a zero or negative n reads none. */
  function ReadRecords(b: Bytes, n: int): (r: Result<(seq<TermEntry>, Bytes)>)
    ensures r.Ok? ==> |r.value.0| == (if n < 0 then 0 else n) && |r.value.1| <= |b|
    decreases if n < 0 then 0 else n
  {
    if n <= 0 then Ok(([], b))
    else
      var (e, b1) :- ReadRecord(b);
      var (es, b2) :- ReadRecords(b1, n - 1);
      Ok(([e] + es, b2))
  }

  /** The records of an inverted file, in file order. */
  function DecodeInvertedRecords(b: Bytes): (r: Result<seq<TermEntry>>)
    ensures r.Ok? ==> |b| >= 8 && |r.value| == (if Int64Of(b[..8]) < 0 then 0 else Int64Of(b[..8]))
  {
    var (n, rest) :- ReadInt64(b);
    var (es, _) :- ReadRecords(rest, n);
    Ok(es)
  }

  /** `hash_table[e->term] = e` for each record in turn: a later record wins. */
  function ToTable(es: seq<TermEntry>): (t: map<Bytes, TermEntry>)
    ensures t.Keys == set i | 0 <= i < |es| :: es[i].term
  {
    if es == [] then map[]
    else ToTable(es[..|es| - 1])[es[|es| - 1].term := es[|es| - 1]]
  }

  /** The hash_table that load_inverted builds. */
  function DecodeInverted(b: Bytes): Result<map<Bytes, TermEntry>> {
    var es :- DecodeInvertedRecords(b);
    Ok(ToTable(es))
  }

  // ------------------------------------------------------------------ round trips

  /** Every value fits the width the layout gives it, and doc_count is the list's length. */
  predicate WellFormedEntry(e: TermEntry) {
    IsInt64(e.freq) && |e.term| < TWO31 && e.docCount == |e.docs| && |e.docs| < TWO31 &&
    forall i :: 0 <= i < |e.docs| ==> IsInt32(e.docs[i])
  }

  predicate WellFormedDocument(d: Document) {
    |d.title| < TWO31 && |d.url| < TWO31 && |d.oid| < TWO31
  }

  lemma ReadFieldOf(s: Bytes, rest: Bytes)
    requires |s| < TWO31
    ensures ReadField(EncodeField(s) + rest) == Ok((s, rest))
  {
    assert EncodeField(s) + rest == Int32Bytes(|s|) + (s + rest);
    ReadInt32Of(|s|, s + rest);
    assert (s + rest)[..|s|] == s && (s + rest)[|s|..] == rest;
  }

  lemma ReadDocumentOf(d: Document, rest: Bytes)
    requires WellFormedDocument(d)
    ensures ReadDocument(EncodeDocument(d) + rest) == Ok((d.url, rest))
  {
    var c := EncodeField(d.oid) + rest;
    var b := EncodeField(d.url) + c;
    assert EncodeDocument(d) + rest == EncodeField(d.title) + b;
    ReadFieldOf(d.title, b);
    ReadFieldOf(d.url, c);
    ReadFieldOf(d.oid, rest);
  }

  lemma {:induction false} ReadDocumentsOf(ds: seq<Document>, rest: Bytes)
    requires forall i :: 0 <= i < |ds| ==> WellFormedDocument(ds[i])
    ensures ReadDocuments(EncodeDocuments(ds) + rest, |ds|) == Ok((Urls(ds), rest))
  {
    if ds != [] {
      var tail := EncodeDocuments(ds[1..]) + rest;
      assert EncodeDocuments(ds) + rest == EncodeDocument(ds[0]) + tail;
      ReadDocumentOf(ds[0], tail);
      ReadDocumentsOf(ds[1..], rest);
      assert |ds[1..]| == |ds| - 1;
      assert Urls(ds) == [ds[0].url] + Urls(ds[1..]);
    } else {
      assert EncodeDocuments(ds) + rest == rest;
    }
  }

  function Urls(ds: seq<Document>): (us: seq<Bytes>)
    ensures |us| == |ds| && forall i :: 0 <= i < |ds| ==> us[i] == ds[i].url
  {
    if ds == [] then [] else [ds[0].url] + Urls(ds[1..])
  }

  /** Forward round trip: the engine reads back every url, in document-id order. */
  lemma ForwardRoundTrip(ds: seq<Document>)
    requires |ds| < TWO31
    requires forall i :: 0 <= i < |ds| ==> WellFormedDocument(ds[i])
    ensures DecodeForward(EncodeForward(ds)) == Ok(Urls(ds))
  {
    ReadInt32Of(|ds|, EncodeDocuments(ds));
    ReadDocumentsOf(ds, []);
    assert EncodeDocuments(ds) + [] == EncodeDocuments(ds);
  }

  lemma {:induction false} ReadIdsOf(ids: seq<int>, rest: Bytes)
    requires forall i :: 0 <= i < |ids| ==> IsInt32(ids[i])
    ensures ReadIds(EncodeIds(ids) + rest, |ids|) == Ok((ids, rest))
  {
    if ids != [] {
      var tail := EncodeIds(ids[1..]) + rest;
      assert EncodeIds(ids) + rest == Int32Bytes(ids[0]) + tail;
      ReadInt32Of(ids[0], tail);
      ReadIdsOf(ids[1..], rest);
      assert |ids[1..]| == |ids| - 1;
      assert [ids[0]] + ids[1..] == ids;
    } else {
      assert EncodeIds(ids) + rest == rest;
    }
  }

  lemma ReadRecordOf(e: TermEntry, rest: Bytes)
    requires WellFormedEntry(e)
    ensures ReadRecord(EncodeRecord(e) + rest) == Ok((e, rest))
  {
    var c := EncodeIds(e.docs) + rest;
    var b := Int32Bytes(e.docCount) + c;
    var a := EncodeField(e.term) + b;
    assert EncodeRecord(e) + rest == Int64Bytes(e.freq) + a;
    ReadInt64Of(e.freq, a);
    ReadFieldOf(e.term, b);
    ReadInt32Of(e.docCount, c);
    ReadIdsOf(e.docs, rest);
  }

  /** A record, then n - 1 more, is n records. */
  lemma RecordsCons(b: Bytes, n: int, e: TermEntry, b1: Bytes, es: seq<TermEntry>, b2: Bytes)
    requires n > 0 && ReadRecord(b) == Ok((e, b1)) && ReadRecords(b1, n - 1) == Ok((es, b2))
    ensures ReadRecords(b, n) == Ok(([e] + es, b2))
  {
  }

  lemma {:induction false} ReadRecordsOf(es: seq<TermEntry>, rest: Bytes)
    requires forall i :: 0 <= i < |es| ==> WellFormedEntry(es[i])
    ensures ReadRecords(EncodeRecords(es) + rest, |es|) == Ok((es, rest))
  {
    if es != [] {
      var tail := EncodeRecords(es[1..]) + rest;
      ReadRecordsOf(es[1..], rest);
      ReadRecordOf(es[0], tail);
      Assoc(EncodeRecord(es[0]), EncodeRecords(es[1..]), rest);
      RecordsCons(EncodeRecord(es[0]) + tail, |es|, es[0], tail, es[1..], rest);
      ConsSplit(es);
    } else {
      assert EncodeRecords(es) + rest == rest;
    }
  }

  /**
   * Inverted round trip: every record comes back with the same term, freq,
   * doc_count and document ids in the same order.
   */
  lemma InvertedRoundTrip(es: seq<TermEntry>)
    requires |es| < TWO63
    requires forall i :: 0 <= i < |es| ==> WellFormedEntry(es[i])
    ensures DecodeInvertedRecords(EncodeInverted(es)) == Ok(es)
  {
    ReadInt64Of(|es|, EncodeRecords(es));
    ReadRecordsOf(es, []);
    assert EncodeRecords(es) + [] == EncodeRecords(es);
  }

  /** With distinct terms, the loaded table maps each term to its own record. */
  lemma {:induction false} ToTableDistinct(es: seq<TermEntry>)
    requires forall i, j :: 0 <= i < j < |es| ==> es[i].term != es[j].term
    ensures forall i :: 0 <= i < |es| ==> ToTable(es)[es[i].term] == es[i]
  {
    if es != [] {
      var init := es[..|es| - 1];
      ToTableDistinct(init);
      forall i | 0 <= i < |es| ensures ToTable(es)[es[i].term] == es[i] {
        if i < |es| - 1 {
          assert init[i] == es[i];
        }
      }
    }
  }

  /** The table the engine builds from an encoded store holds exactly its entries. */
  lemma InvertedTableRoundTrip(es: seq<TermEntry>)
    requires |es| < TWO63
    requires forall i :: 0 <= i < |es| ==> WellFormedEntry(es[i])
    requires forall i, j :: 0 <= i < j < |es| ==> es[i].term != es[j].term
    ensures DecodeInverted(EncodeInverted(es)).Ok?
    ensures var t := DecodeInverted(EncodeInverted(es)).value;
            t.Keys == (set i | 0 <= i < |es| :: es[i].term) &&
            forall i :: 0 <= i < |es| ==> t[es[i].term] == es[i]
  {
    InvertedRoundTrip(es);
    ToTableDistinct(es);
  }
}
