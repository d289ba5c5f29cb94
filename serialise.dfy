/**
 * The indexer's two writers. save_forward writes the document table in the
 * layout the engine reads. save_inverted, as written, writes each term as
 * 4-byte wide characters with no frequency, which is not the layout
 * load_inverted reads; the corrected writer puts the frequency first and the
 * term in UTF-8, and its file loads back as the store it came from.
 *
 * A file is the sequence of bytes written to it, in order.
 */
module Serialise {
  import opened Wrappers
  import opened ByteCodec
  import opened IndexFormat
  import opened Text
  import Postings
  import Utf8

  type Entry = Postings.Entry

  // ---------------------------------------------------------------- forward file

  const MAX_DOCS: nat := 1000000

  /** The char buffers of a document row: 256, 512 and 32 bytes, each NUL-terminated. */
  predicate FitsBuffers(d: Document) {
    |d.title| < 256 && |d.url| < 512 && |d.oid| < 32
  }

  lemma {:induction false} EncodeDocumentsAppend(ds: seq<Document>, d: Document)
    ensures EncodeDocuments(ds + [d]) == EncodeDocuments(ds) + EncodeDocument(d)
  {
    if ds == [] {
      assert [] + [d] == [d];
      assert EncodeDocuments([d]) == EncodeDocument(d) + EncodeDocuments([]);
    } else {
      assert (ds + [d])[1..] == ds[1..] + [d];
      EncodeDocumentsAppend(ds[1..], d);
    }
  }

  /**
   * save_forward: the document count, then title, url and oid of each of the
   * first docCount rows as length-prefixed strings. The engine reads back
   * every url in document-id order.
   */
  method SaveForward(documents: array<Document>, docCount: int) returns (out: Bytes)
    requires 0 <= docCount <= documents.Length && docCount <= MAX_DOCS
    ensures out == EncodeForward(documents[..docCount])
    ensures (forall i :: 0 <= i < docCount ==> FitsBuffers(documents[i])) ==>
              DecodeForward(out) == Ok(Urls(documents[..docCount]))
  {
    var header := Int32Bytes(docCount);
    var body: Bytes := [];
    var i := 0;
    while i < docCount
      invariant 0 <= i <= docCount
      invariant body == EncodeDocuments(documents[..i])
    {
      var d := documents[i];
      ghost var prev := body;
      body := body + EncodeField(d.title);
      body := body + EncodeField(d.url);
      body := body + EncodeField(d.oid);
      assert body == prev + EncodeDocument(d);
      EncodeDocumentsAppend(documents[..i], d);
      assert documents[..i + 1] == documents[..i] + [d];
      i := i + 1;
    }
    assert documents[..i] == documents[..docCount];
    out := header + body;
    SavedForwardLoads(documents[..docCount]);
  }

  /** The forward file of rows that fit their buffers loads back as their urls. */
  lemma SavedForwardLoads(ds: seq<Document>)
    requires |ds| <= MAX_DOCS
    ensures (forall i :: 0 <= i < |ds| ==> FitsBuffers(ds[i])) ==> DecodeForward(EncodeForward(ds)) == Ok(Urls(ds))
  {
    if forall i :: 0 <= i < |ds| ==> FitsBuffers(ds[i]) {
      ForwardRoundTrip(ds);
    }
  }

  // --------------------------------------------------------------- inverted file

  /** The two record layouts: save_inverted's as written, and the one load_inverted reads. */
  datatype Layout = AsWritten | ReaderLayout

  /** `fwrite(e->term, sizeof(wchar_t), l, f)`: each character as one 4-byte wchar_t. */
  function WideChars(t: seq<char>): (r: Bytes)
    ensures |r| == 4 * |t|
  {
    if t == [] then [] else Int32Bytes(t[0] as int) + WideChars(t[1..])
  }

  /** The term as save_inverted's layout writes it: length in characters, then the wchar_t array. */
  function WideField(t: seq<char>): Bytes {
    Int32Bytes(|t|) + WideChars(t)
  }

  /** An entry as the engine holds it: the term as its UTF-8 bytes. */
  function ToReader(e: Entry): TermEntry {
    TermEntry(Utf8.Encode(e.term), e.freq, e.docCount, e.docs)
  }

  /** The record before its id list. */
  function RecordHead(layout: Layout, e: Entry): Bytes {
    match layout
    case AsWritten => WideField(e.term) + Int32Bytes(e.docCount)
    case ReaderLayout => Int64Bytes(e.freq) + EncodeField(Utf8.Encode(e.term)) + Int32Bytes(e.docCount)
  }

  function EncodeEntry(layout: Layout, e: Entry): Bytes {
    RecordHead(layout, e) + EncodeIds(e.docs)
  }

  /** The records of the buckets in index order. */
  function EncodeBuckets(layout: Layout, bs: seq<seq<Entry>>): Bytes {
    if bs == [] then [] else EncodeBuckets(layout, bs[..|bs| - 1]) + EncodeEntries(layout, bs[|bs| - 1])
  }

  /** The file: total_unique_terms as a long long, then every record. */
  function EncodeStore(layout: Layout, total: int, bs: seq<seq<Entry>>): Bytes {
    Int64Bytes(total) + EncodeBuckets(layout, bs)
  }

  /** The entries in the order the writer visits them: bucket by bucket, each chain head first. */
  function Flatten(bs: seq<seq<Entry>>): (es: seq<Entry>)
    ensures |es| == Postings.EntryCount(bs)
  {
    if bs == [] then [] else Flatten(bs[..|bs| - 1]) + bs[|bs| - 1]
  }

  /** The records of a sequence of entries, the first one first; a chain is written head first. */
  function EncodeEntries(layout: Layout, es: seq<Entry>): Bytes {
    if es == [] then [] else EncodeEntry(layout, es[0]) + EncodeEntries(layout, es[1..])
  }

  lemma {:induction false} EncodeEntriesAppend(layout: Layout, es: seq<Entry>, fs: seq<Entry>)
    ensures EncodeEntries(layout, es + fs) == EncodeEntries(layout, es) + EncodeEntries(layout, fs)
  {
    if es == [] {
      assert es + fs == fs;
    } else {
      assert (es + fs)[0] == es[0] && (es + fs)[1..] == es[1..] + fs;
      EncodeEntriesAppend(layout, es[1..], fs);
    }
  }

  lemma EncodeEntriesOne(layout: Layout, e: Entry)
    ensures EncodeEntries(layout, [e]) == EncodeEntry(layout, e)
  {
    assert [e][1..] == [];
    assert EncodeEntry(layout, e) + [] == EncodeEntry(layout, e);
  }

  /** Every entry is written exactly once, in the writer's visiting order. */
  lemma {:induction false} BucketsAreEntries(layout: Layout, bs: seq<seq<Entry>>)
    ensures EncodeBuckets(layout, bs) == EncodeEntries(layout, Flatten(bs))
  {
    if bs != [] {
      var init := bs[..|bs| - 1];
      BucketsAreEntries(layout, init);
      EncodeEntriesAppend(layout, Flatten(init), bs[|bs| - 1]);
    }
  }

  /** In a well-formed store the visiting order lists no term twice. */
  lemma {:induction false} FlattenPrefixDistinct(bs: seq<seq<Entry>>, k: nat)
    requires Postings.WellFormedStore(bs) && k <= |bs|
    ensures forall i :: 0 <= i < |Flatten(bs[..k])| ==> Postings.BucketOf(Flatten(bs[..k])[i].term) < k
    ensures forall i :: 0 <= i < |Flatten(bs[..k])| ==> Postings.WellFormedEntry(Flatten(bs[..k])[i])
    ensures forall i, j :: 0 <= i < j < |Flatten(bs[..k])| ==> Flatten(bs[..k])[i].term != Flatten(bs[..k])[j].term
  {
    if k > 0 {
      FlattenPrefixDistinct(bs, k - 1);
      var init := Flatten(bs[..k - 1]);
      var chain := bs[k - 1];
      assert bs[..k][..k - 1] == bs[..k - 1];
      var es := Flatten(bs[..k]);
      assert es == init + chain;
      forall i | 0 <= i < |es|
        ensures Postings.BucketOf(es[i].term) < k && Postings.WellFormedEntry(es[i])
      {
        if i >= |init| {
          assert es[i] == chain[i - |init|];
        }
      }
      forall i, j | 0 <= i < j < |es|
        ensures es[i].term != es[j].term
      {
        if j < |init| {
          assert es[i] == init[i] && es[j] == init[j];
        } else if i < |init| {
          assert es[j] == chain[j - |init|];
          assert Postings.BucketOf(es[j].term) == k - 1;
        } else {
          assert es[i] == chain[i - |init|] && es[j] == chain[j - |init|];
        }
      }
    }
  }

  lemma FlattenDistinct(bs: seq<seq<Entry>>)
    requires Postings.WellFormedStore(bs)
    ensures forall i :: 0 <= i < |Flatten(bs)| ==> Postings.WellFormedEntry(Flatten(bs)[i])
    ensures forall i, j :: 0 <= i < j < |Flatten(bs)| ==> Flatten(bs)[i].term != Flatten(bs)[j].term
  {
    FlattenPrefixDistinct(bs, |bs|);
    assert bs[..|bs|] == bs;
  }

  // ------------------------------------------------------------- the writer loops

  /** One record: its head, then the loop over the entry's doc nodes. */
  method WriteEntry(layout: Layout, e: Entry) returns (out: Bytes)
    ensures out == EncodeEntry(layout, e)
  {
    out := RecordHead(layout, e);
    var n := 0;
    while n < |e.docs|
      invariant 0 <= n <= |e.docs|
      invariant out == RecordHead(layout, e) + EncodeIds(e.docs[..n])
    {
      IdsAppend(e.docs[..n], e.docs[n]);
      assert e.docs[..n + 1] == e.docs[..n] + [e.docs[n]];
      out := out + Int32Bytes(e.docs[n]);
      n := n + 1;
    }
    assert e.docs[..n] == e.docs;
  }

  lemma {:induction false} IdsAppend(ids: seq<int>, id: int)
    ensures EncodeIds(ids + [id]) == EncodeIds(ids) + Int32Bytes(id)
  {
    if ids == [] {
      assert [] + [id] == [id];
      assert EncodeIds([id]) == Int32Bytes(id) + EncodeIds([]);
    } else {
      assert (ids + [id])[1..] == ids[1..] + [id];
      IdsAppend(ids[1..], id);
    }
  }

  /** The records of one chain, walking it from its head. */
  method WriteChain(layout: Layout, chain: seq<Entry>) returns (out: Bytes)
    ensures out == EncodeEntries(layout, chain)
  {
    out := [];
    var j := 0;
    while j < |chain|
      invariant 0 <= j <= |chain|
      invariant out == EncodeEntries(layout, chain[..j])
    {
      var r := WriteEntry(layout, chain[j]);
      EntriesStep(layout, chain, j);
      out := out + r;
      j := j + 1;
    }
    assert chain[..j] == chain;
  }

  /** The records of one more entry of a chain follow the ones before it. */
  lemma EntriesStep(layout: Layout, chain: seq<Entry>, j: nat)
    requires j < |chain|
    ensures EncodeEntries(layout, chain[..j + 1]) == EncodeEntries(layout, chain[..j]) + EncodeEntry(layout, chain[j])
  {
    assert chain[..j + 1] == chain[..j] + [chain[j]];
    EncodeEntriesAppend(layout, chain[..j], [chain[j]]);
    EncodeEntriesOne(layout, chain[j]);
  }

  /** The header, then bucket 0 to HASH_SIZE - 1. */
  method WriteStore(layout: Layout, store: Postings.PostingStore) returns (out: Bytes)
    ensures out == EncodeStore(layout, store.totalUniqueTerms, store.buckets[..])
  {
    var buckets := store.buckets;
    var body: Bytes := [];
    var i := 0;
    while i < buckets.Length
      invariant 0 <= i <= buckets.Length
      invariant body == EncodeBuckets(layout, buckets[..i])
    {
      var c := WriteChain(layout, buckets[i]);
      assert buckets[..i + 1][..i] == buckets[..i];
      body := body + c;
      i := i + 1;
    }
    assert buckets[..i] == buckets[..];
    out := Int64Bytes(store.totalUniqueTerms) + body;
  }

  /**
   * save_inverted as written: the count of distinct terms, then each entry
   * once, bucket by bucket and head first, its ids in list order (most recent
   * first), with the term as wide characters and no frequency.
   */
  method SaveInvertedAsWritten(store: Postings.PostingStore) returns (out: Bytes)
    requires store.Valid()
    ensures out == Int64Bytes(store.totalUniqueTerms) + EncodeEntries(AsWritten, Flatten(store.buckets[..]))
    ensures store.totalUniqueTerms == |Flatten(store.buckets[..])|
  {
    out := WriteStore(AsWritten, store);
    BucketsAreEntries(AsWritten, store.buckets[..]);
  }

  /** What the engine can read in a store's entries: every count fits its field. */
  predicate FitsFile(es: seq<Entry>) {
    |es| < TWO63 &&
    forall i :: 0 <= i < |es| ==>
      IsInt64(es[i].freq) && |es[i].docs| < TWO31 &&
      forall k :: 0 <= k < |es[i].docs| ==> IsInt32(es[i].docs[k])
  }

  function ToReaderAll(es: seq<Entry>): (rs: seq<TermEntry>)
    ensures |rs| == |es| && forall i :: 0 <= i < |es| ==> rs[i] == ToReader(es[i])
  {
    if es == [] then [] else [ToReader(es[0])] + ToReaderAll(es[1..])
  }

  lemma {:induction false} ReaderLayoutIsRecords(es: seq<Entry>)
    ensures EncodeEntries(ReaderLayout, es) == EncodeRecords(ToReaderAll(es))
  {
    if es != [] {
      ReaderLayoutIsRecords(es[1..]);
      var r := ToReader(es[0]);
      assert EncodeEntry(ReaderLayout, es[0]) == EncodeRecord(r);
    }
  }

  /**
   * save_inverted corrected to the reader's layout: each record starts with its
   * freq and holds the term in UTF-8. The engine loads back every entry, in
   * the writer's order, under its UTF-8 term, and each term under exactly one.
   */
  method SaveInverted(store: Postings.PostingStore) returns (out: Bytes)
    requires store.Valid() && FitsFile(Flatten(store.buckets[..]))
    ensures out == EncodeStore(ReaderLayout, store.totalUniqueTerms, store.buckets[..])
    ensures DecodeInvertedRecords(out) == Ok(ToReaderAll(Flatten(store.buckets[..])))
    ensures DecodeInverted(out).Ok? &&
            forall i :: 0 <= i < |Flatten(store.buckets[..])| ==>
              var e := Flatten(store.buckets[..])[i];
              DecodeInverted(out).value[Utf8.Encode(e.term)] == ToReader(e)
  {
    out := WriteStore(ReaderLayout, store);
    LoadsBack(store.totalUniqueTerms, store.buckets[..]);
  }

  /** The corrected file of a well-formed store decodes to its entries. */
  lemma LoadsBack(total: int, bs: seq<seq<Entry>>)
    requires Postings.WellFormedStore(bs) && total == Postings.EntryCount(bs) && FitsFile(Flatten(bs))
    ensures DecodeInvertedRecords(EncodeStore(ReaderLayout, total, bs)) == Ok(ToReaderAll(Flatten(bs)))
    ensures DecodeInverted(EncodeStore(ReaderLayout, total, bs)).Ok? &&
            forall i :: 0 <= i < |Flatten(bs)| ==>
              DecodeInverted(EncodeStore(ReaderLayout, total, bs)).value[Utf8.Encode(Flatten(bs)[i].term)] == ToReader(Flatten(bs)[i])
  {
    var es := Flatten(bs);
    var rs := ToReaderAll(es);
    BucketsAreEntries(ReaderLayout, bs);
    ReaderLayoutIsRecords(es);
    FlattenDistinct(bs);
    forall i | 0 <= i < |rs|
      ensures IndexFormat.WellFormedEntry(rs[i])
    {
      assert Postings.WellFormedEntry(es[i]);
    }
    forall i, j | 0 <= i < j < |rs|
      ensures rs[i].term != rs[j].term
    {
      if rs[i].term == rs[j].term {
        Utf8.Injective(es[i].term, es[j].term);
      }
    }
    assert EncodeStore(ReaderLayout, total, bs) == EncodeInverted(rs);
    InvertedRoundTrip(rs);
    InvertedTableRoundTrip(rs);
  }

  // ------------------------------------------------- the as-written layout fails

  const TERM_A: seq<char> := ['a']
  const ENTRY_A: Entry := Postings.Entry(TERM_A, 1, 1, [0])

  /** The 16 bytes save_inverted writes for ENTRY_A: length 1, L'a', doc_count 1, id 0. */
  const RECORD_A: Bytes := [1, 0, 0, 0, 97, 0, 0, 0, 1, 0, 0, 0, 0, 0, 0, 0]

  lemma RecordOfA()
    ensures EncodeEntry(AsWritten, ENTRY_A) == RECORD_A
  {
    var one := Int32Bytes(1);
    var zero := Int32Bytes(0);
    assert one == [1, 0, 0, 0];
    assert Int32Bytes('a' as int) == [97, 0, 0, 0];
    assert zero == [0, 0, 0, 0];
    assert WideChars(TERM_A) == Int32Bytes('a' as int) + WideChars([]);
    assert EncodeIds([0]) == zero + EncodeIds([]);
  }

  /** The reader takes bytes 8 to 15 for the freq and then runs out of bytes for doc_count. */
  lemma RecordOfAUnreadable()
    ensures DecodeInvertedRecords(Int64Bytes(1) + RECORD_A) == Err(ShortRead)
  {
    ReadInt64Of(1, RECORD_A);
    var rest := RECORD_A[8..];
    assert rest == Int32Bytes(1) + [0, 0, 0, 0];
    assert Int32Bytes(1) == [1, 0, 0, 0];
    var zeros: Bytes := [0, 0, 0, 0];
    ReadInt32Of(1, zeros);
    assert zeros[..1] == [0] && zeros[1..] == [0, 0, 0];
    assert ReadField(rest) == Ok(([0], [0, 0, 0]));
    assert ReadRecord(RECORD_A).Err?;
  }

  /**
   * A store whose only entry is the term "a" seen in document 0: the file
   * save_inverted writes for it cannot be read by load_inverted, which reads
   * the term's length and wide character as the freq, a 1-byte term, and then
   * finds only 3 of the 4 bytes of doc_count.
   */
  lemma AsWrittenUnreadable(bs: seq<seq<Entry>>)
    requires Flatten(bs) == [ENTRY_A]
    ensures DecodeInvertedRecords(EncodeStore(AsWritten, 1, bs)) == Err(ShortRead)
  {
    BucketsAreEntries(AsWritten, bs);
    EncodeEntriesOne(AsWritten, ENTRY_A);
    RecordOfA();
    RecordOfAUnreadable();
  }
}
