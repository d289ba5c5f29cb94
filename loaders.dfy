/**
 * The engine's index loaders. The engine's two globals, the url table
 * `documents` and the term table `hash_table`, become the fields of one
 * object; each loader reads an index file front to back with a cursor and
 * fills them in as load_forward and load_inverted do.
 *
 * The file is given as its bytes. A read past the end, or a negative length or
 * document count that would make a resize throw, stops loading with an error;
 * what the fields hold after such an error is left open.
 */
module Loaders {
  import opened Wrappers
  import opened ByteCodec
  import opened IndexFormat

  /** Values read so far in front of whatever the rest of the file decodes to. */
  function Prepend<T>(p: seq<T>, r: Result<(seq<T>, Bytes)>): Result<(seq<T>, Bytes)> {
    if r.Err? then r else Ok((p + r.value.0, r.value.1))
  }

  lemma PrependTwice<T>(p: seq<T>, x: T, r: Result<(seq<T>, Bytes)>)
    ensures Prepend(p, Prepend([x], r)) == Prepend(p + [x], r)
  {
    if r.Ok? {
      assert p + ([x] + r.value.0) == (p + [x]) + r.value.0;
    }
  }

  lemma DocumentsStep(b: Bytes, k: nat)
    requires k > 0
    ensures ReadDocument(b).Err? ==> ReadDocuments(b, k) == Err(ReadDocument(b).error)
    ensures ReadDocument(b).Ok? ==>
              ReadDocuments(b, k) == Prepend([ReadDocument(b).value.0], ReadDocuments(ReadDocument(b).value.1, k - 1))
  {
  }

  lemma RecordsStep(b: Bytes, k: int)
    requires k > 0
    ensures ReadRecord(b).Err? ==> ReadRecords(b, k) == Err(ReadRecord(b).error)
    ensures ReadRecord(b).Ok? ==>
              ReadRecords(b, k) == Prepend([ReadRecord(b).value.0], ReadRecords(ReadRecord(b).value.1, k - 1))
  {
  }

  lemma IdsStep(b: Bytes, k: int)
    requires k > 0
    ensures ReadInt32(b).Err? ==> ReadIds(b, k) == Err(ReadInt32(b).error)
    ensures ReadInt32(b).Ok? ==>
              ReadIds(b, k) == Prepend([ReadInt32(b).value.0], ReadIds(ReadInt32(b).value.1, k - 1))
  {
  }

  lemma PrependNothing<T>(r: Result<(seq<T>, Bytes)>)
    ensures Prepend([], r) == r
  {
    if r.Ok? {
      assert [] + r.value.0 == r.value.0;
    }
  }

  /** One record more of the table: later records replace earlier ones. */
  lemma ToTableAppend(es: seq<TermEntry>, e: TermEntry)
    ensures ToTable(es + [e]) == ToTable(es)[e.term := e]
  {
    assert (es + [e])[..|es|] == es;
  }

  /** What load_forward ends with, once the count is read and is not negative. */
  lemma ForwardFromRecords(file: Bytes, r: Result<(seq<Bytes>, Bytes)>)
    requires ReadInt32(file).Ok? && ReadInt32(file).value.0 >= 0
    requires r == ReadDocuments(ReadInt32(file).value.1, ReadInt32(file).value.0)
    ensures DecodeForward(file) == if r.Err? then Err(r.error) else Ok(r.value.0)
  {
  }

  /** What load_inverted ends with, once the count is read. */
  lemma InvertedFromRecords(file: Bytes, r: Result<(seq<TermEntry>, Bytes)>)
    requires ReadInt64(file).Ok?
    requires r == ReadRecords(ReadInt64(file).value.1, ReadInt64(file).value.0)
    ensures DecodeInvertedRecords(file) == if r.Err? then Err(r.error) else Ok(r.value.0)
  {
  }

  lemma UnionUpdate<K, V>(m: map<K, V>, t: map<K, V>, k: K, v: V)
    ensures (m + t)[k := v] == m + t[k := v]
  {
  }

  /** Storing one more record in the table that already holds es. */
  lemma TableStep(m: map<Bytes, TermEntry>, es: seq<TermEntry>, e: TermEntry)
    ensures (m + ToTable(es))[e.term := e] == m + ToTable(es + [e])
  {
    ToTableAppend(es, e);
    UnionUpdate(m, ToTable(es), e.term, e);
  }

  /** A record read at the cursor joins the ones read before it. */
  lemma RecordsAdvance(body: Bytes, total: int, i: int, es: seq<TermEntry>, cursor: Bytes, e: TermEntry, after: Bytes)
    requires i < total && ReadRecord(cursor) == Ok((e, after))
    requires ReadRecords(body, total) == Prepend(es, ReadRecords(cursor, total - i))
    ensures ReadRecords(body, total) == Prepend(es + [e], ReadRecords(after, total - (i + 1)))
  {
    RecordsStep(cursor, total - i);
    PrependTwice(es, e, ReadRecords(after, total - i - 1));
    assert total - i - 1 == total - (i + 1);
  }

  /** A record that cannot be read at the cursor is the error of the whole load. */
  lemma RecordsFail(body: Bytes, total: int, i: int, es: seq<TermEntry>, cursor: Bytes)
    requires i < total && ReadRecord(cursor).Err?
    requires ReadRecords(body, total) == Prepend(es, ReadRecords(cursor, total - i))
    ensures ReadRecords(body, total) == Err(ReadRecord(cursor).error)
  {
    RecordsStep(cursor, total - i);
  }

  class Engine {
    /** `documents`: the url of each document id. */
    var documents: seq<Bytes>
    /** `hash_table`: posting entry by term. */
    var table: map<Bytes, TermEntry>

    constructor ()
      ensures documents == [] && table == map[]
    {
      documents := [];
      table := map[];
    }

    /**
     * load_forward: read the stored count, then the url of each record, for
     * document ids 0, 1, ... in turn. On success `documents` is exactly the
     * decoded url table and the term table is untouched.
     */
    method LoadForward(file: Bytes) returns (err: Option<DecodeError>)
      modifies this
      ensures DecodeForward(file).Ok? <==> err == None
      ensures err == None ==> documents == DecodeForward(file).value && table == old(table)
      ensures err.Some? ==> err.value == DecodeForward(file).error
    {
      var head := ReadInt32(file);
      if head.Err? {
        return Some(head.error);
      }
      var (n, body) := head.value;
      if n < 0 {
        return Some(BadLength);
      }
      var urls;
      err, urls := ReadUrls(body, n);
      ForwardFromRecords(file, ReadDocuments(body, n));
      if err == None {
        documents := urls;
      }
    }

    /** The loop of load_forward: n records from the cursor, keeping each url in turn. */
    static method ReadUrls(body: Bytes, n: nat) returns (err: Option<DecodeError>, urls: seq<Bytes>)
      ensures ReadDocuments(body, n).Ok? <==> err == None
      ensures err == None ==> urls == ReadDocuments(body, n).value.0
      ensures err.Some? ==> err.value == ReadDocuments(body, n).error
    {
      var cursor := body;
      var i := 0;
      urls := [];
      err := None;
      PrependNothing(ReadDocuments(cursor, n));
      while i < n && err == None
        invariant 0 <= i <= n && |urls| == i
        invariant err == None ==> ReadDocuments(body, n) == Prepend(urls, ReadDocuments(cursor, n - i))
        invariant err.Some? ==> ReadDocuments(body, n) == Err(err.value)
        decreases n - i, if err == None then 1 else 0
      {
        var url, after;
        err, url, after := LoadDocument(cursor);
        DocumentsStep(cursor, n - i);
        if err == None {
          PrependTwice(urls, url, ReadDocuments(after, n - i - 1));
          urls := urls + [url];
          cursor := after;
          i := i + 1;
        }
      }
      if err == None {
        assert ReadDocuments(cursor, 0) == Ok(([], cursor));
        assert urls + [] == urls;
      }
    }

    /**
     * load_inverted: read the stored number of records, then insert each record
     * as it is read. On success the table is the old one with every record
     * stored under its term, a later record replacing an earlier one.
     */
    method LoadInverted(file: Bytes) returns (err: Option<DecodeError>)
      modifies this
      ensures DecodeInvertedRecords(file).Ok? <==> err == None
      ensures err == None ==> table == old(table) + ToTable(DecodeInvertedRecords(file).value) && documents == old(documents)
      ensures err.Some? ==> err.value == DecodeInvertedRecords(file).error
    {
      var head := ReadInt64(file);
      if head.Err? {
        return Some(head.error);
      }
      var (total, body) := head.value;
      err := InsertRecords(body, total);
      InvertedFromRecords(file, ReadRecords(body, total));
    }

    /**
     * The outer loop of load_inverted: `total` records (none when it is zero or
     * negative), each stored as `hash_table[e->term] = e` once its ids are read.
     */
    method InsertRecords(body: Bytes, total: int) returns (err: Option<DecodeError>)
      modifies this
      ensures ReadRecords(body, total).Ok? <==> err == None
      ensures err == None ==> table == old(table) + ToTable(ReadRecords(body, total).value.0) && documents == old(documents)
      ensures err.Some? ==> err.value == ReadRecords(body, total).error
    {
      // `i < total` from i = 0 runs the loop max(total, 0) times.
      var n: nat := if total < 0 then 0 else total;
      assert ReadRecords(body, total) == ReadRecords(body, n);
      err := InsertCount(body, n);
    }

    /** The loop of load_inverted, n times. */
    method InsertCount(body: Bytes, n: nat) returns (err: Option<DecodeError>)
      modifies this
      ensures ReadRecords(body, n).Ok? <==> err == None
      ensures err == None ==> table == old(table) + ToTable(ReadRecords(body, n).value.0) && documents == old(documents)
      ensures err.Some? ==> err.value == ReadRecords(body, n).error
    {
      var cursor := body;
      ghost var es: seq<TermEntry> := [];
      var i := 0;
      err := None;
      PrependNothing(ReadRecords(cursor, n));
      assert old(table) + ToTable([]) == old(table);
      while i < n && err == None
        invariant 0 <= i <= n
        invariant err == None ==> ReadRecords(body, n) == Prepend(es, ReadRecords(cursor, n - i))
        invariant err.Some? ==> ReadRecords(body, n) == Err(err.value)
        invariant table == old(table) + ToTable(es) && documents == old(documents)
        decreases n - i, if err == None then 1 else 0
      {
        var e, after;
        err, e, after := LoadRecord(cursor);
        if err == None {
          RecordsAdvance(body, n, i, es, cursor, e, after);
          TableStep(old(table), es, e);
          table := table[e.term := e];
          es := es + [e];
          cursor := after;
          i := i + 1;
        } else {
          RecordsFail(body, n, i, es, cursor);
        }
      }
      if err == None {
        assert ReadRecords(cursor, n - i) == Ok(([], cursor));
        assert es + [] == es;
      }
    }

    /** The body of load_forward's loop: three length-prefixed strings, of which the url is kept. */
    static method LoadDocument(b: Bytes) returns (err: Option<DecodeError>, url: Bytes, rest: Bytes)
      ensures ReadDocument(b).Ok? <==> err == None
      ensures err == None ==> ReadDocument(b) == Ok((url, rest))
      ensures err.Some? ==> err.value == ReadDocument(b).error
    {
      url, rest := [], b;
      var title := ReadField(b);
      if title.Err? {
        return Some(title.error), url, rest;
      }
      var u := ReadField(title.value.1);
      if u.Err? {
        return Some(u.error), url, rest;
      }
      var oid := ReadField(u.value.1);
      if oid.Err? {
        return Some(oid.error), url, rest;
      }
      return None, u.value.0, oid.value.1;
    }

    /** The body of load_inverted's outer loop: one record, its ids linked in file order. */
    static method LoadRecord(b: Bytes) returns (err: Option<DecodeError>, e: TermEntry, rest: Bytes)
      ensures ReadRecord(b).Ok? <==> err == None
      ensures err == None ==> ReadRecord(b) == Ok((e, rest))
      ensures err.Some? ==> err.value == ReadRecord(b).error
    {
      e, rest := TermEntry([], 0, 0, []), b;
      var f := ReadInt64(b);
      if f.Err? {
        return Some(f.error), e, rest;
      }
      var t := ReadField(f.value.1);
      if t.Err? {
        return Some(t.error), e, rest;
      }
      var c := ReadInt32(t.value.1);
      if c.Err? {
        return Some(c.error), e, rest;
      }
      var (count, cursor) := c.value;
      ghost var idsStart := cursor;
      var docs: seq<int> := [];
      var j := 0;
      PrependNothing(ReadIds(cursor, count));
      while j < count
        invariant 0 <= j && (count < 0 || j <= count)
        invariant ReadIds(idsStart, count) == Prepend(docs, ReadIds(cursor, count - j))
        decreases count - j
      {
        var id := ReadInt32(cursor);
        IdsStep(cursor, count - j);
        if id.Err? {
          return Some(id.error), e, rest;
        }
        PrependTwice(docs, id.value.0, ReadIds(id.value.1, count - j - 1));
        docs := docs + [id.value.0];
        cursor := id.value.1;
        j := j + 1;
      }
      assert ReadIds(cursor, count - j) == Ok(([], cursor));
      assert docs + [] == docs;
      e := TermEntry(t.value.0, f.value.0, count, docs);
      rest := cursor;
      err := None;
    }
  }
}
