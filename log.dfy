/** Walking a data file record by record. The loop of Bitcask.ScanFile
    (internal/bitcask/bitcask.go) and the loop of the inspector
    (cmd/hyphora-inspect/main.go) both read a 17-byte header, then keyLen
    bytes of key, then valLen bytes of value, and advance by
    17 + keyLen + valLen. WalkFrom is that walk as a function of the file's
    bytes; both loops are proved against it. */
module Log {
  import opened Common
  import opened BigEndian
  import opened Record

  /** A record as the walk finds it: where it starts and its header. */
  datatype Decoded = Decoded(offset: nat, flags: byte, keyLen: nat, valLen: nat)

  /** The number of bytes a record occupies: 17 + keyLen + valLen. */
  function SizeOf(r: Decoded): nat {
    HeaderSize + r.keyLen + r.valLen
  }

  /** The offset just past a record, where the next one starts. */
  function EndOf(r: Decoded): nat {
    r.offset + SizeOf(r)
  }

  function SumSizes(rs: seq<Decoded>): nat {
    if rs == [] then 0 else SizeOf(rs[0]) + SumSizes(rs[1..])
  }

  /** Why a walk stopped: at the end of the file (io.EOF), on fewer than 17
      bytes of header (io.ErrUnexpectedEOF), or on a key or value that runs
      past the end of the file. */
  datatype Stop = CleanEof | PartialHeader | TruncatedBody

  /** The records found, why the walk stopped, and the offset it stopped at. */
  datatype Walked = Walked(records: seq<Decoded>, stop: Stop, end: nat)

  /** The walk over `n` bytes from `off` on, given the header that can be
      read at each offset (None when fewer than 17 bytes remain). The walk
      sees a file only through its length and its headers; this is what
      lets the lemmas below relate the walks of two different files. */
  function WalkBy(read: nat -> Option<Header>, n: nat, off: nat): (w: Walked)
    requires off <= n
    ensures off <= w.end <= n
    ensures w.stop == CleanEof <==> w.end == n
    decreases n - off
  {
    if off == n then Walked([], CleanEof, off)
    else match read(off)
      case None => Walked([], PartialHeader, off)
      case Some(h) =>
        if n - off - HeaderSize < h.keyLen + h.valLen then Walked([], TruncatedBody, off)
        else
          var r := Decoded(off, h.flags, h.keyLen, h.valLen);
          var rest := WalkBy(read, n, EndOf(r));
          Walked([r] + rest.records, rest.stop, rest.end)
  }

  /** io.ReadFull of a 17-byte header at offset `o` of a file. */
  function ReadHeader(data: Bytes): nat -> Option<Header> {
    (o: nat) => if o + HeaderSize <= |data| then Some(ParseHeader(data[o..o + HeaderSize])) else None
  }

  /** The records of a file from offset `off` on. */
  function WalkFrom(data: Bytes, off: nat): (w: Walked)
    requires off <= |data|
    ensures off <= w.end <= |data|
  {
    WalkBy(ReadHeader(data), |data|, off)
  }

  /** The walk of a whole file, from offset 0. */
  function Walk(data: Bytes): Walked {
    WalkFrom(data, 0)
  }

  /** The key bytes of a record found in `data`. */
  function KeyOf(data: Bytes, r: Decoded): (key: Bytes)
    requires EndOf(r) <= |data|
    ensures |key| == r.keyLen
  {
    data[r.offset + HeaderSize..r.offset + HeaderSize + r.keyLen]
  }

  /** The value bytes of a record found in `data`. */
  function ValueOf(data: Bytes, r: Decoded): (value: Bytes)
    requires EndOf(r) <= |data|
    ensures |value| == r.valLen
  {
    data[r.offset + HeaderSize + r.keyLen..EndOf(r)]
  }

  /** What a record holds. */
  datatype Item = Item(flags: byte, key: Bytes, value: Bytes)

  function ItemOf(data: Bytes, r: Decoded): Item
    requires EndOf(r) <= |data|
  {
    Item(r.flags, KeyOf(data, r), ValueOf(data, r))
  }

  /** One walk step, as the loops over a file take it. */
  lemma WalkFromStep(data: Bytes, off: nat)
    requires off <= |data|
    ensures var w := WalkFrom(data, off);
      if off == |data| then w == Walked([], CleanEof, off)
      else if |data| - off < HeaderSize then w == Walked([], PartialHeader, off)
      else
        var h := ParseHeader(data[off..off + HeaderSize]);
        if |data| - off - HeaderSize < h.keyLen + h.valLen then w == Walked([], TruncatedBody, off)
        else
          var r := Decoded(off, h.flags, h.keyLen, h.valLen);
          var rest := WalkFrom(data, EndOf(r));
          w == Walked([r] + rest.records, rest.stop, rest.end)
  {
  }

  lemma SumSizesCons(r: Decoded, rs: seq<Decoded>)
    ensures SumSizes([r] + rs) == SizeOf(r) + SumSizes(rs)
  {
    assert ([r] + rs)[1..] == rs;
  }

  /** Record offsets: each record starts where the records before it end,
      and the walk stops after the last one. */
  lemma {:induction false} WalkOffsets(read: nat -> Option<Header>, n: nat, off: nat)
    requires off <= n
    ensures var w := WalkBy(read, n, off);
      && w.end == off + SumSizes(w.records)
      && forall i :: 0 <= i < |w.records| ==> w.records[i].offset == off + SumSizes(w.records[..i])
    decreases n - off
  {
    var w := WalkBy(read, n, off);
    if w.records != [] {
      var r := w.records[0];
      var rest := WalkBy(read, n, EndOf(r));
      assert w.records == [r] + rest.records;
      WalkOffsets(read, n, EndOf(r));
      SumSizesCons(r, rest.records);
      forall i | 0 <= i < |w.records|
        ensures w.records[i].offset == off + SumSizes(w.records[..i])
      {
        if i > 0 {
          assert w.records[..i] == [r] + rest.records[..i - 1];
          SumSizesCons(r, rest.records[..i - 1]);
        }
      }
    }
  }

  /** Every record the walk reports lies between where it started and
      where it stopped. */
  lemma {:induction false} WalkBounds(read: nat -> Option<Header>, n: nat, off: nat)
    requires off <= n
    ensures var w := WalkBy(read, n, off);
      forall r :: r in w.records ==> off <= r.offset && EndOf(r) <= w.end
    decreases n - off
  {
    var w := WalkBy(read, n, off);
    if w.records != [] {
      WalkBounds(read, n, EndOf(w.records[0]));
    }
  }

  /** Every record the walk reports has the header read at its offset. */
  lemma {:induction false} WalkHeaders(read: nat -> Option<Header>, n: nat, off: nat)
    requires off <= n
    ensures forall r :: r in WalkBy(read, n, off).records ==>
      read(r.offset) == Some(Header(r.flags, r.keyLen, r.valLen))
    decreases n - off
  {
    var w := WalkBy(read, n, off);
    if w.records != [] {
      WalkHeaders(read, n, EndOf(w.records[0]));
    }
  }

  /** The walk reads only the headers of the records it finds: a second
      header reader over `n2 >= n1` bytes that agrees on them walks those
      records too, and then carries on from `n1`. */
  lemma {:induction false} WalkAgree(read1: nat -> Option<Header>, n1: nat,
                                     read2: nat -> Option<Header>, n2: nat, off: nat)
    requires off <= n1 <= n2
    requires WalkBy(read1, n1, off).stop == CleanEof
    requires forall o :: off <= o < n1 && read1(o).Some? ==> read2(o) == read1(o)
    ensures var w1, w2, rest := WalkBy(read1, n1, off), WalkBy(read2, n2, off), WalkBy(read2, n2, n1);
      && w2.records == w1.records + rest.records
      && w2.stop == rest.stop && w2.end == rest.end
    decreases n1 - off
  {
    if off < n1 {
      var h := read1(off).value;
      var r := Decoded(off, h.flags, h.keyLen, h.valLen);
      WalkAgree(read1, n1, read2, n2, EndOf(r));
      var w1, rest := WalkBy(read1, n1, EndOf(r)), WalkBy(read2, n2, n1);
      assert [r] + (w1.records + rest.records) == ([r] + w1.records) + rest.records;
    }
  }

  /** Cutting the bytes off where a walk stopped leaves a file that walks
      to the same records and ends cleanly. */
  lemma {:induction false} WalkCut(read1: nat -> Option<Header>, n1: nat,
                                   read2: nat -> Option<Header>, off: nat)
    requires off <= n1
    requires forall o :: off <= o && o + HeaderSize <= WalkBy(read1, n1, off).end ==> read2(o) == read1(o)
    ensures var w := WalkBy(read1, n1, off);
      WalkBy(read2, w.end, off) == Walked(w.records, CleanEof, w.end)
    decreases n1 - off
  {
    var w := WalkBy(read1, n1, off);
    if w.records != [] {
      var r := w.records[0];
      WalkCut(read1, n1, read2, EndOf(r));
    }
  }

  lemma SubSlice(data: Bytes, a: nat, b: nat, i: nat, j: nat)
    requires a <= b <= |data| && i <= j <= b - a
    ensures data[a..b][i..j] == data[a + i..a + j]
  {
    assert forall k :: 0 <= k < j - i ==> data[a..b][i..j][k] == data[a + i + k];
  }

  /** A record found in `data` is the encoding of its own header fields,
      key and value, stored at its offset. */
  lemma RecordEncoded(data: Bytes, r: Decoded)
    requires EndOf(r) <= |data|
    requires ReadHeader(data)(r.offset) == Some(Header(r.flags, r.keyLen, r.valLen))
    ensures r.keyLen < Uint64Limit && r.valLen < Uint64Limit
    ensures data[r.offset..EndOf(r)] == EncodeRecord(r.flags, KeyOf(data, r), ValueOf(data, r))
  {
    var hdr := data[r.offset..r.offset + HeaderSize];
    assert ParseHeader(hdr) == Header(r.flags, r.keyLen, r.valLen);
    var buf := data[r.offset..EndOf(r)];
    SubSlice(data, r.offset, EndOf(r), 1, 9);
    SubSlice(data, r.offset, r.offset + HeaderSize, 1, 9);
    SubSlice(data, r.offset, EndOf(r), 9, 17);
    SubSlice(data, r.offset, r.offset + HeaderSize, 9, 17);
    assert ParseHeader(buf) == ParseHeader(hdr);
    EncodeParsedRecord(buf);
    assert buf[HeaderSize..HeaderSize + r.keyLen] == KeyOf(data, r);
    assert buf[HeaderSize + r.keyLen..] == ValueOf(data, r);
  }

  /** Every record the walk of a file reports is the encoding of its own
      fields, found at its own offset. */
  lemma WalkRecordsEncoded(data: Bytes)
    ensures forall r :: r in Walk(data).records ==>
      && r.keyLen < Uint64Limit && r.valLen < Uint64Limit
      && EndOf(r) <= |data|
      && data[r.offset..EndOf(r)] == EncodeRecord(r.flags, KeyOf(data, r), ValueOf(data, r))
  {
    WalkHeaders(ReadHeader(data), |data|, 0);
    WalkBounds(ReadHeader(data), |data|, 0);
    forall r | r in Walk(data).records
      ensures r.keyLen < Uint64Limit && r.valLen < Uint64Limit
      ensures data[r.offset..EndOf(r)] == EncodeRecord(r.flags, KeyOf(data, r), ValueOf(data, r))
    {
      RecordEncoded(data, r);
    }
  }

  /** Bytes added after a file that walks cleanly are walked on their own;
      the records already there are unchanged. */
  lemma WalkPrefix(data: Bytes, all: Bytes)
    requires data <= all
    requires Walk(data).stop == CleanEof
    ensures var rest := WalkFrom(all, |data|);
      Walk(all) == Walked(Walk(data).records + rest.records, rest.stop, rest.end)
  {
    forall o | 0 <= o < |data| && ReadHeader(data)(o).Some?
      ensures ReadHeader(all)(o) == ReadHeader(data)(o)
    {
      assert all[o..o + HeaderSize] == data[o..o + HeaderSize];
    }
    WalkAgree(ReadHeader(data), |data|, ReadHeader(all), |all|, 0);
  }

  /** The file cut off where its walk stopped walks cleanly to the same
      records. */
  lemma WalkTruncated(data: Bytes)
    ensures var w := Walk(data);
      Walk(data[..w.end]) == Walked(w.records, CleanEof, w.end)
  {
    var e := Walk(data).end;
    var cut := data[..e];
    forall o | 0 <= o && o + HeaderSize <= e
      ensures ReadHeader(cut)(o) == ReadHeader(data)(o)
    {
      assert cut[o..o + HeaderSize] == data[o..o + HeaderSize];
    }
    WalkCut(ReadHeader(data), |data|, ReadHeader(cut), 0);
  }

  /** The key and value of a record do not change when bytes are added
      after it. */
  lemma ItemOfPrefix(data: Bytes, all: Bytes, r: Decoded)
    requires data <= all && EndOf(r) <= |data|
    ensures ItemOf(all, r) == ItemOf(data, r)
  {
    assert KeyOf(all, r) == KeyOf(data, r);
    assert ValueOf(all, r) == ValueOf(data, r);
  }

  /** The record that starts at `off` when `rec` is stored there. */
  lemma WalkAtRecord(all: Bytes, off: nat, flags: byte, key: Bytes, value: Bytes)
    requires |key| < Uint64Limit && |value| < Uint64Limit
    requires off + HeaderSize + |key| + |value| == |all|
    requires all[off..] == EncodeRecord(flags, key, value)
    ensures var r := Decoded(off, flags, |key|, |value|);
      && WalkFrom(all, off) == Walked([r], CleanEof, |all|)
      && ItemOf(all, r) == Item(flags, key, value)
  {
    var rec := EncodeRecord(flags, key, value);
    ParseEncodedRecord(flags, key, value);
    assert all[off..off + HeaderSize] == rec[..HeaderSize];
    var r := Decoded(off, flags, |key|, |value|);
    WalkFromStep(all, off);
    WalkFromStep(all, EndOf(r));
    assert KeyOf(all, r) == rec[HeaderSize..HeaderSize + |key|];
    assert ValueOf(all, r) == rec[HeaderSize + |key|..];
  }

  /** Appending one record to a file that walks cleanly adds exactly that
      record to its walk, at the old end of the file. */
  lemma WalkAppendRecord(data: Bytes, flags: byte, key: Bytes, value: Bytes)
    requires |key| < Uint64Limit && |value| < Uint64Limit
    requires Walk(data).stop == CleanEof
    ensures var all := data + EncodeRecord(flags, key, value);
      var r := Decoded(|data|, flags, |key|, |value|);
      && Walk(all) == Walked(Walk(data).records + [r], CleanEof, |all|)
      && ItemOf(all, r) == Item(flags, key, value)
  {
    var all := data + EncodeRecord(flags, key, value);
    WalkPrefix(data, all);
    assert all[|data|..] == EncodeRecord(flags, key, value);
    WalkAtRecord(all, |data|, flags, key, value);
  }

  predicate Encodable(it: Item) {
    |it.key| < Uint64Limit && |it.value| < Uint64Limit
  }

  /** The bytes of a file holding `items` in order. */
  function Serialize(items: seq<Item>): Bytes
    requires forall i :: 0 <= i < |items| ==> Encodable(items[i])
  {
    if items == [] then []
    else
      var last := items[|items| - 1];
      assert Encodable(last);
      Serialize(items[..|items| - 1]) + EncodeRecord(last.flags, last.key, last.value)
  }

  /** Walking the bytes of a file written record by record gives back
      exactly the records written, and ends cleanly. */
  lemma {:induction false} WalkSerialized(items: seq<Item>)
    requires forall i :: 0 <= i < |items| ==> Encodable(items[i])
    ensures var data := Serialize(items);
      var w := Walk(data);
      && w.stop == CleanEof
      && |w.records| == |items|
      && forall i :: 0 <= i < |items| ==> EndOf(w.records[i]) <= |data| && ItemOf(data, w.records[i]) == items[i]
  {
    if items != [] {
      var init, last := items[..|items| - 1], items[|items| - 1];
      var data0 := Serialize(init);
      WalkSerialized(init);
      WalkBounds(ReadHeader(data0), |data0|, 0);
      WalkAppendRecord(data0, last.flags, last.key, last.value);
      var data := Serialize(items);
      var w0 := Walk(data0);
      var w := Walk(data);
      forall i | 0 <= i < |items|
        ensures EndOf(w.records[i]) <= |data| && ItemOf(data, w.records[i]) == items[i]
      {
        if i < |init| {
          assert w.records[i] == w0.records[i];
          ItemOfPrefix(data0, data, w0.records[i]);
        }
      }
    }
  }
}
