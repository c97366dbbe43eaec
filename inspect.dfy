/** The inspector (cmd/hyphora-inspect/main.go): it reads a data file
    header by header and prints one line per record, with the record's
    offset, flags, key and value. It stops quietly at the end of the file,
    prints an error and stops on a header cut short, and panics on a key or
    value that runs past the end of the file. */
module Inspect {
  import opened Common
  import opened Record
  import opened Log
  import opened Index

  /** One printed line: `offset=%d flags=%02x key=%q value=%q`. */
  datatype Line = Line(offset: nat, flags: byte, key: Bytes, value: Bytes)

  /** How the inspector's loop ends: at io.EOF, on a header read that
      fails at `offset` ("error at offset %d"), or in a panic on a short
      key or value read. */
  datatype Ending = EndOfFile | HeaderError(offset: nat) | Panic

  /** The record `r` of `data` as the inspector prints it. */
  function LineOf(data: Bytes, r: Decoded): Line
    requires EndOf(r) <= |data|
  {
    Line(r.offset, r.flags, KeyOf(data, r), ValueOf(data, r))
  }

  /** The lines printed for the records `rs` of `data`, in order. */
  function Lines(data: Bytes, rs: seq<Decoded>): seq<Line>
    requires forall i :: 0 <= i < |rs| ==> EndOf(rs[i]) <= |data|
  {
    seq(|rs|, i requires 0 <= i < |rs| => LineOf(data, rs[i]))
  }

  /** How a walk that stopped for `stop` at offset `end` ends the
      inspector's loop. */
  function EndingOf(stop: Stop, end: nat): (e: Ending)
    ensures e == EndOfFile <==> stop == CleanEof
    ensures e == Panic <==> stop == TruncatedBody
    ensures e.HeaderError? <==> stop == PartialHeader
    ensures e.HeaderError? ==> e.offset == end
  {
    match stop
    case CleanEof => EndOfFile
    case PartialHeader => HeaderError(end)
    case TruncatedBody => Panic
  }

  /** The lines the inspector prints for the whole of `data`. */
  function Report(data: Bytes): seq<Line> {
    WalkBounds(ReadHeader(data), |data|, 0);
    Lines(data, Walk(data).records)
  }

  /** The loop's invariant: the lines printed so far are the first lines
      of the report, the walk from `off` on is the rest of the records, and
      it stops where the whole walk does. */
  predicate Inspecting(data: Bytes, off: nat, lines: seq<Line>) {
    && off <= |data|
    && var w, rest := Walk(data), WalkFrom(data, off);
       && |lines| <= |w.records|
       && rest.records == w.records[|lines|..]
       && rest.stop == w.stop && rest.end == w.end
       && lines == Report(data)[..|lines|]
  }

  /** One step of the loop: the whole record at `off` is the next line. */
  lemma InspectStep(data: Bytes, off: nat, lines: seq<Line>, flags: byte, keyLen: nat, valLen: nat,
                    off': nat, lines': seq<Line>)
    requires Inspecting(data, off, lines) && off + HeaderSize <= |data|
    requires ParseHeader(data[off..off + HeaderSize]) == Header(flags, keyLen, valLen)
    requires keyLen + valLen <= |data| - off - HeaderSize
    requires off' == off + HeaderSize + keyLen + valLen
    requires lines' == lines + [Line(off, flags, data[off + HeaderSize..off + HeaderSize + keyLen],
                                     data[off + HeaderSize + keyLen..off'])]
    ensures Inspecting(data, off', lines')
  {
    var r := Decoded(off, flags, keyLen, valLen);
    WalkNext(data, off, flags, keyLen, valLen, off');
    var ws, k := Walk(data).records, |lines|;
    var rest, rest' := WalkFrom(data, off), WalkFrom(data, off');
    assert k < |ws| && ws[k] == r by {
      assert rest.records[0] == r;
    }
    assert rest'.records == ws[k + 1..] by {
      assert rest'.records == rest.records[1..];
    }
    var rep := Report(data);
    assert rep[k] == LineOf(data, r) by {
      WalkBounds(ReadHeader(data), |data|, 0);
    }
    assert rep[..k + 1] == rep[..k] + [rep[k]];
  }

  /** A whole record at `off` is the first record of the walk from `off`,
      and the walk goes on after it. */
  lemma WalkNext(data: Bytes, off: nat, flags: byte, keyLen: nat, valLen: nat, off': nat)
    requires off + HeaderSize <= |data|
    requires ParseHeader(data[off..off + HeaderSize]) == Header(flags, keyLen, valLen)
    requires keyLen + valLen <= |data| - off - HeaderSize
    requires off' == off + HeaderSize + keyLen + valLen
    ensures var w, rest := WalkFrom(data, off), WalkFrom(data, off');
      && w.records == [Decoded(off, flags, keyLen, valLen)] + rest.records
      && w.stop == rest.stop && w.end == rest.end
  {
    WalkFromStep(data, off);
  }

  /** Where the loop stops: at the end of the file, on a short header, or
      on a record that runs past the end, with every line printed. */
  lemma InspectStop(data: Bytes, off: nat, lines: seq<Line>)
    requires Inspecting(data, off, lines)
    ensures off == |data| ==> lines == Report(data) && Walk(data).stop == CleanEof
    ensures 0 < |data| - off < HeaderSize ==>
      lines == Report(data) && Walk(data).stop == PartialHeader && Walk(data).end == off
    ensures |data| - off >= HeaderSize ==>
      var h := ParseHeader(data[off..off + HeaderSize]);
      |data| - off - HeaderSize < h.keyLen + h.valLen ==>
      lines == Report(data) && Walk(data).stop == TruncatedBody
  {
    WalkFromStep(data, off);
    WalkBounds(ReadHeader(data), |data|, 0);
    assert Report(data)[..|Walk(data).records|] == Report(data);
  }

  /** The inspector's loop over the bytes of a data file. */
  method Inspect(data: Bytes) returns (lines: seq<Line>, ending: Ending)
    ensures lines == Report(data)
    ensures ending == EndingOf(Walk(data).stop, Walk(data).end)
  {
    var offset: nat := 0;
    lines := [];
    WalkBounds(ReadHeader(data), |data|, 0);
    while true
      invariant Inspecting(data, offset, lines)
      decreases |data| - offset
    {
      if offset == |data| {
        // io.EOF: no byte of a header left
        InspectStop(data, offset, lines);
        return lines, EndOfFile;
      }
      if |data| - offset < HeaderSize {
        // io.ErrUnexpectedEOF: "error at offset %d"
        InspectStop(data, offset, lines);
        return lines, HeaderError(offset);
      }
      var h := ParseHeader(data[offset..offset + HeaderSize]);
      var flags, keyLen, valLen := h.flags, h.keyLen, h.valLen;
      if |data| - offset - HeaderSize < keyLen {
        InspectStop(data, offset, lines);
        return lines, Panic;
      }
      var key := data[offset + HeaderSize..offset + HeaderSize + keyLen];
      var value: Bytes := [];
      if valLen > 0 {
        if |data| - offset - HeaderSize - keyLen < valLen {
          InspectStop(data, offset, lines);
          return lines, Panic;
        }
        value := data[offset + HeaderSize + keyLen..offset + HeaderSize + keyLen + valLen];
      }
      assert value == data[offset + HeaderSize + keyLen..offset + HeaderSize + keyLen + valLen];
      ghost var offBefore, linesBefore := offset, lines;
      lines := lines + [Line(offset, flags, key, value)];
      offset := offset + HeaderSize + keyLen + valLen;
      InspectStep(data, offBefore, linesBefore, flags, keyLen, valLen, offset, lines);
    }
  }

  function LineSize(l: Line): nat {
    HeaderSize + |l.key| + |l.value|
  }

  function SumLineSizes(ls: seq<Line>): nat {
    if ls == [] then 0 else SumLineSizes(ls[..|ls| - 1]) + LineSize(ls[|ls| - 1])
  }

  lemma {:induction false} SumSizesLines(data: Bytes, rs: seq<Decoded>)
    requires forall i :: 0 <= i < |rs| ==> EndOf(rs[i]) <= |data|
    ensures SumLineSizes(Lines(data, rs)) == SumSizes(rs)
    decreases |rs|
  {
    if rs != [] {
      var ls := Lines(data, rs);
      SumSizesSnoc(rs[..|rs| - 1], rs[|rs| - 1]);
      assert ls[..|ls| - 1] == Lines(data, rs[..|rs| - 1]);
      SumSizesLines(data, rs[..|rs| - 1]);
      assert rs[..|rs| - 1] + [rs[|rs| - 1]] == rs;
    }
  }

  lemma {:induction false} SumSizesSnoc(rs: seq<Decoded>, r: Decoded)
    ensures SumSizes(rs + [r]) == SumSizes(rs) + SizeOf(r)
    decreases |rs|
  {
    if rs != [] {
      assert (rs + [r])[1..] == rs[1..] + [r];
      SumSizesSnoc(rs[1..], r);
    }
  }

  /** The offsets printed: each line's offset is the total size
      (17 + keyLen + valLen) of the lines before it. */
  lemma ReportOffsets(data: Bytes)
    ensures var ls := Report(data);
      forall i :: 0 <= i < |ls| ==> ls[i].offset == SumLineSizes(ls[..i])
  {
    var rs := Walk(data).records;
    var ls := Report(data);
    WalkOffsets(ReadHeader(data), |data|, 0);
    WalkBounds(ReadHeader(data), |data|, 0);
    forall i | 0 <= i < |ls|
      ensures ls[i].offset == SumLineSizes(ls[..i])
    {
      assert ls[..i] == Lines(data, rs[..i]);
      SumSizesLines(data, rs[..i]);
    }
  }

  /** Where the printing stops: a file that ends cleanly is exactly as
      long as all its lines together, and a header error is reported where
      the lines end, with fewer than 17 bytes, but some, left. */
  lemma ReportEnd(data: Bytes)
    ensures Walk(data).stop == CleanEof ==> SumLineSizes(Report(data)) == |data|
    ensures Walk(data).stop == PartialHeader ==>
      Walk(data).end == SumLineSizes(Report(data)) && 0 < |data| - Walk(data).end < HeaderSize
  {
    WalkOffsets(ReadHeader(data), |data|, 0);
    WalkBounds(ReadHeader(data), |data|, 0);
    SumSizesLines(data, Walk(data).records);
    if Walk(data).stop == PartialHeader {
      WalkEndsAtStop(data);
    }
  }

  /** A walk that stops at a partial header stops where fewer than 17
      bytes, but some, remain. */
  lemma WalkEndsAtStop(data: Bytes)
    requires Walk(data).stop == PartialHeader
    ensures 0 < |data| - Walk(data).end < HeaderSize
  {
    WalkStopsAt(ReadHeader(data), |data|, 0);
  }

  /** The walk stops at an offset where its reason to stop holds. */
  lemma {:induction false} WalkStopsAt(read: nat -> Option<Header>, n: nat, off: nat)
    requires off <= n
    ensures var w := WalkBy(read, n, off);
      w.stop == PartialHeader ==> w.end < n && read(w.end).None?
    decreases n - off
  {
    var w := WalkBy(read, n, off);
    if off < n && read(off).Some? && n - off - HeaderSize >= read(off).value.keyLen + read(off).value.valLen {
      var h := read(off).value;
      WalkStopsAt(read, n, EndOf(Decoded(off, h.flags, h.keyLen, h.valLen)));
    }
  }

  /** Inspecting a file written record by record prints exactly those
      records, in order, and ends at the end of the file. */
  lemma ReportSerialized(items: seq<Item>)
    requires forall i :: 0 <= i < |items| ==> Encodable(items[i])
    ensures var ls := Report(Serialize(items));
      && Walk(Serialize(items)).stop == CleanEof
      && |ls| == |items|
      && forall i :: 0 <= i < |items| ==>
           ls[i].flags == items[i].flags && ls[i].key == items[i].key && ls[i].value == items[i].value
  {
    WalkSerialized(items);
  }

  /** The line that shows where a key lives: `ls[i]` names `key`, is not
      a tombstone, and no later line names `key`. */
  predicate LastPutLine(ls: seq<Line>, i: int, key: Key) {
    && 0 <= i < |ls|
    && ls[i].key == key && !IsTombstone(ls[i].flags)
    && forall j :: i < j < |ls| ==> ls[j].key != key
  }

  /** The inspector and ScanFile agree: after ScanFile has read a file
      into an empty keydir, a key is in the keydir exactly when the
      inspector's last line for it is a put, and its entry is that line's
      offset and size. */
  lemma ReportAgreesWithScan(data: Bytes, fid: int, key: Key)
    ensures var ls, kd := Report(data), ScanKeydir(map[], fid, data);
      && (key in kd <==> exists i :: LastPutLine(ls, i, key))
      && forall i :: LastPutLine(ls, i, key) ==> kd[key] == Entry(fid, ls[i].offset, LineSize(ls[i]))
  {
    var rs := Walk(data).records;
    WalkBounds(ReadHeader(data), |data|, 0);
    var ls, kd := Report(data), ScanKeydir(map[], fid, data);
    var last := LastFor(data, rs, key);
    ApplyRecordsLastWins(map[], fid, data, rs, key);
    assert key in kd <==> last >= 0 && !IsTombstone(rs[last].flags);
    forall i | LastPutLine(ls, i, key)
      ensures i == last
    {
      LastLineIsLastFor(data, rs, key, i);
    }
    if key in kd {
      LastForIsLastLine(data, rs, key);
    }
  }

  lemma LastLineIsLastFor(data: Bytes, rs: seq<Decoded>, key: Key, i: int)
    requires Within(data, rs)
    requires LastPutLine(Lines(data, rs), i, key)
    ensures i == LastFor(data, rs, key)
  {
    assert KeyOf(data, rs[i]) == key;
    forall j | i < j < |rs|
      ensures KeyOf(data, rs[j]) != key
    {
      assert Lines(data, rs)[j] == LineOf(data, rs[j]);
    }
  }

  lemma LastForIsLastLine(data: Bytes, rs: seq<Decoded>, key: Key)
    requires Within(data, rs)
    requires LastFor(data, rs, key) >= 0 && !IsTombstone(rs[LastFor(data, rs, key)].flags)
    ensures LastPutLine(Lines(data, rs), LastFor(data, rs, key), key)
  {
  }
}
