/** The keydir (internal/bitcask/bitcask.go): what ScanFile does to it for
    each record, what replaying whole files leaves in it, and what Get reads
    through it. */
module Index {
  import opened Common
  import opened BigEndian
  import opened Record
  import opened Log

  /** entry{fileId, offset, size}: where the latest record of a key is. */
  datatype Entry = Entry(fileId: int, offset: nat, size: nat)

  type Keydir = map<Key, Entry>

  /** The contents of the open data files, by file id. */
  type Files = map<int, Bytes>

  /** The records all lie inside `data`. */
  predicate Within(data: Bytes, rs: seq<Decoded>) {
    forall i :: 0 <= i < |rs| ==> EndOf(rs[i]) <= |data|
  }

  /** ScanFile's keydir update for one record of file `fid`: a tombstone
      deletes its key, any other record points the key at itself. */
  function ApplyRecord(kd: Keydir, fid: int, data: Bytes, r: Decoded): (kd': Keydir)
    requires EndOf(r) <= |data|
    ensures IsTombstone(r.flags) ==> KeyOf(data, r) !in kd'
    ensures !IsTombstone(r.flags) ==> KeyOf(data, r) in kd' && kd'[KeyOf(data, r)] == Entry(fid, r.offset, SizeOf(r))
    ensures forall k :: k != KeyOf(data, r) ==> (k in kd' <==> k in kd) && (k in kd ==> kd'[k] == kd[k])
  {
    var key := KeyOf(data, r);
    if IsTombstone(r.flags) then kd - {key}
    else kd[key := Entry(fid, r.offset, SizeOf(r))]
  }

  /** ScanFile's updates for the records of file `fid`, in file order. */
  function ApplyRecords(kd: Keydir, fid: int, data: Bytes, rs: seq<Decoded>): Keydir
    requires Within(data, rs)
    decreases |rs|
  {
    if rs == [] then kd
    else ApplyRecords(ApplyRecord(kd, fid, data, rs[0]), fid, data, rs[1..])
  }

  /** The keydir after ScanFile has read the whole of file `fid`. */
  function ScanKeydir(kd: Keydir, fid: int, data: Bytes): Keydir {
    WalkBounds(ReadHeader(data), |data|, 0);
    ApplyRecords(kd, fid, data, Walk(data).records)
  }

  lemma {:induction false} ApplyRecordsSnoc(kd: Keydir, fid: int, data: Bytes, rs: seq<Decoded>, r: Decoded)
    requires Within(data, rs) && EndOf(r) <= |data|
    ensures Within(data, rs + [r])
    ensures ApplyRecords(kd, fid, data, rs + [r]) == ApplyRecord(ApplyRecords(kd, fid, data, rs), fid, data, r)
    decreases |rs|
  {
    if rs != [] {
      assert (rs + [r])[1..] == rs[1..] + [r];
      ApplyRecordsSnoc(ApplyRecord(kd, fid, data, rs[0]), fid, data, rs[1..], r);
    }
  }

  /** Bytes appended after the records do not change their updates. */
  lemma {:induction false} ApplyRecordsPrefix(kd: Keydir, fid: int, data: Bytes, all: Bytes, rs: seq<Decoded>)
    requires data <= all && Within(data, rs)
    ensures Within(all, rs)
    ensures ApplyRecords(kd, fid, all, rs) == ApplyRecords(kd, fid, data, rs)
    decreases |rs|
  {
    if rs != [] {
      ItemOfPrefix(data, all, rs[0]);
      ApplyRecordsPrefix(ApplyRecord(kd, fid, data, rs[0]), fid, data, all, rs[1..]);
    }
  }

  /** The index of the last record for `key`, or -1 if there is none. */
  function LastFor(data: Bytes, rs: seq<Decoded>, key: Key): (i: int)
    requires Within(data, rs)
    ensures -1 <= i < |rs|
    ensures i >= 0 ==> KeyOf(data, rs[i]) == key
    ensures forall j :: i < j < |rs| ==> KeyOf(data, rs[j]) != key
  {
    if rs == [] then -1
    else if KeyOf(data, rs[|rs| - 1]) == key then |rs| - 1
    else LastFor(data, rs[..|rs| - 1], key)
  }

  /** The keydir after applying the records of file `fid` from offset
      `off` on. */
  function ScanFrom(kd: Keydir, fid: int, data: Bytes, off: nat): Keydir
    requires off <= |data|
  {
    WalkBounds(ReadHeader(data), |data|, off);
    ApplyRecords(kd, fid, data, WalkFrom(data, off).records)
  }

  /** The scan loop's invariant: scanning the rest of the file from `off`
      on, starting from `kd`, ends where scanning the whole file from `kd0`
      ends, and stops for the same reason. */
  predicate Scanning(kd0: Keydir, fid: int, data: Bytes, off: nat, kd: Keydir) {
    && off <= |data|
    && ScanFrom(kd, fid, data, off) == ScanKeydir(kd0, fid, data)
    && WalkFrom(data, off).stop == Walk(data).stop
  }

  /** One step of the scan loop: a whole record at `off` is the next
      record of the walk; applying it deletes its key or points the key at
      it. */
  lemma ScanStep(kd0: Keydir, fid: int, data: Bytes, off: nat, kd: Keydir,
                 flags: byte, keyLen: nat, valLen: nat, off': nat, kd': Keydir)
    requires Scanning(kd0, fid, data, off, kd) && off + HeaderSize <= |data|
    requires ParseHeader(data[off..off + HeaderSize]) == Header(flags, keyLen, valLen)
    requires keyLen + valLen <= |data| - off - HeaderSize
    requires off' == off + HeaderSize + keyLen + valLen
    requires kd' == if IsTombstone(flags) then kd - {data[off + HeaderSize..off + HeaderSize + keyLen]}
                    else kd[data[off + HeaderSize..off + HeaderSize + keyLen] := Entry(fid, off, off' - off)]
    ensures Scanning(kd0, fid, data, off', kd')
  {
    WalkFromStep(data, off);
  }

  /** Where the scan loop stops: fewer than 17 bytes left end it with all
      records applied; a key or value that runs past the end is a
      truncated record, after all records before it. */
  lemma ScanStop(kd0: Keydir, fid: int, data: Bytes, off: nat, kd: Keydir)
    requires Scanning(kd0, fid, data, off, kd)
    ensures |data| - off < HeaderSize ==> kd == ScanKeydir(kd0, fid, data) && Walk(data).stop != TruncatedBody
    ensures |data| - off >= HeaderSize ==>
      var h := ParseHeader(data[off..off + HeaderSize]);
      |data| - off - HeaderSize < h.keyLen + h.valLen ==>
      kd == ScanKeydir(kd0, fid, data) && Walk(data).stop == TruncatedBody
  {
    WalkFromStep(data, off);
  }

  /** Replay semantics: after the records, a key is where its last put
      record is, is gone if its last record is a tombstone, and is as
      before if no record names it. */
  lemma {:induction false} ApplyRecordsLastWins(kd: Keydir, fid: int, data: Bytes, rs: seq<Decoded>, key: Key)
    requires Within(data, rs)
    ensures var kd', i := ApplyRecords(kd, fid, data, rs), LastFor(data, rs, key);
      && (i < 0 ==> (key in kd' <==> key in kd) && (key in kd ==> kd'[key] == kd[key]))
      && (i >= 0 ==>
            && (key in kd' <==> !IsTombstone(rs[i].flags))
            && (key in kd' ==> kd'[key] == Entry(fid, rs[i].offset, SizeOf(rs[i]))))
  {
    if rs != [] {
      var init, last := rs[..|rs| - 1], rs[|rs| - 1];
      assert init + [last] == rs;
      ApplyRecordsSnoc(kd, fid, data, init, last);
      ApplyRecordsLastWins(kd, fid, data, init, key);
    }
  }

  /** Walking a file and applying its records: the entry ScanFile leaves
      for a key the file names, whether the key was in the keydir before
      or not, has the offset of the sum of the sizes before its last record
      and the size 17 + keyLen + valLen. */
  lemma ScanEntries(kd: Keydir, fid: int, data: Bytes, key: Key)
    requires key in ScanKeydir(kd, fid, data)
    requires var rs := Walk(data).records;
      exists j :: 0 <= j < |rs| && EndOf(rs[j]) <= |data| && KeyOf(data, rs[j]) == key
    ensures var e, rs := ScanKeydir(kd, fid, data)[key], Walk(data).records;
      exists i :: 0 <= i < |rs| && e == Entry(fid, SumSizes(rs[..i]), SizeOf(rs[i]))
        && EndOf(rs[i]) <= |data| && KeyOf(data, rs[i]) == key && !IsTombstone(rs[i].flags)
  {
    var rs := Walk(data).records;
    WalkBounds(ReadHeader(data), |data|, 0);
    WalkOffsets(ReadHeader(data), |data|, 0);
    ApplyRecordsLastWins(kd, fid, data, rs, key);
    var i := LastFor(data, rs, key);
    assert i >= 0;
    assert rs[i].offset == SumSizes(rs[..i]);
  }

  /** The largest id of a non-empty set. */
  ghost function MaxOf(ids: set<int>): (m: int)
    requires ids != {}
    ensures m in ids && forall id :: id in ids ==> id <= m
    decreases ids
  {
    assert exists x :: x in ids by {
      if forall y :: y !in ids { assert false; }
    }
    var x :| x in ids;
    var rest := ids - {x};
    if rest == {} then
      assert forall id :: id in ids && id != x ==> id in rest;
      x
    else
      var m := MaxOf(rest);
      assert forall id :: id in ids ==> id == x || id in rest;
      if x < m then m else x
  }

  /** What Open leaves in the keydir after scanning the files with ids in
      `ids`, in ascending id order, so that later files win. */
  ghost function ReplayIds(files: Files, ids: set<int>): Keydir
    requires ids <= files.Keys
    decreases ids
  {
    if ids == {} then map[]
    else
      var m := MaxOf(ids);
      ScanKeydir(ReplayIds(files, ids - {m}), m, files[m])
  }

  ghost function Replay(files: Files): Keydir {
    ReplayIds(files, files.Keys)
  }

  /** Replay reads only the files it replays. */
  lemma {:induction false} ReplayIdsFrame(f1: Files, f2: Files, ids: set<int>)
    requires ids <= f1.Keys && ids <= f2.Keys
    requires forall id :: id in ids ==> f1[id] == f2[id]
    ensures ReplayIds(f1, ids) == ReplayIds(f2, ids)
    decreases ids
  {
    if ids != {} {
      ReplayIdsFrame(f1, f2, ids - {MaxOf(ids)});
    }
  }

  /** Replay in terms of its last (largest) file. */
  lemma ReplayIdsTop(files: Files, ids: set<int>, top: int)
    requires ids <= files.Keys && top in ids
    requires forall id :: id in ids ==> id <= top
    ensures ReplayIds(files, ids) == ScanKeydir(ReplayIds(files, ids - {top}), top, files[top])
  {
    assert MaxOf(ids) == top;
  }

  /** Scanning a file with one more record at its end applies that record
      last. */
  lemma ScanKeydirAppend(kd: Keydir, fid: int, data: Bytes, flags: byte, key: Key, value: Bytes)
    requires |key| < Uint64Limit && |value| < Uint64Limit
    requires Walk(data).stop == CleanEof
    ensures var all := data + EncodeRecord(flags, key, value);
      var r := Decoded(|data|, flags, |key|, |value|);
      && Walk(all) == Walked(Walk(data).records + [r], CleanEof, |all|)
      && ScanKeydir(kd, fid, all) == if IsTombstone(flags) then ScanKeydir(kd, fid, data) - {key}
                                     else ScanKeydir(kd, fid, data)[key := Entry(fid, |data|, SizeOf(r))]
  {
    var all := data + EncodeRecord(flags, key, value);
    var r := Decoded(|data|, flags, |key|, |value|);
    var rs := Walk(data).records;
    WalkAppendRecord(data, flags, key, value);
    WalkBounds(ReadHeader(data), |data|, 0);
    ApplyRecordsSnoc(kd, fid, all, rs, r);
    ApplyRecordsPrefix(kd, fid, data, all, rs);
  }

  /** A record appended to the newest file, which walks cleanly, is
      replayed last. */
  lemma ReplayAfterAppend(files: Files, top: int, flags: byte, key: Key, value: Bytes)
    requires top in files && forall id :: id in files ==> id <= top
    requires Walk(files[top]).stop == CleanEof
    requires |key| < Uint64Limit && |value| < Uint64Limit
    ensures var data := files[top];
      var files' := files[top := data + EncodeRecord(flags, key, value)];
      var r := Decoded(|data|, flags, |key|, |value|);
      && Walk(files'[top]) == Walked(Walk(data).records + [r], CleanEof, |files'[top]|)
      && Replay(files') == if IsTombstone(flags) then Replay(files) - {key}
                           else Replay(files)[key := Entry(top, |data|, SizeOf(r))]
  {
    var data := files[top];
    var files' := files[top := data + EncodeRecord(flags, key, value)];
    var below := files.Keys - {top};
    assert files'.Keys == files.Keys;
    ReplayIdsFrame(files, files', below);
    ReplayIdsTop(files, files.Keys, top);
    ReplayIdsTop(files', files'.Keys, top);
    ScanKeydirAppend(ReplayIds(files, below), top, data, flags, key, value);
  }

  /** A file with a new, largest id is replayed last. */
  lemma ReplayAfterNewTop(files: Files, id: int, data: Bytes)
    requires forall i :: i in files ==> i < id
    ensures Replay(files[id := data]) == ScanKeydir(Replay(files), id, data)
  {
    var files' := files[id := data];
    assert files'.Keys - {id} == files.Keys;
    ReplayIdsFrame(files, files', files.Keys);
    ReplayIdsTop(files', files'.Keys, id);
  }

  /** Adding an empty file with a new, largest id does not change what
      replay yields. */
  lemma ReplayAfterNewFile(files: Files, id: int)
    requires forall i :: i in files ==> i < id
    ensures Replay(files[id := []]) == Replay(files)
  {
    ReplayAfterNewTop(files, id, []);
    assert Walk([]).records == [];
  }

  /** A file cut off where its walk stopped. */
  function Resume(data: Bytes): (cut: Bytes)
    ensures cut <= data
  {
    data[..Walk(data).end]
  }

  /** Cutting the newest file off where its walk stopped changes nothing
      that replay yields, and leaves a file that walks cleanly. */
  lemma ReplayAfterResume(files: Files, top: int)
    requires top in files && forall id :: id in files ==> id <= top
    ensures var data := files[top];
      && Walk(Resume(data)) == Walked(Walk(data).records, CleanEof, |Resume(data)|)
      && Replay(files[top := Resume(data)]) == Replay(files)
  {
    var data := files[top];
    var cut := Resume(data);
    var files' := files[top := cut];
    var below := files.Keys - {top};
    var rs := Walk(data).records;
    assert files'.Keys == files.Keys;
    WalkTruncated(data);
    WalkBounds(ReadHeader(data), |data|, 0);
    ReplayIdsFrame(files, files', below);
    ReplayIdsTop(files, files.Keys, top);
    ReplayIdsTop(files', files'.Keys, top);
    ApplyRecordsPrefix(ReplayIds(files, below), top, cut, data, rs);
  }

  /** ReadAt of `size` bytes at `offset`: it fails when the file is too
      short to fill the buffer. */
  function ReadAt(data: Bytes, offset: nat, size: nat): (r: Result<Bytes>)
    ensures r.Ok? <==> size == 0 || offset + size <= |data|
    ensures r.Ok? ==> |r.value| == size
    ensures r.Ok? && size > 0 ==> r.value == data[offset..offset + size]
  {
    if size == 0 then Ok([])
    else if |data| < offset + size then Err(ReadFailed)
    else Ok(data[offset..offset + size])
  }

  /** Get: look the key up, find its file, read `size` bytes at `offset`
      and decode the value. */
  function Lookup(kd: Keydir, files: Files, key: Key): (r: Result<Bytes>)
    ensures key !in kd ==> r == Err(KeyNotFound)
    ensures key in kd && kd[key].fileId !in files ==> r == Err(FileNotFound(kd[key].fileId))
  {
    if key !in kd then Err(KeyNotFound)
    else
      var e := kd[key];
      if e.fileId !in files then Err(FileNotFound(e.fileId))
      else
        match ReadAt(files[e.fileId], e.offset, e.size)
        case Err(err) => Err(err)
        case Ok(buf) => DecodeValue(buf)
  }

  /** `buf` is a record that puts `key`: not a tombstone, with key length
      |key|, exactly as long as its header says, and holding `key`. */
  predicate IsPutRecordFor(buf: Bytes, key: Key) {
    && |buf| >= HeaderSize
    && var h := ParseHeader(buf);
    && !IsTombstone(h.flags)
    && h.keyLen == |key|
    && |buf| == HeaderSize + h.keyLen + h.valLen
    && buf[HeaderSize..HeaderSize + h.keyLen] == key
  }

  /** The entry points at a put record for `key` inside an open file. */
  predicate HoldsPutFor(files: Files, e: Entry, key: Key) {
    && e.fileId in files
    && e.offset + e.size <= |files[e.fileId]|
    && IsPutRecordFor(files[e.fileId][e.offset..e.offset + e.size], key)
  }

  /** Every keydir entry points at a put record for its key. */
  predicate Indexed(kd: Keydir, files: Files) {
    forall k {:trigger HoldsPutFor(files, kd[k], k)} :: k in kd ==> HoldsPutFor(files, kd[k], k)
  }

  /** The value of the put record an entry points at. */
  function StoredValue(files: Files, e: Entry, key: Key): Bytes
    requires HoldsPutFor(files, e, key)
  {
    files[e.fileId][e.offset + HeaderSize + |key|..e.offset + e.size]
  }

  /** The key-value map an indexed keydir stands for. */
  function Contents(kd: Keydir, files: Files): map<Key, Bytes>
    requires Indexed(kd, files)
  {
    map k | k in kd :: StoredValue(files, kd[k], k)
  }

  /** On an indexed keydir Get finds exactly the stored values. */
  lemma LookupIndexed(kd: Keydir, files: Files, key: Key)
    ensures Indexed(kd, files) ==> var cs := Contents(kd, files);
      Lookup(kd, files, key) == if key in cs then Ok(cs[key]) else Err(KeyNotFound)
  {
    if Indexed(kd, files) && key in kd {
      var e := kd[key];
      assert HoldsPutFor(files, e, key);
      var buf := files[e.fileId][e.offset..e.offset + e.size];
      var start := HeaderSize + |key|;
      assert buf[start..start + ParseHeader(buf).valLen] == StoredValue(files, e, key);
    }
  }

  /** The values Get returns for every key of an indexed keydir are its
      contents. */
  lemma LookupsAreContents(kd: Keydir, files: Files, m: map<Key, Bytes>)
    requires Indexed(kd, files)
    requires m.Keys == kd.Keys && forall k :: k in m ==> Lookup(kd, files, k) == Ok(m[k])
    ensures m == Contents(kd, files)
  {
    forall k | k in m
      ensures m[k] == Contents(kd, files)[k]
    {
      LookupIndexed(kd, files, k);
    }
  }

  /** A put record is a put record for its key. */
  lemma PutRecordIsPutFor(key: Key, value: Bytes)
    requires |key| <= MaxInt64 && |value| <= MaxInt64
    ensures IsPutRecordFor(PutRecord(key, value), key)
  {
    ParseEncodedRecord(FlagPut, key, value);
  }

  /** The entry's bytes are the same in both sets of files. */
  predicate SameBytes(f1: Files, f2: Files, e: Entry) {
    && e.fileId in f1 && e.fileId in f2
    && e.offset + e.size <= |f1[e.fileId]| && e.offset + e.size <= |f2[e.fileId]|
    && f2[e.fileId][e.offset..e.offset + e.size] == f1[e.fileId][e.offset..e.offset + e.size]
  }

  /** An indexed keydir stays indexed, and stands for the same contents,
      over files in which its entries' bytes are unchanged. */
  lemma IndexedFrame(kd: Keydir, f1: Files, f2: Files)
    requires Indexed(kd, f1)
    requires forall k :: k in kd ==> SameBytes(f1, f2, kd[k])
    ensures Indexed(kd, f2) && Contents(kd, f2) == Contents(kd, f1)
  {
    forall k | k in kd
      ensures HoldsPutFor(f2, kd[k], k) && StoredValue(f2, kd[k], k) == StoredValue(f1, kd[k], k)
    {
      var e := kd[k];
      var buf := f1[e.fileId][e.offset..e.offset + e.size];
      assert StoredValue(f1, e, k) == buf[HeaderSize + |k|..];
      assert StoredValue(f2, e, k) == buf[HeaderSize + |k|..];
    }
  }

  /** Pointing one key at a put record for it. */
  lemma IndexedInsert(kd: Keydir, files: Files, key: Key, e: Entry)
    requires Indexed(kd, files) && HoldsPutFor(files, e, key)
    ensures Indexed(kd[key := e], files)
    ensures Contents(kd[key := e], files) == Contents(kd, files)[key := StoredValue(files, e, key)]
  {
  }

  /** Removing one key. */
  lemma IndexedRemove(kd: Keydir, files: Files, key: Key)
    requires Indexed(kd, files)
    ensures Indexed(kd - {key}, files)
    ensures Contents(kd - {key}, files) == Contents(kd, files) - {key}
  {
  }

  /** Appending to a file keeps every entry pointing at the same bytes. */
  lemma IndexedAfterAppend(kd: Keydir, files: Files, id: int, rec: Bytes)
    requires Indexed(kd, files) && id in files
    ensures var files' := files[id := files[id] + rec];
      && Indexed(kd, files')
      && Contents(kd, files') == Contents(kd, files)
  {
    var files' := files[id := files[id] + rec];
    forall k | k in kd
      ensures SameBytes(files, files', kd[k])
    {
      var e := kd[k];
      assert HoldsPutFor(files, e, k);
      if e.fileId == id {
        assert files'[id][e.offset..e.offset + e.size] == files[id][e.offset..e.offset + e.size];
      }
    }
    IndexedFrame(kd, files, files');
  }

  /** A new file keeps every entry pointing at the same bytes. */
  lemma IndexedAfterNewFile(kd: Keydir, files: Files, id: int)
    requires Indexed(kd, files) && id !in files
    ensures Indexed(kd, files[id := []])
    ensures Contents(kd, files[id := []]) == Contents(kd, files)
  {
    var files' := files[id := []];
    forall k | k in kd
      ensures SameBytes(files, files', kd[k])
    {
      assert HoldsPutFor(files, kd[k], k);
    }
    IndexedFrame(kd, files, files');
  }

  /** Put's update: the key now points at the record just appended, and
      its value is the one put; no other key changes. */
  lemma IndexedPut(kd: Keydir, files: Files, id: int, key: Key, value: Bytes)
    requires Indexed(kd, files) && id in files
    requires |key| <= MaxInt64 && |value| <= MaxInt64
    ensures var rec := PutRecord(key, value);
      var files' := files[id := files[id] + rec];
      var kd' := kd[key := Entry(id, |files[id]|, |rec|)];
      && Indexed(kd', files')
      && Contents(kd', files') == Contents(kd, files)[key := value]
  {
    var rec := PutRecord(key, value);
    var files' := files[id := files[id] + rec];
    var e := Entry(id, |files[id]|, |rec|);
    IndexedAfterAppend(kd, files, id, rec);
    assert files'[id][e.offset..e.offset + e.size] == rec;
    PutRecordIsPutFor(key, value);
    PutRecordLayout(key, value);
    assert StoredValue(files', e, key) == value;
    IndexedInsert(kd, files', key, e);
  }

  /** Delete's update: the key is gone; no other key changes. */
  lemma IndexedDelete(kd: Keydir, files: Files, id: int, key: Key, rec: Bytes)
    requires Indexed(kd, files) && id in files
    ensures var files' := files[id := files[id] + rec];
      && Indexed(kd - {key}, files')
      && Contents(kd - {key}, files') == Contents(kd, files) - {key}
  {
    IndexedAfterAppend(kd, files, id, rec);
    IndexedRemove(kd, files[id := files[id] + rec], key);
  }

  /** The records ScanFile applies come from file `fid` itself and are
      encoded where they are found, so the keydir stays indexed. */
  lemma {:induction false} ApplyRecordsIndexed(kd: Keydir, files: Files, fid: int, rs: seq<Decoded>)
    requires Indexed(kd, files) && fid in files
    requires Within(files[fid], rs)
    requires forall i :: 0 <= i < |rs| ==>
      && rs[i].keyLen < Uint64Limit && rs[i].valLen < Uint64Limit
      && files[fid][rs[i].offset..EndOf(rs[i])]
         == EncodeRecord(rs[i].flags, KeyOf(files[fid], rs[i]), ValueOf(files[fid], rs[i]))
    ensures Indexed(ApplyRecords(kd, fid, files[fid], rs), files)
    decreases |rs|
  {
    if rs != [] {
      var data := files[fid];
      var r := rs[0];
      var key, value := KeyOf(data, r), ValueOf(data, r);
      if !IsTombstone(r.flags) {
        ParseEncodedRecord(r.flags, key, value);
        assert IsPutRecordFor(data[r.offset..EndOf(r)], key);
      }
      ApplyRecordsIndexed(ApplyRecord(kd, fid, data, r), files, fid, rs[1..]);
    }
  }

  /** Every entry replay creates points at a put record for its key. */
  lemma {:induction false} ReplayIndexed(files: Files, ids: set<int>)
    requires ids <= files.Keys
    ensures Indexed(ReplayIds(files, ids), files)
    decreases ids
  {
    if ids != {} {
      var m := MaxOf(ids);
      ReplayIndexed(files, ids - {m});
      WalkRecordsEncoded(files[m]);
      WalkBounds(ReadHeader(files[m]), |files[m]|, 0);
      var rs := Walk(files[m]).records;
      assert forall i :: 0 <= i < |rs| ==> rs[i] in rs;
      ApplyRecordsIndexed(ReplayIds(files, ids - {m}), files, m, rs);
    }
  }
}
