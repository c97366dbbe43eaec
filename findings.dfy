/** Three places where internal/bitcask/bitcask.go, as written, does not
    keep the promise the rest of the store is built on. For each, the
    behaviour as written and an input that shows it; the corrected
    behaviour is what the Engine module models and proves. */
module Findings {
  import opened Common
  import opened BigEndian
  import opened Record
  import opened Log
  import opened Index
  import opened Engine

  // ---------------------------------------------------------------------
  // 1. RotateFile closes the full file but leaves it in bc.files.

  /** Get as written, where `closed` holds the ids of the data files whose
      *os.File RotateFile has closed: a non-empty ReadAt on a closed file
      fails, everything else is as in Get. */
  function GetAsWritten(kd: Keydir, files: Files, closed: set<int>, key: Key): (r: Result<Bytes>)
    ensures key in kd && kd[key].fileId in files && kd[key].fileId in closed && kd[key].size > 0 ==>
      r == Err(FileClosed(kd[key].fileId))
    ensures key !in kd || kd[key].fileId !in closed ==> r == Lookup(kd, files, key)
  {
    if key in kd && kd[key].fileId in files && kd[key].fileId in closed && kd[key].size > 0 then
      Err(FileClosed(kd[key].fileId))
    else Lookup(kd, files, key)
  }

  /** A key whose record is in the current file is readable before the
      rotation. After RotateFile as written (the file closed, its id kept
      in bc.files) Get fails for it. With the file kept open, as the
      Engine model does, Get still returns the stored value. */
  lemma RotatedKeyUnreadable(kd: Keydir, files: Files, currID: int, off: nat, key: Key)
    requires ValidState(kd, files, currID, off)
    requires key in kd && kd[key].fileId == currID
    ensures key in Index.Contents(kd, files)
    ensures Lookup(kd, files, key) == Ok(Index.Contents(kd, files)[key])
    ensures GetAsWritten(kd, files[currID + 1 := []], {currID}, key) == Err(FileClosed(currID))
    ensures Indexed(kd, files[currID + 1 := []])
    ensures Lookup(kd, files[currID + 1 := []], key) == Ok(Index.Contents(kd, files)[key])
  {
    var files' := files[currID + 1 := []];
    assert HoldsPutFor(files, kd[key], key);
    LookupIndexed(kd, files, key);
    IndexedAfterNewFile(kd, files, currID + 1);
    LookupIndexed(kd, files', key);
  }

  // ---------------------------------------------------------------------
  // 2. Open resumes writing after a torn header.

  /** The tail a crash can leave: the first 16 of a header's 17 bytes,
      whose value length is missing its low byte. */
  function TornHeader(): (torn: Bytes)
    ensures |torn| == HeaderSize - 1
  {
    [0, 0, 0, 0, 0, 0, 0, 0, 0, 0, 0, 0, 0, 0, 0, 1]
  }

  /** Open accepts a file ending in a torn header (its scan stops at a
      partial header). As written it then appends at the end of the file,
      after the torn bytes; the torn header absorbs the first byte of the
      next put record, reads a value length of 256, and the next Open
      fails on the truncated record. Cut back to where its walk stopped,
      as Engine.Open does, the same file takes the record cleanly. */
  lemma AppendAfterTornHeader(key: Key, value: Bytes)
    requires |key| + |value| < 240
    ensures Walk(TornHeader()).stop == PartialHeader
    ensures Walk(TornHeader() + PutRecord(key, value)).stop == TruncatedBody
    ensures Walk(Resume(TornHeader()) + PutRecord(key, value)).stop == CleanEof
  {
    var torn := TornHeader();
    var rec := PutRecord(key, value);
    WalkFromStep(torn, 0);
    var all := torn + rec;
    WalkFromStep(all, 0);
    assert rec[0] == FlagPut;
    assert all[..HeaderSize] == torn + [0];
    var lenBytes: Bytes := [0, 0, 0, 0, 0, 0, 1, 0];
    assert all[..HeaderSize][9..17] == lenBytes;
    assert DecodeBE(lenBytes) == 256 by {
      assert lenBytes[..7] == [0, 0, 0, 0, 0, 0, 1];
      assert [0, 0, 0, 0, 0, 0, 1][..6] == [0, 0, 0, 0, 0, 0];
      DecodeZeros([0, 0, 0, 0, 0, 0]);
    }
    assert ParseHeader(all[..HeaderSize]).valLen == 256;
    assert Resume(torn) == [];
    assert Walk([]).stop == CleanEof;
    WalkAppendRecord([], FlagPut, key, value);
    assert [] + rec == rec;
  }

  /** Zero bytes decode to zero. */
  lemma {:induction false} DecodeZeros(s: Bytes)
    requires forall i :: 0 <= i < |s| ==> s[i] == 0
    ensures DecodeBE(s) == 0
  {
    if s != [] {
      DecodeZeros(s[..|s| - 1]);
    }
  }

  // ---------------------------------------------------------------------
  // 3. RestoreFromSnapshot leaves the other data files on disk.

  /** A store that once rotated holds `k -> v1` in data-1.db. Restoring
      the empty snapshot as written truncates data-0.db only (a non-empty
      snapshot would deadlock first), so data-1.db stays in the directory;
      the next Open replays it last and Get returns the stale `v1`. With the
      directory holding only the file the restore wrote, as
      Engine.Bitcask.RestoreFromSnapshot models it, the key is not found. */
  lemma RestoreLeavesStaleFile(k: Key, v1: Bytes)
    requires |k| <= MaxInt64 && |v1| <= MaxInt64
    ensures var written: Files := map[0 := []];
      var dir := written[1 := PutRecord(k, v1)];
      && Lookup(Replay(dir), dir, k) == Ok(v1)
      && Lookup(Replay(written), written, k) == Err(KeyNotFound)
  {
    var written: Files := map[0 := []];
    var dir := written[1 := PutRecord(k, v1)];
    var rec1 := PutRecord(k, v1);
    assert Replay(map[]) == map[];
    ReplayAfterNewFile(map[], 0);
    assert map[][0 := []] == written;
    assert Replay(written) == map[];
    ReplayOneRecord(written, 1, k, v1);
    assert Replay(dir)[k] == Entry(1, 0, |rec1|);
    assert rec1[0..|rec1|] == rec1;
    DecodePutRecord(k, v1);
  }

  /** Replaying a new, newest file holding one put record points its key
      at the start of that file. */
  lemma ReplayOneRecord(files: Files, id: int, k: Key, v: Bytes)
    requires |k| <= MaxInt64 && |v| <= MaxInt64
    requires forall i :: i in files ==> i < id
    ensures Replay(files[id := PutRecord(k, v)]) == Replay(files)[k := Entry(id, 0, |PutRecord(k, v)|)]
  {
    var rec := PutRecord(k, v);
    ReplayAfterNewTop(files, id, rec);
    assert Walk([]).stop == CleanEof && Walk([]).records == [];
    ScanKeydirAppend(Replay(files), id, [], FlagPut, k, v);
    assert [] + rec == rec;
  }
}
