/** The Bitcask store of internal/bitcask/bitcask.go: an in-memory keydir
    over append-only data files. The data files are modelled by their
    contents, keyed by file id; writes append to the current file. */
module Engine {
  import opened Common
  import opened BigEndian
  import opened Record
  import opened Log
  import opened Index
  import opened FileIds
  import opened KeyOrder

  /** maxFileSize = 128 << 20: the size at which RotateFile starts a new
      data file. */
  const MaxFileSize: nat := 128 * 1024 * 1024

  /** The files Open finds, with the ids their names give. */
  function Listed(paths: seq<string>): seq<DataFile> {
    seq(|paths|, i requires 0 <= i < |paths| => DataFile(ExtractFileId(paths[i]), paths[i]))
  }

  /** Bitcask's invariant on the values of its fields: the current file
      is open and written at its end, no file is newer than it, and every
      keydir entry points at a put record for its key. */
  predicate ValidState(kd: Keydir, files: Files, currID: int, currOffset: nat) {
    && currID in files
    && currOffset == |files[currID]|
    && (forall id :: id in files ==> id <= currID)
    && Indexed(kd, files)
  }

  /** Reopening the files gives back the same store: the keydir is what
      replaying them yields, no file holds a truncated record (which would
      make Open fail) and the current file ends on a record boundary, so
      that what is appended next is read back. */
  ghost predicate DurableState(kd: Keydir, files: Files, currID: int) {
    && kd == Replay(files)
    && currID in files
    && Walk(files[currID]).stop == CleanEof
    && (forall id :: id in files ==> Walk(files[id]).stop != TruncatedBody)
  }

  /** RotateFile's step: a new empty file with the next id. */
  lemma RotateState(kd: Keydir, files: Files, currID: int, off: nat, files': Files, currID': int)
    requires ValidState(kd, files, currID, off)
    requires currID' == currID + 1 && files' == files[currID' := []]
    ensures ValidState(kd, files', currID', 0)
    ensures Index.Contents(kd, files') == Index.Contents(kd, files)
    ensures DurableState(kd, files, currID) ==> DurableState(kd, files', currID')
  {
    IndexedAfterNewFile(kd, files, currID');
    if DurableState(kd, files, currID) {
      ReplayAfterNewFile(files, currID');
      assert Walk([]).stop == CleanEof;
    }
  }

  /** Put's step: a put record appended to the current file, and the key
      pointed at it. */
  lemma PutState(kd: Keydir, files: Files, currID: int, off: nat, key: Key, value: Bytes,
                 kd': Keydir, files': Files, off': nat)
    requires ValidState(kd, files, currID, off)
    requires |key| <= MaxInt64 && |value| <= MaxInt64
    requires files' == files[currID := files[currID] + PutRecord(key, value)]
    requires kd' == kd[key := Entry(currID, off, |PutRecord(key, value)|)]
    requires off' == off + |PutRecord(key, value)|
    ensures ValidState(kd', files', currID, off')
    ensures Index.Contents(kd', files') == Index.Contents(kd, files)[key := value]
  {
    IndexedPut(kd, files, currID, key, value);
  }

  /** Delete's step: a tombstone appended to the current file, and the
      key dropped. */
  lemma DeleteState(kd: Keydir, files: Files, currID: int, off: nat, key: Key,
                    kd': Keydir, files': Files, off': nat)
    requires ValidState(kd, files, currID, off)
    requires |key| <= MaxInt64
    requires files' == files[currID := files[currID] + TombstoneRecord(key)]
    requires kd' == kd - {key}
    requires off' == off + |TombstoneRecord(key)|
    ensures ValidState(kd', files', currID, off')
    ensures Index.Contents(kd', files') == Index.Contents(kd, files) - {key}
  {
    IndexedDelete(kd, files, currID, key, TombstoneRecord(key));
  }

  /** Appending a record to the current file and applying it to the keydir
      keeps the keydir equal to what reopening the files would rebuild. */
  lemma AppendState(kd: Keydir, files: Files, currID: int, flags: byte, key: Key, value: Bytes,
                    kd': Keydir, files': Files)
    requires currID in files && forall id :: id in files ==> id <= currID
    requires |key| < Uint64Limit && |value| < Uint64Limit
    requires files' == files[currID := files[currID] + EncodeRecord(flags, key, value)]
    requires kd' == if IsTombstone(flags) then kd - {key}
                    else kd[key := Entry(currID, |files[currID]|, HeaderSize + |key| + |value|)]
    ensures DurableState(kd, files, currID) ==> DurableState(kd', files', currID)
  {
    if DurableState(kd, files, currID) {
      AppendReplay(kd, files, currID, flags, key, value, kd', files');
      forall id | id in files'
        ensures Walk(files'[id]).stop != TruncatedBody
      {
        if id != currID {
          assert files'[id] == files[id];
        }
      }
    }
  }

  /** The replay half of AppendState. */
  lemma AppendReplay(kd: Keydir, files: Files, currID: int, flags: byte, key: Key, value: Bytes,
                     kd': Keydir, files': Files)
    requires currID in files && forall id :: id in files ==> id <= currID
    requires kd == Replay(files) && Walk(files[currID]).stop == CleanEof
    requires |key| < Uint64Limit && |value| < Uint64Limit
    requires files' == files[currID := files[currID] + EncodeRecord(flags, key, value)]
    requires kd' == if IsTombstone(flags) then kd - {key}
                    else kd[key := Entry(currID, |files[currID]|, HeaderSize + |key| + |value|)]
    ensures kd' == Replay(files') && Walk(files'[currID]).stop == CleanEof
  {
    ReplayAfterAppend(files, currID, flags, key, value);
  }

  /** Every sorted file is one of the listed paths. */
  lemma SortedListed(listing: seq<string>, disk: map<string, Bytes>, sorted: seq<DataFile>)
    requires forall p :: p in listing ==> p in disk
    requires multiset(sorted) == multiset(Listed(listing))
    ensures forall j :: 0 <= j < |sorted| ==> sorted[j].path in listing && sorted[j].path in disk
    ensures forall j :: 0 <= j < |sorted| ==> sorted[j].id == ExtractFileId(sorted[j].path)
  {
    var fs := Listed(listing);
    forall j | 0 <= j < |sorted|
      ensures sorted[j].path in listing && sorted[j].id == ExtractFileId(sorted[j].path)
    {
      assert sorted[j] in multiset(fs);
      var k :| 0 <= k < |fs| && fs[k] == sorted[j];
    }
  }

  /** When the files before position j of the sorted listing are clean,
      so is every listed file with an id below the j-th. */
  lemma FirstTruncated(listing: seq<string>, disk: map<string, Bytes>, sorted: seq<DataFile>, j: nat)
    requires forall p :: p in listing ==> p in disk
    requires multiset(sorted) == multiset(Listed(listing)) && Ascending(sorted) && j < |sorted|
    requires forall i :: 0 <= i < |sorted| ==> sorted[i].path in disk
    requires forall i :: 0 <= i < j ==> Walk(disk[sorted[i].path]).stop != TruncatedBody
    ensures forall q :: q in listing && ExtractFileId(q) < sorted[j].id ==> Walk(disk[q]).stop != TruncatedBody
  {
    forall q | q in listing && ExtractFileId(q) < sorted[j].id
      ensures Walk(disk[q]).stop != TruncatedBody
    {
      var n :| 0 <= n < |listing| && listing[n] == q;
      var f := Listed(listing)[n];
      assert f in multiset(sorted);
      var k :| 0 <= k < |sorted| && sorted[k] == f;
      if k >= j {
        AscendingBelow(sorted, j, k);
      }
    }
  }

  /** When Open's loop fails on the first truncated file in sorted order,
      its error names a truncated listed file with no truncated file of
      lower id. */
  lemma OpenFailed(listing: seq<string>, disk: map<string, Bytes>, sorted: seq<DataFile>, e: Error)
    requires forall p :: p in listing ==> p in disk
    requires multiset(sorted) == multiset(Listed(listing)) && Ascending(sorted)
    requires forall i :: 0 <= i < |sorted| ==> sorted[i].path in listing && sorted[i].path in disk
    requires forall i :: 0 <= i < |sorted| ==> sorted[i].id == ExtractFileId(sorted[i].path)
    requires exists j :: 0 <= j < |sorted| && Walk(disk[sorted[j].path]).stop == TruncatedBody
                         && e == ScanFailed(sorted[j].path, UnexpectedEof)
                         && forall i :: 0 <= i < j ==> Walk(disk[sorted[i].path]).stop != TruncatedBody
    ensures exists p :: (p in listing && Walk(disk[p]).stop == TruncatedBody && e == ScanFailed(p, UnexpectedEof)
      && forall q :: q in listing && ExtractFileId(q) < ExtractFileId(p) ==> Walk(disk[q]).stop != TruncatedBody)
  {
    var j :| 0 <= j < |sorted| && Walk(disk[sorted[j].path]).stop == TruncatedBody
             && e == ScanFailed(sorted[j].path, UnexpectedEof)
             && forall i :: 0 <= i < j ==> Walk(disk[sorted[i].path]).stop != TruncatedBody;
    FirstTruncated(listing, disk, sorted, j);
    assert sorted[j].path in listing;
  }

  /** Every listed file's contents are on the disk. */
  lemma ListedOnDisk(listing: seq<string>, disk: map<string, Bytes>)
    requires forall p :: p in listing ==> p in disk
    ensures forall f :: f in Listed(listing) ==> f.path in disk
  {
    forall f | f in Listed(listing)
      ensures f.path in disk
    {
      var k :| 0 <= k < |listing| && Listed(listing)[k] == f;
      assert f.path == listing[k];
    }
  }

  /** What Open's loop has built after loading the first `i` sorted
      files: one file per id seen, none of them truncated, `maxId` the
      largest id seen (or -1), and, when the ids are distinct, each id
      holding its file and the keydir being what replaying them yields. */
  ghost predicate Loaded(sorted: seq<DataFile>, disk: map<string, Bytes>, i: nat,
                         files: Files, kd: Keydir, maxId: int)
  {
    && i <= |sorted|
    && (forall j :: 0 <= j < |sorted| ==> sorted[j].path in disk)
    && files.Keys == (set j | 0 <= j < i :: sorted[j].id)
    && (forall id :: id in files ==> Walk(files[id]).stop != TruncatedBody)
    && (forall j :: 0 <= j < i ==> Walk(disk[sorted[j].path]).stop != TruncatedBody)
    && maxId >= -1 && (forall j :: 0 <= j < i ==> sorted[j].id <= maxId)
    && (maxId == -1 || exists j :: 0 <= j < i && sorted[j].id == maxId)
    && (StrictlyAscending(sorted) ==>
          && (forall j :: 0 <= j < i ==> files[sorted[j].id] == disk[sorted[j].path])
          && kd == Replay(files))
  }

  /** Loading file `i` adds its id. */
  lemma LoadIds(sorted: seq<DataFile>, i: nat, files: Files, data: Bytes, files': Files)
    requires i < |sorted| && files.Keys == (set j | 0 <= j < i :: sorted[j].id)
    requires files' == files[sorted[i].id := data]
    ensures files'.Keys == (set j | 0 <= j < i + 1 :: sorted[j].id)
  {
    assert files'.Keys == files.Keys + {sorted[i].id};
  }

  /** Loading file `i` keeps `maxId` the largest id seen. */
  lemma LoadMax(sorted: seq<DataFile>, i: nat, maxId: int, maxId': int)
    requires i < |sorted|
    requires maxId >= -1 && forall j :: 0 <= j < i ==> sorted[j].id <= maxId
    requires maxId == -1 || exists j :: 0 <= j < i && sorted[j].id == maxId
    requires maxId' == if sorted[i].id > maxId then sorted[i].id else maxId
    ensures maxId' >= -1 && forall j :: 0 <= j < i + 1 ==> sorted[j].id <= maxId'
    ensures maxId' == -1 || exists j :: 0 <= j < i + 1 && sorted[j].id == maxId'
  {
    if maxId' != -1 {
      if maxId' == sorted[i].id {
        assert 0 <= i < i + 1 && sorted[i].id == maxId';
      } else {
        var j :| 0 <= j < i && sorted[j].id == maxId;
        assert 0 <= j < i + 1 && sorted[j].id == maxId';
      }
    }
  }

  /** With distinct ids, loading file `i` leaves the earlier files as
      they were. */
  lemma LoadContents(sorted: seq<DataFile>, disk: map<string, Bytes>, i: nat, files: Files, files': Files)
    requires StrictlyAscending(sorted) && i < |sorted|
    requires forall j :: 0 <= j < |sorted| ==> sorted[j].path in disk
    requires forall j :: 0 <= j < i ==> sorted[j].id in files && files[sorted[j].id] == disk[sorted[j].path]
    requires files' == files[sorted[i].id := disk[sorted[i].path]]
    ensures forall j :: 0 <= j < i + 1 ==> files'[sorted[j].id] == disk[sorted[j].path]
  {
    StrictlyAscendingBelow(sorted, i);
    forall j | 0 <= j < i + 1
      ensures files'[sorted[j].id] == disk[sorted[j].path]
    {
      if j < i {
        assert sorted[j].id != sorted[i].id;
        assert files'[sorted[j].id] == files[sorted[j].id];
      }
    }
  }

  /** One iteration of Open's loop: file `i` is loaded and scanned. */
  lemma LoadStep(sorted: seq<DataFile>, disk: map<string, Bytes>, i: nat,
                 files: Files, kd: Keydir, maxId: int, files': Files, kd': Keydir, maxId': int)
    requires Loaded(sorted, disk, i, files, kd, maxId) && i < |sorted|
    requires Walk(disk[sorted[i].path]).stop != TruncatedBody
    requires files' == files[sorted[i].id := disk[sorted[i].path]]
    requires kd' == ScanKeydir(kd, sorted[i].id, disk[sorted[i].path])
    requires maxId' == if sorted[i].id > maxId then sorted[i].id else maxId
    ensures Loaded(sorted, disk, i + 1, files', kd', maxId')
  {
    LoadIds(sorted, i, files, disk[sorted[i].path], files');
    LoadMax(sorted, i, maxId, maxId');
    if StrictlyAscending(sorted) {
      StrictlyAscendingBelow(sorted, i);
      ReplayAfterNewTop(files, sorted[i].id, disk[sorted[i].path]);
      LoadContents(sorted, disk, i, files, files');
    }
  }

  /** The loaded files in terms of the listed files, once every sorted
      file is loaded. */
  lemma LoadedListing(fs: seq<DataFile>, disk: map<string, Bytes>, sorted: seq<DataFile>,
                      files: Files, maxId: int)
    requires multiset(sorted) == multiset(fs)
    requires files.Keys == (set j | 0 <= j < |sorted| :: sorted[j].id)
    requires forall j :: 0 <= j < |sorted| ==> sorted[j].path in disk && Walk(disk[sorted[j].path]).stop != TruncatedBody
    requires forall j :: 0 <= j < |sorted| ==> sorted[j].id <= maxId
    requires maxId == -1 || exists j :: 0 <= j < |sorted| && sorted[j].id == maxId
    requires StrictlyAscending(sorted) ==> forall j :: 0 <= j < |sorted| ==> files[sorted[j].id] == disk[sorted[j].path]
    ensures files.Keys == Ids(fs)
    ensures forall f :: f in fs ==> f.id <= maxId && f.path in disk && Walk(disk[f.path]).stop != TruncatedBody
    ensures maxId == -1 || exists f :: f in fs && f.id == maxId
    ensures StrictlyAscending(sorted) ==> forall f :: f in fs ==> files[f.id] == disk[f.path]
  {
    forall id | id in files
      ensures id in Ids(fs)
    {
      var j :| 0 <= j < |sorted| && sorted[j].id == id;
      assert sorted[j] in multiset(fs);
    }
    forall f | f in fs
      ensures f.id in files
      ensures f.id <= maxId && f.path in disk && Walk(disk[f.path]).stop != TruncatedBody
      ensures StrictlyAscending(sorted) ==> files[f.id] == disk[f.path]
    {
      assert f in multiset(sorted);
      var j :| 0 <= j < |sorted| && sorted[j] == f;
      assert sorted[j].id in files;
    }
    assert files.Keys <= Ids(fs) && Ids(fs) <= files.Keys;
    if maxId != -1 {
      var j :| 0 <= j < |sorted| && sorted[j].id == maxId;
      assert sorted[j] in multiset(fs);
    }
  }

  /** No listed path is truncated once every sorted file has scanned. */
  lemma ListedClean(listing: seq<string>, disk: map<string, Bytes>, sorted: seq<DataFile>)
    requires multiset(sorted) == multiset(Listed(listing))
    requires forall j :: 0 <= j < |sorted| ==> sorted[j].path in disk && Walk(disk[sorted[j].path]).stop != TruncatedBody
    ensures forall p :: p in listing ==> p in disk && Walk(disk[p]).stop != TruncatedBody
  {
    var fs := Listed(listing);
    forall p | p in listing
      ensures p in disk && Walk(disk[p]).stop != TruncatedBody
    {
      var k :| 0 <= k < |listing| && listing[k] == p;
      assert fs[k] in multiset(sorted);
      var j :| 0 <= j < |sorted| && sorted[j] == fs[k];
    }
  }

  /** The files and current file Open leaves for the listed files `fs`:
      one file per listed id, the newest of them (or a new, empty
      data-0.db when no id is above -1) being the current file, cut back to
      its last whole record. */
  ghost predicate Reopened(files: Files, currID: int, fs: seq<DataFile>, disk: map<string, Bytes>)
    requires forall f :: f in fs ==> f.path in disk
  {
    && files.Keys == Ids(fs) + {currID}
    && (forall f :: f in fs ==> files[f.id] == if f.id == currID then Resume(disk[f.path]) else disk[f.path])
    && if forall f :: f in fs ==> f.id < 0 then currID == 0 && files[0] == []
       else exists f :: f in fs && f.id == currID
  }

  /** The ids Open has loaded are at most `maxId`, which is one of them
      unless it is -1. */
  lemma LoadedMax(sorted: seq<DataFile>, disk: map<string, Bytes>, files: Files, kd: Keydir, maxId: int)
    requires Loaded(sorted, disk, |sorted|, files, kd, maxId)
    ensures forall id :: id in files ==> id <= maxId
    ensures maxId != -1 ==> maxId in files
  {
    forall id | id in files
      ensures id <= maxId
    {
      var j :| 0 <= j < |sorted| && sorted[j].id == id;
    }
    if maxId != -1 {
      var j :| 0 <= j < |sorted| && sorted[j].id == maxId;
      assert sorted[j].id in files;
    }
  }

  /** The end of Open: the current file is data-0.db, new and empty, when
      `maxId` is -1, and otherwise file `maxId`, cut back to its last whole
      record. Either way the store is valid and reopens to itself. */
  lemma OpenedState(sorted: seq<DataFile>, disk: map<string, Bytes>, files: Files, kd: Keydir, maxId: int,
                    currID: int, files': Files, off: nat)
    requires Loaded(sorted, disk, |sorted|, files, kd, maxId) && StrictlyAscending(sorted)
    requires currID == if maxId == -1 then 0 else maxId
    requires maxId != -1 ==> maxId in files
    requires files' == if maxId == -1 then files[0 := []] else files[maxId := Resume(files[maxId])]
    requires off == |files'[currID]|
    ensures ValidState(kd, files', currID, off) && DurableState(kd, files', currID)
  {
    LoadedMax(sorted, disk, files, kd, maxId);
    if maxId == -1 {
      ReplayAfterNewFile(files, 0);
      assert Walk([]).stop == CleanEof;
    } else {
      ReplayAfterResume(files, maxId);
    }
    ReplayIndexed(files', files'.Keys);
  }

  /** The end of Open in terms of the listed files. */
  lemma OpenedFiles(fs: seq<DataFile>, disk: map<string, Bytes>, files: Files, maxId: int,
                    currID: int, files': Files)
    requires files.Keys == Ids(fs)
    requires forall f :: f in fs ==> f.path in disk && f.id <= maxId && f.id in files && files[f.id] == disk[f.path]
    requires maxId >= -1 && (maxId == -1 || exists f :: f in fs && f.id == maxId)
    requires currID == if maxId == -1 then 0 else maxId
    requires files' == if maxId == -1 then files[0 := []] else files[maxId := Resume(files[maxId])]
    ensures Reopened(files', currID, fs, disk)
  {
    if maxId != -1 {
      var f :| f in fs && f.id == maxId;
      assert f.id >= 0;
    }
  }

  /** What Open establishes once every file is loaded: no listed file is
      truncated and, when the ids are distinct, the store it returns is
      valid, reopens to itself and holds the listed files. */
  lemma Opened(listing: seq<string>, disk: map<string, Bytes>, sorted: seq<DataFile>,
               files: Files, kd: Keydir, maxId: int, currID: int, files': Files, off: nat)
    requires forall p :: p in listing ==> p in disk
    requires multiset(sorted) == multiset(Listed(listing))
    requires Loaded(sorted, disk, |sorted|, files, kd, maxId)
    requires currID == if maxId == -1 then 0 else maxId
    requires maxId != -1 ==> maxId in files
    requires files' == if maxId == -1 then files[0 := []] else files[maxId := Resume(files[maxId])]
    requires off == |files'[currID]|
    ensures forall p :: p in listing ==> Walk(disk[p]).stop != TruncatedBody
    ensures forall f :: f in Listed(listing) ==> f.path in disk
    ensures StrictlyAscending(sorted) ==>
      ValidState(kd, files', currID, off) && DurableState(kd, files', currID) && Reopened(files', currID, Listed(listing), disk)
  {
    ListedOnDisk(listing, disk);
    ListedClean(listing, disk, sorted);
    LoadedListing(Listed(listing), disk, sorted, files, maxId);
    if StrictlyAscending(sorted) {
      OpenedState(sorted, disk, files, kd, maxId, currID, files', off);
      OpenedFiles(Listed(listing), disk, files, maxId, currID, files');
    }
  }

  /** A single empty data-0.db and no keys: a valid store, holding
      nothing, that reopens to itself. */
  lemma EmptyState()
    ensures ValidState(map[], map[0 := []], 0, 0) && DurableState(map[], map[0 := []], 0)
    ensures Index.Contents(map[], map[0 := []]) == map[]
  {
    ReplayAfterNewFile(map[], 0);
    assert Walk([]).stop == CleanEof;
  }

  /** Putting one more key of the snapshot. */
  lemma RestoreStep(data: map<Key, Bytes>, remaining: set<Key>, k: Key, before: map<Key, Bytes>, after: map<Key, Bytes>)
    requires k in remaining && remaining <= data.Keys
    requires before == data - remaining && after == before[k := data[k]]
    ensures after == data - (remaining - {k})
  {
  }

  /** The file ids are exactly 0 through `top`. */
  ghost predicate IdsUpTo(ids: set<int>, top: int) {
    forall id :: id in ids <==> 0 <= id <= top
  }

  /** A put, which may rotate once, keeps the file ids contiguous from 0. */
  lemma IdsUpToStep(ids: set<int>, top: int, ids': set<int>, top': int)
    requires IdsUpTo(ids, top) && top in ids
    requires (top' == top || top' == top + 1) && ids' == ids + {top'}
    ensures IdsUpTo(ids', top')
  {
  }

  /** A store holding exactly the snapshot has the snapshot's keys, and
      Get finds each of its values. */
  lemma RestoredKeys(kd: Keydir, files: Files, data: map<Key, Bytes>)
    requires Indexed(kd, files) && Index.Contents(kd, files) == data
    ensures kd.Keys == data.Keys
    ensures forall k :: k in data ==> Lookup(kd, files, k) == Ok(data[k])
  {
    forall k | k in data
      ensures Lookup(kd, files, k) == Ok(data[k])
    {
      LookupIndexed(kd, files, k);
    }
  }

  class Bitcask {
    var keydir: Keydir
    var files: Files
    var currID: int
    var currOffset: nat

    ghost predicate Valid()
      reads this
    {
      ValidState(keydir, files, currID, currOffset)
    }

    ghost predicate Durable()
      reads this
    {
      Valid() && DurableState(keydir, files, currID)
    }

    /** The key-value map the store holds. */
    function Contents(): map<Key, Bytes>
      reads this
      requires Valid()
    {
      Index.Contents(keydir, files)
    }

    /** A store with no keys and no files, as Open starts it. */
    constructor Empty()
      ensures keydir == map[] && files == map[] && currID == 0 && currOffset == 0
    {
      keydir := map[];
      files := map[];
      currID := 0;
      currOffset := 0;
    }

    /** Get: the value stored for `key`, or ErrKeyNotFound. */
    function Get(key: Key): (r: Result<Bytes>)
      reads this
      ensures key !in keydir ==> r == Err(KeyNotFound)
      ensures Valid() ==> r == if key in Contents() then Ok(Contents()[key]) else Err(KeyNotFound)
    {
      LookupIndexed(keydir, files, key);
      Lookup(keydir, files, key)
    }

    /** ScanFile: walk the records of file `fid` and apply each to the
        keydir; a key or value cut short by the end of the file is an
        error, a header cut short ends the scan. */
    method ScanFile(fid: int, data: Bytes) returns (r: Outcome)
      modifies this`keydir
      ensures keydir == ScanKeydir(old(keydir), fid, data)
      ensures r.Success? <==> Walk(data).stop != TruncatedBody
      ensures r.Failure? ==> r.error == UnexpectedEof
    {
      ghost var kd0 := keydir;
      var off: nat := 0;
      while true
        invariant Scanning(kd0, fid, data, off, keydir)
        decreases |data| - off
      {
        if |data| - off < HeaderSize {
          // io.EOF or io.ErrUnexpectedEOF from the header read
          ScanStop(kd0, fid, data, off, keydir);
          return Success;
        }
        var hdr := data[off..off + HeaderSize];
        var h := ParseHeader(hdr);
        var flags, keyLen, valLen := h.flags, h.keyLen, h.valLen;
        if |data| - off - HeaderSize < keyLen {
          ScanStop(kd0, fid, data, off, keydir);
          return Failure(UnexpectedEof);
        }
        var key := data[off + HeaderSize..off + HeaderSize + keyLen];
        if valLen > 0 && |data| - off - HeaderSize - keyLen < valLen {
          ScanStop(kd0, fid, data, off, keydir);
          return Failure(UnexpectedEof);
        }
        var size := HeaderSize + keyLen + valLen;
        ghost var kdBefore, offBefore := keydir, off;
        if IsTombstone(flags) {
          keydir := keydir - {key};
        } else {
          keydir := keydir[key := Entry(fid, off, size)];
        }
        off := off + size;
        ScanStep(kd0, fid, data, offBefore, kdBefore, flags, keyLen, valLen, off, keydir);
      }
    }

    /** Open's loop: load and scan each of the sorted files in turn,
        tracking the largest id; the first scan that fails stops it. */
    method LoadAll(sorted: seq<DataFile>, disk: map<string, Bytes>) returns (r: Result<int>)
      requires forall j :: 0 <= j < |sorted| ==> sorted[j].path in disk
      requires keydir == map[] && files == map[]
      modifies this`keydir, this`files
      ensures r.Ok? ==> Loaded(sorted, disk, |sorted|, files, keydir, r.value)
      ensures r.Err? ==> exists j :: 0 <= j < |sorted| && Walk(disk[sorted[j].path]).stop == TruncatedBody
                                     && r.error == ScanFailed(sorted[j].path, UnexpectedEof)
                                     && forall i :: 0 <= i < j ==> Walk(disk[sorted[i].path]).stop != TruncatedBody
    {
      var maxId := -1;
      for i := 0 to |sorted|
        invariant Loaded(sorted, disk, i, files, keydir, maxId)
      {
        var f := sorted[i];
        ghost var files0, kd0, max0 := files, keydir, maxId;
        if f.id > maxId {
          maxId := f.id;
        }
        var data := disk[f.path];
        files := files[f.id := data];
        var scanned := ScanFile(f.id, data);
        if scanned.Failure? {
          return Err(ScanFailed(f.path, scanned.error));
        }
        LoadStep(sorted, disk, i, files0, kd0, max0, files, keydir, maxId);
      }
      return Ok(maxId);
    }

    /** RotateFile: once the current file has reached MaxFileSize, writes
        go to a new, empty file with the next id. The files before it stay
        readable. */
    method RotateFile()
      requires Valid()
      modifies this
      ensures Valid() && Contents() == old(Contents())
      ensures old(Durable()) ==> Durable()
      ensures currOffset < MaxFileSize && keydir == old(keydir)
      ensures old(currOffset) < MaxFileSize ==> files == old(files) && currID == old(currID)
      ensures old(currOffset) >= MaxFileSize ==> currID == old(currID) + 1 && files == old(files)[currID := []]
    {
      if currOffset < MaxFileSize {
        return;
      }
      currID := currID + 1;
      files := files[currID := []];
      currOffset := 0;
      RotateState(keydir, old(files), old(currID), old(currOffset), files, currID);
    }

    /** Put: rotate if the current file is full, append a put record to the
        current file and point the key at it. */
    method Put(key: Key, value: Bytes)
      requires Valid()
      requires |key| <= MaxInt64 && |value| <= MaxInt64
      modifies this
      ensures Valid()
      ensures Contents() == old(Contents())[key := value]
      ensures old(Durable()) ==> Durable()
      ensures Get(key) == Ok(value)
      ensures key in keydir && keydir[key].fileId == currID && keydir[key].offset < MaxFileSize
      ensures keydir == old(keydir)[key := Entry(currID, keydir[key].offset, HeaderSize + |key| + |value|)]
      ensures currOffset == keydir[key].offset + HeaderSize + |key| + |value|
      ensures currID == old(currID) || currID == old(currID) + 1
      ensures files.Keys == old(files).Keys + {currID}
      ensures old(currOffset) < MaxFileSize ==> currID == old(currID) && keydir[key].offset == old(currOffset)
      ensures old(currOffset) >= MaxFileSize ==> currID == old(currID) + 1 && keydir[key].offset == 0
      ensures files[currID] == (if old(currOffset) < MaxFileSize then old(files)[currID] else []) + PutRecord(key, value)
      ensures forall id :: id in old(files) && id != currID ==> files[id] == old(files)[id]
    {
      RotateFile();
      ghost var kd, fs, off := keydir, files, currOffset;
      var rec := PutRecord(key, value);
      var e := Entry(currID, currOffset, |rec|);
      files := files[currID := files[currID] + rec];
      keydir := keydir[key := e];
      currOffset := currOffset + |rec|;
      PutState(kd, fs, currID, off, key, value, keydir, files, currOffset);
      AppendState(kd, fs, currID, FlagPut, key, value, keydir, files);
    }

    /** Delete: append a tombstone to the current file (without rotating)
        and drop the key. */
    method Delete(key: Key)
      requires Valid()
      requires |key| <= MaxInt64
      modifies this
      ensures Valid()
      ensures Contents() == old(Contents()) - {key}
      ensures old(Durable()) ==> Durable()
      ensures Get(key) == Err(KeyNotFound)
      ensures keydir == old(keydir) - {key}
      ensures currOffset == old(currOffset) + HeaderSize + |key|
      ensures currID == old(currID) && files == old(files)[currID := old(files)[currID] + TombstoneRecord(key)]
    {
      var rec := TombstoneRecord(key);
      files := files[currID := files[currID] + rec];
      keydir := keydir - {key};
      currOffset := currOffset + |rec|;
      DeleteState(old(keydir), old(files), currID, old(currOffset), key, keydir, files, currOffset);
      AppendState(old(keydir), old(files), currID, FlagTombstone, key, [], keydir, files);
    }

    /** ApplyCommand: "PUT" puts, "DEL" deletes, anything else is an
        unknown operation and changes nothing. */
    method ApplyCommand(op: string, key: Key, value: Bytes) returns (r: Outcome)
      requires Valid()
      requires |key| <= MaxInt64 && |value| <= MaxInt64
      modifies this
      ensures Valid()
      ensures r == if op == "PUT" || op == "DEL" then Success else Failure(UnknownOperation(op))
      ensures op == "PUT" ==> Contents() == old(Contents())[key := value]
      ensures op == "DEL" ==> Contents() == old(Contents()) - {key}
      ensures r.Failure? ==> keydir == old(keydir) && files == old(files)
      ensures r.Failure? ==> currID == old(currID) && currOffset == old(currOffset)
      ensures old(Durable()) ==> Durable()
    {
      if op == "PUT" {
        Put(key, value);
        r := Success;
      } else if op == "DEL" {
        Delete(key);
        r := Success;
      } else {
        r := Failure(UnknownOperation(op));
      }
    }

    /** RestoreFromSnapshot: drop every file and key, start again from an
        empty data-0.db, and put each key of the snapshot. */
    method RestoreFromSnapshot(data: map<Key, Bytes>)
      requires forall k :: k in data ==> |k| <= MaxInt64 && |data[k]| <= MaxInt64
      modifies this
      ensures Durable()
      ensures Contents() == data
      ensures keydir.Keys == data.Keys && forall k :: k in data ==> Lookup(keydir, files, k) == Ok(data[k])
      ensures IdsUpTo(files.Keys, currID)
    {
      files := map[0 := []];
      keydir := map[];
      currID := 0;
      currOffset := 0;
      EmptyState();
      var remaining := data.Keys;
      while remaining != {}
        invariant remaining <= data.Keys
        invariant Durable()
        invariant Contents() == data - remaining
        invariant IdsUpTo(files.Keys, currID)
        decreases remaining
      {
        var k :| k in remaining;
        ghost var before, ids, top := Contents(), files.Keys, currID;
        Put(k, data[k]);
        RestoreStep(data, remaining, k, before, Contents());
        IdsUpToStep(ids, top, files.Keys, currID);
        remaining := remaining - {k};
      }
      RestoredKeys(keydir, files, data);
    }

    /** Keys: every key of the keydir, in sort.Strings order. */
    method Keys() returns (ks: seq<Key>)
      ensures StrictlySorted(ks)
      ensures forall k :: k in ks <==> k in keydir
    {
      var collected: seq<Key> := [];
      var remaining := keydir.Keys;
      while remaining != {}
        invariant remaining <= keydir.Keys
        invariant forall k :: k in collected <==> k in keydir && k !in remaining
        invariant Distinct(collected)
        decreases remaining
      {
        var k :| k in remaining;
        collected := collected + [k];
        remaining := remaining - {k};
      }
      ks := SortKeys(collected);
      assert forall k :: k in ks <==> k in multiset(collected);
    }

    /** Entries: every key with its value, read through Get; the first
        failing Get fails the whole call. */
    method Entries() returns (r: Result<map<Key, Bytes>>)
      ensures r.Ok? <==> forall k :: k in keydir ==> Get(k).Ok?
      ensures r.Ok? ==> r.value.Keys == keydir.Keys && forall k :: k in r.value ==> Get(k) == Ok(r.value[k])
      ensures r.Err? ==> exists k :: k in keydir && Get(k) == Err(r.error)
      ensures Valid() ==> r == Ok(Contents())
    {
      var result: map<Key, Bytes> := map[];
      var remaining := keydir.Keys;
      while remaining != {}
        invariant remaining <= keydir.Keys
        invariant result.Keys == keydir.Keys - remaining
        invariant forall k :: k in result ==> Get(k) == Ok(result[k])
        decreases remaining
      {
        var k :| k in remaining;
        var v := Get(k);
        if v.Err? {
          return Err(v.error);
        }
        result := result[k := v.value];
        remaining := remaining - {k};
      }
      if Valid() {
        LookupsAreContents(keydir, files, result);
      }
      return Ok(result);
    }
  }

  /** A store is durable when the values of its fields are. */
  lemma DurableFields(bc: Bitcask)
    requires ValidState(bc.keydir, bc.files, bc.currID, bc.currOffset)
    requires DurableState(bc.keydir, bc.files, bc.currID)
    ensures bc.Durable()
  {
  }

  /** Open: sort the data files found in the directory by id, load and
      scan each in turn into the keydir, and make the newest one the
      current file (creating data-0.db when no file has an id above -1).
      A file whose scan fails fails the whole open. The directory is
      `listing` (the paths the glob finds) and `disk` (their contents). */
  method Open(listing: seq<string>, disk: map<string, Bytes>) returns (r: Result<Bitcask>)
    requires forall p :: p in listing ==> p in disk
    ensures r.Err? <==> exists p :: p in listing && Walk(disk[p]).stop == TruncatedBody
    ensures r.Err? ==> exists p :: (p in listing && Walk(disk[p]).stop == TruncatedBody && r.error == ScanFailed(p, UnexpectedEof)
      && forall q :: q in listing && ExtractFileId(q) < ExtractFileId(p) ==> Walk(disk[q]).stop != TruncatedBody)
    ensures r.Ok? ==> fresh(r.value)
    ensures r.Ok? && DistinctIds(Listed(listing)) ==>
      r.value.Durable() && Reopened(r.value.files, r.value.currID, Listed(listing), disk)
  {
    var sorted := SortById(Listed(listing));
    SortedListed(listing, disk, sorted);
    var bc := new Bitcask.Empty();
    var loaded := bc.LoadAll(sorted, disk);
    if loaded.Err? {
      OpenFailed(listing, disk, sorted, loaded.error);
      return Err(loaded.error);
    }
    var maxId := loaded.value;
    LoadedMax(sorted, disk, bc.files, bc.keydir, maxId);
    var currID, files;
    if maxId == -1 {
      // no data file: create data-0.db
      currID, files := 0, bc.files[0 := []];
    } else {
      currID, files := maxId, bc.files[maxId := Resume(bc.files[maxId])];
    }
    Opened(listing, disk, sorted, bc.files, bc.keydir, maxId, currID, files, |files[currID]|);
    bc.currID, bc.files, bc.currOffset := currID, files, |files[currID]|;
    if DistinctIds(Listed(listing)) {
      DurableFields(bc);
    }
    return Ok(bc);
  }
}
