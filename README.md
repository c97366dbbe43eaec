# Hyphora's Bitcask store and record inspector, in Dafny

This project models two parts of Hyphora:

- `internal/bitcask/bitcask.go`: a Bitcask-style log-structured key-value store. Each data file `data-<id>.db` is an append-only log of records. A record is a flags byte (`0x0` put, `0x1` tombstone), then the key length and the value length as 8-byte big-endian integers, then the key, then the value. An in-memory keydir maps each key to the file id, offset and size of its latest record. Writes append to the current file, and a new file is started once the current one reaches 128 MiB. Open rebuilds the keydir by scanning every file in id order.
- The record loop of `cmd/hyphora-inspect/main.go`: it walks one data file and prints each record with its offset.

Modules:

- `Common`: bytes, keys and the errors the store reports.
- `BigEndian`: `binary.BigEndian.PutUint64` and `Uint64`.
- `Record`: the record layout, the tombstone flag, and the decoding half of `Get`.
- `Log`: the walk over a file's records. It is one function of the file's bytes, and both `ScanFile` and the inspector are proved against it.
- `Index`: what `ScanFile` does to the keydir, what replaying a set of files yields, and what `Get` reads through an entry.
- `FileIds`: data file names, `extractFileId` (`filepath.Base`, `strings.TrimPrefix`/`TrimSuffix`, `strconv.ParseInt`), and the ordering of files by id.
- `KeyOrder`: the byte order of `sort.Strings`.
- `Engine`: the `Bitcask` class. Its fields are `keydir`, `files` (the contents of the open data files, by id), `currID` and `currOffset`. Its methods change them as the Go methods do, with three exceptions that carry the corrections listed under "## Findings". `RotateFile` keeps the rotated file readable where Go closes it. `Open` resumes writing after the last whole record of the newest file where Go seeks to its end. `RestoreFromSnapshot` leaves only the files it wrote where Go leaves higher-numbered data files in the directory. `Open` builds a store from a directory listing.
- `Inspect`: the inspector's loop.
- `Findings`: three places where the code as written breaks the store's promises (see below).

The store keeps two invariants:

- `Valid()`: the current file is open, no file is newer, `currOffset` is its length, and every keydir entry points at a put record for its key.
- `Durable()`: reopening the files would rebuild exactly this keydir.

`Contents()` is the key-value map the store stands for. `Put`, `Delete`, `ApplyCommand`, `RotateFile` and `RestoreFromSnapshot` state their effect on `Contents()` and keep both invariants. `ScanFile` and `LoadAll` run only while `Open` builds the store, before the invariants hold. They are stated against the walk of each file (`ScanKeydir`) and the loading state (`Loaded`) instead.

## Model

| member | source | states |
|---|---|---|
| BigEndian.Uint64RoundTrip | internal/bitcask/bitcask.go:193-194 | a length written with PutUint64 is read back by Uint64 |
| BigEndian.PutUint64RoundTrip | internal/bitcask/bitcask.go:97-98 | any 8 header bytes are the PutUint64 encoding of the number Uint64 reads from them |
| BigEndian.DecodeEncodeBE | internal/bitcask/bitcask.go:193-194 | decoding an n-byte big-endian encoding gives back the number |
| BigEndian.EncodeDecodeBE | internal/bitcask/bitcask.go:97-98 | encoding a decoded byte string gives back the bytes |
| Record.EncodeRecord | internal/bitcask/bitcask.go:191-196 | a record is 17 + len(key) + len(value) bytes |
| Record.TombstoneRecord | internal/bitcask/bitcask.go:131-135 | a tombstone is 17 + len(key) bytes |
| Record.ParseHeader | internal/bitcask/bitcask.go:96-98 | both lengths read from a header are below 2^64 |
| Record.DecodeValue | internal/bitcask/bitcask.go:165-180 | fewer than 17 bytes is "corrupt record"; bit 0 of the flags set is ErrKeyNotFound; a value running past the bytes read is "corrupt value length", and only then; a value returned has the header's value length |
| Record.ParseEncodedRecord | internal/bitcask/bitcask.go:191-196 | an encoded record's header reads back its flags and both lengths, and the key and value follow it in order |
| Record.EncodeParsedRecord | internal/bitcask/bitcask.go:168-179 | bytes exactly as long as their header says are the encoding of their own flags, key and value |
| Record.DecodeEncodedRecord | internal/bitcask/bitcask.go:168-180 | decoding a record gives its value for a put and ErrKeyNotFound for a tombstone |
| Record.DecodePutRecord | internal/bitcask/bitcask.go:183-207 | Get's decoding of the record Put writes returns the value put |
| Record.DecodeTombstoneRecord | internal/bitcask/bitcask.go:128-146 | Get's decoding of the record Delete writes is ErrKeyNotFound |
| Record.PutRecordLayout | internal/bitcask/bitcask.go:191-196 | byte 0 of a put record is 0x0, bytes 1-8 and 9-16 hold len(key) and len(value) big-endian, then come the key and the value |
| Record.TombstoneLayout | internal/bitcask/bitcask.go:131-135 | byte 0 of a tombstone is 0x1, bytes 1-8 hold len(key), bytes 9-16 hold 0, then comes the key |
| Log.WalkBy | internal/bitcask/bitcask.go:85-124 | the walk stops between where it started and the end of the file, and it stops cleanly exactly at the end of the file |
| Log.WalkFromStep | internal/bitcask/bitcask.go:86-123 | one step: at the end of the file the walk stops cleanly; with fewer than 17 bytes left it stops on a partial header; a key or value running past the end stops it as truncated; otherwise the record is next and the walk goes on 17 + keyLen + valLen further |
| Log.WalkOffsets | internal/bitcask/bitcask.go:123 | each record starts at the sum of the sizes of the records before it, and the walk stops after the last one |
| Log.WalkBounds | internal/bitcask/bitcask.go:82-126 | every record found lies between the start of the walk and where it stopped |
| Log.WalkHeaders | internal/bitcask/bitcask.go:96-98 | every record found has the header read at its offset |
| Log.WalkRecordsEncoded | internal/bitcask/bitcask.go:82-126 | every record a walk finds is the encoding of its own flags, key and value, stored at its offset |
| Log.WalkPrefix | internal/bitcask/bitcask.go:197-205 | bytes appended after a file that walks cleanly are walked after its records, which are unchanged |
| Log.WalkTruncated | internal/bitcask/bitcask.go:88-90 | the file cut off where its walk stopped walks cleanly to the same records |
| Log.WalkAppendRecord | internal/bitcask/bitcask.go:191-205 | appending one record to a file that walks cleanly adds exactly that record at the old end, and it holds the flags, key and value written |
| Log.WalkSerialized | internal/bitcask/bitcask.go:191-205 | walking the bytes of records written one after another gives back exactly those records, and the walk ends cleanly |
| Index.ApplyRecord | internal/bitcask/bitcask.go:111-121 | a tombstone removes its key; any other record points its key at itself with offset and size 17 + keyLen + valLen; no other key changes |
| Index.LastFor | internal/bitcask/bitcask.go:117-121 | finds the last record for a key: it names the key and no later record does |
| Index.ScanStep | internal/bitcask/bitcask.go:95-123 | one whole record applied keeps the scan on course to the keydir of the whole file |
| Index.ScanStop | internal/bitcask/bitcask.go:88-108 | a header cut short ends the scan with every record applied and no error; a key or value cut short means the file's walk is truncated |
| Index.ApplyRecordsLastWins | internal/bitcask/bitcask.go:117-121 | after a scan, a key is where its last record is if that is a put, is absent if that is a tombstone, and is as before if no record names it |
| Index.ScanEntries | internal/bitcask/bitcask.go:112-116 | for every key the file names, whether or not the keydir already held it, the entry ScanFile leaves has as offset the sum of the sizes of the records before it, and as size 17 + keyLen + valLen of a put record for that key |
| Index.ReplayIdsFrame | internal/bitcask/bitcask.go:231-247 | replaying files reads only those files |
| Index.ReplayIdsTop | internal/bitcask/bitcask.go:224-247 | the file with the largest id is scanned last, so its records win |
| Index.ScanKeydirAppend | internal/bitcask/bitcask.go:82-126 | scanning a file with one more record at its end applies that record last |
| Index.ReplayAfterAppend | internal/bitcask/bitcask.go:197-205 | a record appended to the newest file changes the replayed keydir exactly as Put or Delete changes the keydir in memory |
| Index.ReplayAfterNewTop | internal/bitcask/bitcask.go:288-294 | a file with a new, largest id is replayed last |
| Index.ReplayAfterNewFile | internal/bitcask/bitcask.go:288-296 | a new empty file does not change what replay yields |
| Index.Resume | internal/bitcask/bitcask.go:260-268 | the file cut back to where its walk stopped is a prefix of it |
| Index.ReplayAfterResume | internal/bitcask/bitcask.go:260-268 | cutting the newest file back to its last whole record changes nothing replay yields, and leaves a file that walks cleanly |
| Index.ReadAt | internal/bitcask/bitcask.go:161-164 | the read fails exactly when the file is too short to fill the buffer, and otherwise returns the `size` bytes at `offset` |
| Index.Lookup | internal/bitcask/bitcask.go:148-181 | a key not in the keydir is ErrKeyNotFound; an entry whose file is not open is "data file %d not found" |
| Index.LookupIndexed | internal/bitcask/bitcask.go:148-181 | on a keydir whose entries point at put records, Get returns the stored value of every key in it and ErrKeyNotFound for every other key |
| Index.LookupsAreContents | internal/bitcask/bitcask.go:301-313 | a map with the keydir's keys that holds what Get returns for each is the store's contents |
| Index.PutRecordIsPutFor | internal/bitcask/bitcask.go:191-196 | the record Put writes is a put record for its key |
| Index.IndexedFrame | internal/bitcask/bitcask.go:148-181 | entries whose bytes are unchanged still point at the same put records and values |
| Index.IndexedInsert | internal/bitcask/bitcask.go:203-204 | pointing a key at a put record for it sets its value and changes no other |
| Index.IndexedRemove | internal/bitcask/bitcask.go:143 | dropping a key removes it from the contents and changes no other |
| Index.IndexedAfterAppend | internal/bitcask/bitcask.go:197-202 | appending to a file keeps every entry pointing at the same value |
| Index.IndexedAfterNewFile | internal/bitcask/bitcask.go:288-294 | opening a new file keeps every entry pointing at the same value |
| Index.IndexedPut | internal/bitcask/bitcask.go:191-205 | after Put's append and keydir update, the contents are the old ones with the key set to the value |
| Index.IndexedDelete | internal/bitcask/bitcask.go:131-143 | after Delete's append and keydir update, the contents are the old ones without the key |
| Index.ApplyRecordsIndexed | internal/bitcask/bitcask.go:111-121 | every entry a scan creates points at a put record for its key |
| Index.ReplayIndexed | internal/bitcask/bitcask.go:230-247 | every entry that replaying files creates points at a put record for its key |
| FileIds.TrimTrailingSlashes | internal/bitcask/bitcask.go:47 | a prefix of the path that does not end in a slash |
| FileIds.LastElement | internal/bitcask/bitcask.go:47 | a suffix of the path holding no slash, and preceded by a slash when it is not the whole path: the part after the last slash |
| FileIds.Base | internal/bitcask/bitcask.go:47 | filepath.Base is never empty, and holds no slash unless it is "/" |
| FileIds.TrimPrefix | internal/bitcask/bitcask.go:48 | the string without the prefix when it starts with it, and unchanged otherwise |
| FileIds.TrimSuffix | internal/bitcask/bitcask.go:49 | the string without the suffix when it ends with it, and unchanged otherwise |
| FileIds.ParseUintFrom | internal/bitcask/bitcask.go:50 | a value parsed fits in 64 bits; a string of non-digits is a syntax error |
| FileIds.ParseInt | internal/bitcask/bitcask.go:50 | the id is always an int64 |
| FileIds.ExtractFileId | internal/bitcask/bitcask.go:46-52 | the id is always an int64 |
| FileIds.FormatNat | internal/bitcask/bitcask.go:289 | a non-empty string of decimal digits |
| FileIds.FormatInt | internal/bitcask/bitcask.go:289 | a non-empty string holding no slash |
| FileIds.FileName | internal/bitcask/bitcask.go:289 | a file name holding no slash |
| FileIds.ParseFormatNat | internal/bitcask/bitcask.go:50 | reading the digits of n after an accumulated prefix shifts the prefix and adds n |
| FileIds.ParseFormatInt | internal/bitcask/bitcask.go:50 | ParseInt reads back what FormatInt writes, for every int64 |
| FileIds.LastElementOfJoin | internal/bitcask/bitcask.go:47 | the last element of dir/name is name |
| FileIds.LastElementOfName | internal/bitcask/bitcask.go:47 | a name without slashes is its own last element |
| FileIds.BaseOfJoin | internal/bitcask/bitcask.go:47 | the base of a file joined onto a directory is the file name |
| FileIds.ExtractFileIdOfFileName | internal/bitcask/bitcask.go:46-52 | extractFileId of dir/data-<n>.db is n, for every int64 n |
| FileIds.ExtractFileIdNoDigits | internal/bitcask/bitcask.go:46-52 | a name with no digit between "data-" and ".db" maps to 0 |
| FileIds.ParseUintFromSyntax | internal/bitcask/bitcask.go:50 | strconv's digit loop over at most 19 characters, not all digits, ends in a syntax error before any range error |
| FileIds.ExtractFileIdSyntax | internal/bitcask/bitcask.go:46-52 | a name whose part between "data-" and ".db", after an optional sign, is at most 19 characters and holds a non-digit (data-1a.db, data-2.old.db) maps to 0 |
| FileIds.Ids | internal/bitcask/bitcask.go:232 | holds the id of every listed file |
| FileIds.InsertById | internal/bitcask/bitcask.go:224-228 | one more file, placed first or after the first file |
| FileIds.InsertByIdSorted | internal/bitcask/bitcask.go:224-228 | insertion into files ascending by id keeps them ascending and adds exactly the file inserted |
| FileIds.InsertByIdStrict | internal/bitcask/bitcask.go:224-228 | inserting a file with a new id keeps ids strictly ascending |
| FileIds.StrictlyAscendingLast | internal/bitcask/bitcask.go:224-228 | in strictly ascending files every id is below the last |
| FileIds.AscendingBelow | internal/bitcask/bitcask.go:224-228 | in ascending files no id is above a later one |
| FileIds.StrictlyAscendingBelow | internal/bitcask/bitcask.go:224-228 | in strictly ascending files every id is below every later one |
| FileIds.SortByIdStep | internal/bitcask/bitcask.go:224-228 | one insertion step keeps distinct ids strictly ascending |
| FileIds.SortById | internal/bitcask/bitcask.go:224-228 | the files sorted are a permutation of those listed, ascending by id, and strictly ascending when the ids are distinct |
| KeyOrder.BelowIrreflexive | internal/bitcask/bitcask.go:61 | no key is below itself |
| KeyOrder.BelowTransitive | internal/bitcask/bitcask.go:61 | the byte order is transitive |
| KeyOrder.BelowTotal | internal/bitcask/bitcask.go:61 | two keys differ exactly when one is below the other, and never both ways |
| KeyOrder.InsertKey | internal/bitcask/bitcask.go:61 | one more key, placed first or after the first key |
| KeyOrder.InsertKeySorted | internal/bitcask/bitcask.go:61 | inserting a new key into strictly sorted keys keeps them strictly sorted and adds exactly that key |
| KeyOrder.StrictlySortedPairs | internal/bitcask/bitcask.go:61 | in strictly sorted keys every key is below every later key |
| KeyOrder.StrictlySortedUnique | internal/bitcask/bitcask.go:54-63 | two strictly sorted lists with the same keys are equal, so Keys' result is determined by the keydir |
| KeyOrder.InsertKeyMultiset | internal/bitcask/bitcask.go:61 | insertion adds exactly the key inserted |
| KeyOrder.InsertKeyKeepsSorted | internal/bitcask/bitcask.go:61 | inserting any key keeps sorted keys sorted |
| KeyOrder.StrictlySortedIsSorted | internal/bitcask/bitcask.go:61 | strictly sorted keys are sorted |
| KeyOrder.SortKeysStep | internal/bitcask/bitcask.go:61 | one insertion step keeps distinct keys strictly sorted |
| KeyOrder.SortKeys | internal/bitcask/bitcask.go:61 | sort.Strings: a permutation of its input, sorted in byte order, and strictly sorted when the keys are distinct |
| Engine.RotateState | internal/bitcask/bitcask.go:288-296 | a new empty file with the next id keeps the store valid, its contents unchanged and its replay in agreement |
| Engine.PutState | internal/bitcask/bitcask.go:191-205 | Put's append and keydir update keep the store valid and set the key to the value |
| Engine.DeleteState | internal/bitcask/bitcask.go:131-144 | Delete's append and keydir update keep the store valid and remove the key |
| Engine.AppendState | internal/bitcask/bitcask.go:197-205 | appending a record and applying it to the keydir keeps the keydir equal to what reopening the files rebuilds |
| Engine.AppendReplay | internal/bitcask/bitcask.go:197-205 | when the keydir is the replay of the files and the current file walks cleanly, appending a record and applying it to the keydir gives the replay of the new files, and the current file still walks cleanly |
| Engine.SortedListed | internal/bitcask/bitcask.go:224-236 | every sorted file is a listed path whose contents exist, and its id is extractFileId of its path |
| Engine.OpenFailed | internal/bitcask/bitcask.go:237-243 | when Open's loop fails on the first truncated file in sorted order, its error names a truncated listed file, and no listed file of lower id is truncated |
| Engine.FirstTruncated | internal/bitcask/bitcask.go:230-243 | when the files before position j of the sorted listing scan cleanly, so does every listed file whose id is below the j-th file's id |
| Engine.ListedOnDisk | internal/bitcask/bitcask.go:219-236 | every listed file can be opened |
| Engine.LoadIds | internal/bitcask/bitcask.go:240 | loading one more file adds its id |
| Engine.LoadMax | internal/bitcask/bitcask.go:230-235 | maxId stays the largest id seen, or -1 |
| Engine.LoadContents | internal/bitcask/bitcask.go:240 | with distinct ids, each loaded id holds its file's bytes |
| Engine.LoadStep | internal/bitcask/bitcask.go:231-247 | loading and scanning one more file keeps the loop invariant |
| Engine.LoadedListing | internal/bitcask/bitcask.go:230-247 | after the loop every listed id is loaded with maxId its maximum |
| Engine.ListedClean | internal/bitcask/bitcask.go:241-244 | when every scan succeeded, no listed file holds a truncated record |
| Engine.LoadedMax | internal/bitcask/bitcask.go:230-235 | every loaded id is at most maxId, and maxId is one of them unless it is -1 |
| Engine.OpenedState | internal/bitcask/bitcask.go:248-270 | the current file is a new data-0.db when maxId is -1 and file maxId otherwise; the store is valid and reopens to itself |
| Engine.OpenedFiles | internal/bitcask/bitcask.go:248-270 | the open files are the listed ones plus the current one, and the current file is the newest listed file or data-0.db |
| Engine.Opened | internal/bitcask/bitcask.go:209-273 | once every file is loaded, no listed file is truncated and, when ids are distinct, the store is valid, reopens to itself and holds the listed files |
| Engine.EmptyState | internal/bitcask/bitcask.go:323-334 | one empty data-0.db and no keys is a valid store that holds nothing and reopens to itself |
| Engine.RestoreStep | internal/bitcask/bitcask.go:337-341 | putting one more snapshot key keeps the contents equal to the snapshot restricted to the keys put |
| Engine.IdsUpToStep | internal/bitcask/bitcask.go:337-341 | a put, which rotates at most once, keeps the file ids exactly 0 through currID |
| Engine.RestoredKeys | internal/bitcask/bitcask.go:337-342 | a store holding exactly the snapshot has the snapshot's keys, and Get finds each value |
| Engine.Bitcask.Empty | internal/bitcask/bitcask.go:213-217 | the store Open starts from: no keys and no files |
| Engine.Bitcask.Get | internal/bitcask/bitcask.go:148-181 | a key not in the keydir is ErrKeyNotFound; in a valid store Get returns the key's value from Contents() and ErrKeyNotFound for any key not in it |
| Engine.Bitcask.ScanFile | internal/bitcask/bitcask.go:82-126 | the keydir after the scan is the walk's records applied in file order; the scan fails, with an unexpected EOF, exactly when a key or value is truncated |
| Engine.Bitcask.LoadAll | internal/bitcask/bitcask.go:230-247 | loads and scans every sorted file and returns the largest id, or fails with "scan file %s" naming the first truncated file in sorted order, all files before it scanning cleanly |
| Engine.Bitcask.RotateFile | internal/bitcask/bitcask.go:275-299 | the corrected rotation (Findings row 1): unlike Go, the rotated file is not closed; nothing changes below 128 MiB; at or above it currID is incremented and a new empty file opened under it; contents unchanged, old files still readable, and the store still reopens to itself |
| Engine.Bitcask.Put | internal/bitcask/bitcask.go:183-207 | contents gain key to value and Get(key) returns the value; below 128 MiB the current file is kept and the entry's offset is the old currOffset, at or above it currID is incremented and the offset is 0; the entry is (currID, that offset, 17 + len(key) + len(value)) and no other entry changes; the current file becomes its old bytes (or empty after a rotation) followed by the put record, every other file is unchanged, and currOffset is the end of that record; the store stays valid and still reopens to itself |
| Engine.Bitcask.Delete | internal/bitcask/bitcask.go:128-146 | contents lose the key and Get(key) is ErrKeyNotFound, whether or not the key existed; the tombstone record for the key is appended to the current file and no other file changes; currOffset advances by 17 + len(key); the file is not rotated; the store still reopens to itself |
| Engine.Bitcask.ApplyCommand | internal/bitcask/bitcask.go:345-354 | "PUT" puts, "DEL" deletes, and any other op is "unknown operation" and leaves every field unchanged |
| Engine.Bitcask.RestoreFromSnapshot | internal/bitcask/bitcask.go:316-343 | the corrected restore (Findings row 3): unlike Go, which leaves higher-numbered data files in the directory, the store holds only the files the restore wrote; afterwards the contents are exactly the snapshot, the keydir has the snapshot's keys, Get returns each snapshot value, the file ids are 0 through currID, and the store reopens to itself over those files |
| Engine.Bitcask.Keys | internal/bitcask/bitcask.go:54-63 | exactly the keydir's keys, strictly sorted, so without duplicates |
| Engine.Bitcask.Entries | internal/bitcask/bitcask.go:301-314 | succeeds exactly when Get succeeds for every key; the map then holds every key with what Get returns, which in a valid store is Contents(); a failure is some key's Get error |
| Engine.Open | internal/bitcask/bitcask.go:209-273 | the corrected open (Findings row 2): unlike Go, which seeks to the end of the newest file, writing resumes after its last whole record; fails, with "scan file %s: unexpected EOF", exactly when a listed file holds a truncated record, naming one with no truncated file of lower id; with distinct ids the store is valid and reopens to itself, every listed file is open, and the current file is the newest (or a new data-0.db when no id is above -1) |
| Inspect.EndingOf | cmd/hyphora-inspect/main.go:33-55 | a clean end of the walk is io.EOF, a partial header is "error at offset" at the offset where the walk stopped, and a truncated record is a panic |
| Inspect.InspectStep | cmd/hyphora-inspect/main.go:42-61 | printing one whole record and advancing the offset by 17 + keyLen + valLen keeps the loop on course to the report of the whole file |
| Inspect.InspectStop | cmd/hyphora-inspect/main.go:33-55 | where the loop stops, every line has been printed and the walk stops for the matching reason |
| Inspect.Inspect | cmd/hyphora-inspect/main.go:29-62 | prints exactly one line per record of the walk, in order, with its offset, flags, key and value; it ends at EOF exactly when the file ends on a record boundary, reports a header error at the offset where a partial header starts, and panics exactly when ScanFile would fail |
| Inspect.SumSizesLines | cmd/hyphora-inspect/main.go:61 | the printed lines' sizes add up to the records' sizes |
| Inspect.SumSizesSnoc | cmd/hyphora-inspect/main.go:61 | the sizes of records add up one at a time |
| Inspect.ReportOffsets | cmd/hyphora-inspect/main.go:58-61 | each printed offset is the sum of 17 + keyLen + valLen over all earlier lines |
| Inspect.ReportEnd | cmd/hyphora-inspect/main.go:33-40 | a file that ends at EOF is as long as all its lines together; a header error is reported where the lines end, with 1 to 16 bytes left |
| Inspect.WalkNext | cmd/hyphora-inspect/main.go:42-61 | a whole record at the offset is the next record of the walk, and the walk goes on 17 + keyLen + valLen further |
| Inspect.WalkEndsAtStop | cmd/hyphora-inspect/main.go:33-40 | a walk that stops on a partial header stops with 1 to 16 bytes left |
| Inspect.WalkStopsAt | cmd/hyphora-inspect/main.go:33-40 | a walk stops on a partial header only where no header can be read |
| Inspect.ReportSerialized | cmd/hyphora-inspect/main.go:29-62 | inspecting records written one after another prints exactly those records, in order, and ends at EOF |
| Inspect.ReportAgreesWithScan | cmd/hyphora-inspect/main.go:42-61 | the inspector and ScanFile agree: a key is in the scanned keydir exactly when the last printed line for it is a put, and its entry has that line's offset and size |
| Inspect.LastLineIsLastFor | cmd/hyphora-inspect/main.go:58-59 | the last put line for a key is the key's last record |
| Inspect.LastForIsLastLine | cmd/hyphora-inspect/main.go:58-59 | a key's last record, if a put, is its last put line |
| Findings.GetAsWritten | internal/bitcask/bitcask.go:155-164 | Get on a file RotateFile has closed fails when there is something to read; otherwise it is Get |
| Findings.RotatedKeyUnreadable | internal/bitcask/bitcask.go:285-294 | a key stored in the current file is readable before rotation; after RotateFile as written Get fails with a closed file; with the file kept open Get still returns the value |
| Findings.TornHeader | internal/bitcask/bitcask.go:88-90 | a 16-byte tail, one byte short of a header |
| Findings.AppendAfterTornHeader | internal/bitcask/bitcask.go:259-268 | a file ending in a torn header opens; a put appended after the torn bytes makes the file truncated, so the next Open fails; appended after cutting back, it walks cleanly |
| Findings.DecodeZeros | internal/bitcask/bitcask.go:97-98 | zero bytes decode to zero |
| Findings.RestoreLeavesStaleFile | internal/bitcask/bitcask.go:326-341 | with data-1.db left on disk, replaying the directory after a restore of the empty snapshot returns the stale v1; replaying only the empty data-0.db the restore wrote gives ErrKeyNotFound |
| Findings.ReplayOneRecord | internal/bitcask/bitcask.go:231-247 | a new, newest file with one put record points its key at offset 0 of that file |

## Left out

- The disk is not modelled as such. A directory is given to `Engine.Open` as `listing` (what `filepath.Glob` returns) and `disk` (each path's bytes). An open data file is its contents in `files`. `os.MkdirAll`, `Glob` errors, `Seek`, `Sync`, `Close`, `bufio` buffering and the debug `fmt.Println` in `Open` are left out.
- I/O failures are left out: every write, flush, open and seek succeeds. `Put`, `Delete` and `RotateFile` cannot fail in the model, and `Open` fails only on a scan error.
- Locking (`sync.RWMutex`) is left out, and the model is sequential. Two cases are not modelled. `RestoreFromSnapshot` holds the write lock while calling `Put`, which takes it again, so a non-empty restore deadlocks. `Entries` calls `Get`, which read-locks again, while already holding the read lock.
- The `int64` conversion of decoded lengths is not modelled. Lengths are read as the naturals below 2^64 that the header encodes, and keys and values are at most 2^63 - 1 bytes. Two behaviours of `ScanFile` (bitcask.go:96-110) therefore differ:
  - A value length of 2^63 or more turns negative in Go. `ScanFile` tests it only with `> 0`, so Go skips no value bytes, records an entry of size 17 + keyLen and scans on. The model reads a huge value length instead: the walk stops with `TruncatedBody`, and `ScanFile` and `Open` fail.
  - A key length too large to allocate, from about 2^48 up and negative from 2^63, makes `make([]byte, keyLen)` panic in Go. The model reports `UnexpectedEof` instead.
  - The inspector panics in both cases in Go as in the model. `Get` compares the lengths as naturals, and in the model no keydir entry points at such a record.
- `Engine.Bitcask.ScanFile`: reports `io.EOF` and `io.ErrUnexpectedEOF` from a truncated key or value as one error, `UnexpectedEof`.
- `FileIds.SortById`: it is a stable insertion sort, while `sort.Slice` is not stable. The two give the same order when the ids are distinct.
- `Engine.Open`: it states that the store is valid and reopens to itself only when the listed files' ids are distinct. Two names with the same id, such as `data-1.db` and `data-01.db`, share one slot in `files`, and then keydir entries can point into the wrong file.
- `Engine.Bitcask.RestoreFromSnapshot`: it does not state that `currID` ends at 0 with only `data-0.db` open. That holds only while the snapshot's records fit under 128 MiB, since `Put` rotates otherwise. The model states that the file ids are 0 through `currID`.
- `Engine.Bitcask.RotateFile`: `currID` is an unbounded integer, while Go's `currID++` wraps past 2^63 - 1. A listed name such as `data-99999999999999999999.db` saturates to that id in `extractFileId`. The next rotation in Go creates `data--9223372036854775808.db`, which the next `Open` sorts first, so its records lose to older ones on replay. The model's rotation gives the new file the id 2^63 instead and keeps `Durable()`.
- `Engine.Bitcask.RotateFile`: the new file is modelled as empty. Go opens `data-<n>.db` without `O_TRUNC`, so a stale file of that name, such as one `RestoreFromSnapshot` left behind, would keep its old tail past the new writes. The model does not capture that overlap.
- `Close` is not modelled. It only flushes and closes files.
- The inspector's command-line handling, its `os.Open` failure and the text formatting of its output lines are left out. A line is modelled as its offset, flags, key and value.

## Findings

| source | as written | input that shows it | evidently intended | confidence | as-written member | corrected member |
|---|---|---|---|---|---|---|
| internal/bitcask/bitcask.go:285-294 | RotateFile closes the current `*os.File` but leaves it in `bc.files` under its id, so a later Get of a key stored in that file reads from a closed file and fails | a store whose current file has reached 128 MiB and holds key `k`; then `Put` of any other key, then `Get(k)` | files stay open and readable after rotation; only the write cursor moves | high, not executed | Findings.RotatedKeyUnreadable | Engine.Bitcask.RotateFile |
| internal/bitcask/bitcask.go:259-268 | Open resumes writing at the very end of the newest file, even when its scan stopped on a partial header left by a torn write, so the next record is glued onto the torn header | newest file ending in the 16 bytes `00…00 01`; then `Put(k, v)` with len(k) + len(v) < 240; the next Open reads a value length of 256 and fails | writing resumes where the last whole record ends | high, not executed | Findings.AppendAfterTornHeader | Engine.Open |
| internal/bitcask/bitcask.go:326-341 | RestoreFromSnapshot truncates only `data-0.db`; higher-numbered files stay in the directory, and the next Open replays them after `data-0.db` | directory with `data-1.db` holding `k -> v1`; restore the empty snapshot `{}` (a non-empty one deadlocks first); reopen; `Get(k)` returns `v1` instead of ErrKeyNotFound | after a restore the directory holds only the files the restore wrote | high, not executed | Findings.RestoreLeavesStaleFile | Engine.Bitcask.RestoreFromSnapshot |
