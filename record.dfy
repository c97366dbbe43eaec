/** The on-disk record layout (internal/bitcask/bitcask.go):
    one flags byte, an 8-byte big-endian key length, an 8-byte big-endian
    value length, then the key bytes and the value bytes. */
module Record {
  import opened Common
  import opened BigEndian

  /** recordHeaderSize = 1 + 8 + 8 */
  const HeaderSize: nat := 17

  const FlagPut: byte := 0
  const FlagTombstone: byte := 1

  /** `flags & 0x1 == 0x1`: the record deletes its key. */
  predicate IsTombstone(flags: byte) {
    flags % 2 == 1
  }

  /** The bytes of one record. */
  function EncodeRecord(flags: byte, key: Bytes, value: Bytes): (rec: Bytes)
    requires |key| < Uint64Limit && |value| < Uint64Limit
    ensures |rec| == HeaderSize + |key| + |value|
  {
    [flags] + PutUint64(|key|) + PutUint64(|value|) + key + value
  }

  /** The record Put appends. */
  function PutRecord(key: Bytes, value: Bytes): (rec: Bytes)
    requires |key| <= MaxInt64 && |value| <= MaxInt64
    ensures |rec| == HeaderSize + |key| + |value|
  {
    EncodeRecord(FlagPut, key, value)
  }

  /** The tombstone Delete appends: flags 1 and an empty value. */
  function TombstoneRecord(key: Bytes): (rec: Bytes)
    requires |key| <= MaxInt64
    ensures |rec| == HeaderSize + |key|
  {
    EncodeRecord(FlagTombstone, key, [])
  }

  datatype Header = Header(flags: byte, keyLen: nat, valLen: nat)

  /** The three header fields, read from the first 17 bytes. */
  function ParseHeader(buf: Bytes): (h: Header)
    requires |buf| >= HeaderSize
    ensures h.keyLen < Uint64Limit && h.valLen < Uint64Limit
  {
    Header(buf[0], Uint64(buf[1..9]), Uint64(buf[9..17]))
  }

  /** The decoding half of Get, applied to the `size` bytes read at an
      entry's offset. */
  function DecodeValue(buf: Bytes): (r: Result<Bytes>)
    ensures |buf| < HeaderSize ==> r == Err(CorruptRecord)
    ensures |buf| >= HeaderSize && IsTombstone(buf[0]) ==> r == Err(KeyNotFound)
    ensures |buf| >= HeaderSize && !IsTombstone(buf[0]) ==>
      var h := ParseHeader(buf);
      (r == Err(CorruptValueLength) <==> |buf| < HeaderSize + h.keyLen + h.valLen)
    ensures r.Ok? ==> |r.value| == ParseHeader(buf).valLen
  {
    if |buf| < HeaderSize then Err(CorruptRecord)
    else
      var h := ParseHeader(buf);
      if IsTombstone(h.flags) then Err(KeyNotFound)
      else
        var start := HeaderSize + h.keyLen;
        if |buf| < start + h.valLen then Err(CorruptValueLength)
        else Ok(buf[start..start + h.valLen])
  }

  /** The layout of an encoded record: its header decodes to the flags and
      the two lengths, and the key and value follow it in that order. */
  lemma ParseEncodedRecord(flags: byte, key: Bytes, value: Bytes)
    requires |key| < Uint64Limit && |value| < Uint64Limit
    ensures var rec := EncodeRecord(flags, key, value);
      && ParseHeader(rec) == Header(flags, |key|, |value|)
      && ParseHeader(rec[..HeaderSize]) == Header(flags, |key|, |value|)
      && rec[HeaderSize..HeaderSize + |key|] == key
      && rec[HeaderSize + |key|..] == value
  {
    var rec := EncodeRecord(flags, key, value);
    assert rec[1..9] == PutUint64(|key|);
    assert rec[9..17] == PutUint64(|value|);
    Uint64RoundTrip(|key|);
    Uint64RoundTrip(|value|);
    var hdr := rec[..HeaderSize];
    assert hdr[0] == rec[0] && hdr[1..9] == rec[1..9] && hdr[9..17] == rec[9..17];
  }

  /** Conversely, a buffer that is exactly as long as its header says is
      the encoding of its own fields. */
  lemma EncodeParsedRecord(buf: Bytes)
    requires |buf| >= HeaderSize
    requires |buf| == HeaderSize + ParseHeader(buf).keyLen + ParseHeader(buf).valLen
    ensures var h := ParseHeader(buf);
      buf == EncodeRecord(h.flags, buf[HeaderSize..HeaderSize + h.keyLen], buf[HeaderSize + h.keyLen..])
  {
    var h := ParseHeader(buf);
    PutUint64RoundTrip(buf[1..9]);
    PutUint64RoundTrip(buf[9..17]);
    var key, value := buf[HeaderSize..HeaderSize + h.keyLen], buf[HeaderSize + h.keyLen..];
    assert buf == [buf[0]] + buf[1..9] + buf[9..17] + key + value;
  }

  /** Get's decoding of a record it wrote: a put record yields its value,
      a tombstone yields ErrKeyNotFound. */
  lemma DecodeEncodedRecord(flags: byte, key: Bytes, value: Bytes)
    requires |key| < Uint64Limit && |value| < Uint64Limit
    ensures DecodeValue(EncodeRecord(flags, key, value))
         == if IsTombstone(flags) then Err(KeyNotFound) else Ok(value)
  {
    ParseEncodedRecord(flags, key, value);
    var rec := EncodeRecord(flags, key, value);
    assert rec[HeaderSize + |key|..HeaderSize + |key| + |value|] == rec[HeaderSize + |key|..];
  }

  /** Put-then-Get at the level of one record. */
  lemma DecodePutRecord(key: Bytes, value: Bytes)
    requires |key| <= MaxInt64 && |value| <= MaxInt64
    ensures DecodeValue(PutRecord(key, value)) == Ok(value)
  {
    DecodeEncodedRecord(FlagPut, key, value);
  }

  /** Delete-then-Get at the level of one record. */
  lemma DecodeTombstoneRecord(key: Bytes)
    requires |key| <= MaxInt64
    ensures DecodeValue(TombstoneRecord(key)) == Err(KeyNotFound)
  {
    DecodeEncodedRecord(FlagTombstone, key, []);
  }

  /** The exact byte layout of a put record: byte 0 is 0x0, bytes 1-8 and
      9-16 hold the key and value lengths big-endian, then key, then value. */
  lemma PutRecordLayout(key: Bytes, value: Bytes)
    requires |key| <= MaxInt64 && |value| <= MaxInt64
    ensures var rec := PutRecord(key, value);
      && rec[0] == 0
      && Uint64(rec[1..9]) == |key| && Uint64(rec[9..17]) == |value|
      && rec[17..17 + |key|] == key && rec[17 + |key|..] == value
  {
    ParseEncodedRecord(FlagPut, key, value);
  }

  /** A tombstone is 17 + len(key) bytes with flags 0x1 and value length 0. */
  lemma TombstoneLayout(key: Bytes)
    requires |key| <= MaxInt64
    ensures var rec := TombstoneRecord(key);
      && rec[0] == 1
      && Uint64(rec[1..9]) == |key| && Uint64(rec[9..17]) == 0
      && rec[17..] == key
  {
    ParseEncodedRecord(FlagTombstone, key, []);
  }
}
