/** The checked-record file format: magic, version, length, payload and a checksum over
    everything before it. */
module CheckedRecord {
  import opened Bytes
  import opened BinaryCodec
  import opened Fnv

  const OVERHEAD := 20
  type Magic = m: Bytes | |m| == 4 witness [0, 0, 0, 0]

  function Unchecked(magic: Magic, payload: Bytes): Bytes {
    magic + BigEndian(1, 2) + BigEndian(0, 2) + BigEndian(|payload|, 4) + payload
  }

  function RecordBytes(magic: Magic, payload: Bytes): Bytes {
    Unchecked(magic, payload) + BigEndian(Fnv1a64(Unchecked(magic, payload)), 8)
  }

  /** The fields before the payload: the declared payload size and what follows it. */
  function ReadHeader(data: Bytes, expected: Magic): Result<(nat, Bytes)> {
    var (magic, s1) :- TakeBytes(data, 4);
    if magic != expected then Err(RecordMagic) else
    var (version, s2) :- TakeUnsigned(s1, 2);
    var (reserved, s3) :- TakeUnsigned(s2, 2);
    if version != 1 || reserved != 0 then Err(RecordVersion) else
    TakeUnsigned(s3, 4)
  }

  /** Reading a record out of the bytes of a file. */
  function ReadRecord(data: Bytes, expected: Magic, maxPayload: nat): Result<Bytes> {
    if |data| > maxPayload + OVERHEAD then Err(FileTooLarge)
    else if |data| < OVERHEAD then Err(RecordTruncated)
    else
      var (size, s4) :- ReadHeader(data, expected);
      if size > maxPayload || |s4| != size + 8 then Err(RecordLength)
      else ReadPayload(data, s4, size)
  }

  /** The payload and checksum fields `s` at the end of `data`. */
  function ReadPayload(data: Bytes, s: Bytes, size: nat): Result<Bytes>
    requires |data| >= OVERHEAD
  {
    var (payload, s1) :- TakeBytes(s, size);
    var (stored, s2) :- TakeUnsigned(s1, 8);
    if s2 != [] then Err(TrailingBytes)
    else if Fnv1a64(data[..|data| - 8]) != stored then Err(RecordChecksum)
    else Ok(payload)
  }

  lemma HeaderRoundTrip(magic: Magic, size: nat, rest: Bytes)
    requires size < U32
    ensures ReadHeader(magic + BigEndian(1, 2) + BigEndian(0, 2) + BigEndian(size, 4) + rest, magic) == Ok((size, rest))
  {
    Widths();
    var s3 := BigEndian(size, 4) + rest;
    var s2 := BigEndian(0, 2) + s3;
    var s1 := BigEndian(1, 2) + s2;
    assert magic + BigEndian(1, 2) + BigEndian(0, 2) + BigEndian(size, 4) + rest == magic + s1;
    TakeBytesOfConcat(magic, s1);
    TakeUnsignedOfBigEndian(1, 2, s2);
    TakeUnsignedOfBigEndian(0, 2, s3);
    TakeUnsignedOfBigEndian(size, 4, rest);
  }

  /** A written record reads back exactly when the payload is within the READER's limit; the
      writer accepts anything up to 2^32 - 1 bytes, so larger images are stored unreadably. */
  lemma RoundTrip(magic: Magic, payload: Bytes, maxPayload: nat)
    requires |payload| < U32
    ensures |payload| <= maxPayload ==> ReadRecord(RecordBytes(magic, payload), magic, maxPayload) == Ok(payload)
    ensures |payload| > maxPayload ==> ReadRecord(RecordBytes(magic, payload), magic, maxPayload).Err?
  {
    hide ReadHeader, TakeBytes, TakeUnsigned, BigEndian, Fnv1a64;
    Widths();
    var body := Unchecked(magic, payload);
    var sum := BigEndian(Fnv1a64(body), 8);
    var data := RecordBytes(magic, payload);
    assert data == magic + BigEndian(1, 2) + BigEndian(0, 2) + BigEndian(|payload|, 4) + (payload + sum);
    HeaderRoundTrip(magic, |payload|, payload + sum);
    TakeBytesOfConcat(payload, sum);
    assert sum + [] == sum;
    TakeUnsignedOfBigEndian(Fnv1a64(body), 8, []);
    assert data[..|data| - 8] == body;
  }

  lemma HeaderInverse(data: Bytes, magic: Magic)
    requires ReadHeader(data, magic).Ok?
    ensures var (size, rest) := ReadHeader(data, magic).value;
            data == magic + BigEndian(1, 2) + BigEndian(0, 2) + BigEndian(size, 4) + rest
  {
    TakeBytesInverse(data, 4);
    var s1 := data[4..];
    TakeUnsignedInverse(s1, 2);
    var s2 := s1[2..];
    TakeUnsignedInverse(s2, 2);
    TakeUnsignedInverse(s2[2..], 4);
  }

  /** What the reader accepts is byte for byte what the writer writes. */
  lemma AcceptedIsWritten(data: Bytes, magic: Magic, maxPayload: nat)
    requires ReadRecord(data, magic, maxPayload).Ok?
    ensures data == RecordBytes(magic, ReadRecord(data, magic, maxPayload).value)
    ensures |data| >= 8 && Unsigned(data[|data| - 8..]) == Fnv1a64(data[..|data| - 8])
  {
    hide ReadHeader, TakeBytes, TakeUnsigned, BigEndian, Unsigned, Fnv1a64, Unchecked;
    HeaderInverse(data, magic);
    var (size, s4) := ReadHeader(data, magic).value;
    TakeBytesInverse(s4, size);
    var (payload, s5) := TakeBytes(s4, size).value;
    TakeUnsignedInverse(s5, 8);
    var (stored, s6) := TakeUnsigned(s5, 8).value;
    Joined(data, magic, payload, s5);
    Parts2(Unchecked(magic, payload), s5);
    assert s5 == BigEndian(stored, 8);
    UnsignedOfBigEndian(stored, 8);
  }

  lemma Joined(data: Bytes, magic: Magic, payload: Bytes, sum: Bytes)
    requires data == magic + BigEndian(1, 2) + BigEndian(0, 2) + BigEndian(|payload|, 4) + (payload + sum)
    ensures data == Unchecked(magic, payload) + sum
  {
    hide BigEndian;
  }

  /** Changing any one byte of a readable record makes reading fail. */
  lemma SingleByteCorruption(data: Bytes, corrupt: Bytes, k: nat, magic: Magic, maxPayload: nat)
    requires ReadRecord(data, magic, maxPayload).Ok?
    requires OneByteChanged(data, corrupt, k)
    ensures ReadRecord(corrupt, magic, maxPayload).Err?
  {
    var n := |data| - 8;
    AcceptedIsWritten(data, magic, maxPayload);
    assert Unsigned(corrupt[n..]) != Fnv1a64(corrupt[..n]) by {
      if k < n {
        assert corrupt[..n] == data[..n][k := corrupt[k]];
        SingleByteDetected(data[..n], corrupt[..n], k);
        assert data[n..] == corrupt[n..];
      } else {
        assert data[..n] == corrupt[..n];
        assert data[n..][k - n] != corrupt[n..][k - n];
        BigEndianOfUnsigned(data[n..]);
        BigEndianOfUnsigned(corrupt[n..]);
      }
    }
    if ReadRecord(corrupt, magic, maxPayload).Ok? {
      AcceptedIsWritten(corrupt, magic, maxPayload);
    }
  }

  /** Building a record in a growing writer; the bytes then replace the file atomically. */
  method WriteRecord(magic: Magic, payload: Bytes) returns (r: Result<Bytes>)
    ensures r == if |payload| < U32 then Ok(RecordBytes(magic, payload)) else Err(RecordTooLarge)
  {
    if |payload| > U32 - 1 {
      return Err(RecordTooLarge);
    }
    var writer := new BinaryWriter();
    writer.PutRaw(magic);
    writer.PutUnsigned(1, 2);
    writer.PutUnsigned(0, 2);
    writer.PutUnsigned(|payload|, 4);
    writer.PutRaw(payload);
    assert writer.data == Unchecked(magic, payload);
    var sum := Checksum(writer.data);
    writer.PutUnsigned(sum, 8);
    return Ok(writer.data);
  }

  method ReadHeaderFields(reader: BinaryReader, expected: Magic) returns (r: Result<nat>)
    requires reader.Valid()
    modifies reader
    ensures reader.Valid()
    ensures ReadHeader(old(reader.Rest()), expected) ==
            if r.Ok? then Ok((r.value, reader.Rest())) else Err(r.error)
  {
    hide TakeBytes, TakeUnsigned;
    var magic :- reader.GetBytes(4);
    if magic != expected {
      return Err(RecordMagic);
    }
    var version :- reader.GetUnsigned(2);
    var reserved :- reader.GetUnsigned(2);
    if version != 1 || reserved != 0 {
      return Err(RecordVersion);
    }
    r := reader.GetUnsigned(4);
  }

  method ReadPayloadFields(reader: BinaryReader, size: nat) returns (r: Result<Bytes>)
    requires reader.Valid() && |reader.data| >= OVERHEAD
    modifies reader
    ensures r == ReadPayload(reader.data, old(reader.Rest()), size)
  {
    hide TakeBytes, TakeUnsigned;
    var payload :- reader.GetBytes(size);
    var stored :- reader.GetUnsigned(8);
    var end := reader.AtEnd();
    if !end {
      return Err(TrailingBytes);
    }
    var sum := Checksum(reader.data[..|reader.data| - 8]);
    return if sum != stored then Err(RecordChecksum) else Ok(payload);
  }

  method ReadRecordBytes(data: Bytes, expected: Magic, maxPayload: nat) returns (r: Result<Bytes>)
    ensures r == ReadRecord(data, expected, maxPayload)
  {
    hide ReadPayload, ReadHeader;
    if |data| > maxPayload + OVERHEAD {
      return Err(FileTooLarge);
    }
    if |data| < OVERHEAD {
      return Err(RecordTruncated);
    }
    var reader := new BinaryReader(data);
    var header := ReadHeaderFields(reader, expected);
    match header {
      case Err(fault) =>
        return Err(fault);
      case Ok(size) =>
        var left := reader.Remaining();
        if size > maxPayload || left != size + 8 {
          return Err(RecordLength);
        }
        r := ReadPayloadFields(reader, size);
    }
  }
}
