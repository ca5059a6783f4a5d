/** The bytes on disk and on the wire, written out for one instance of each format. */
module KnownBytes {
  import opened Bytes
  import opened Fnv
  import opened BinaryCodec
  import opened Commands
  import opened CheckedRecord
  import opened WalFormat
  import opened Resp
  import opened RespRoundTrip
  import Decimal

  /** Big-endian: the highest byte comes first. */
  lemma Numbers()
    ensures BigEndian(0x0102, 2) == [1, 2]
    ensures BigEndian(0x01020304, 4) == [1, 2, 3, 4]
    ensures BigEndian(7, 8) == [0, 0, 0, 0, 0, 0, 0, 7]
  {
    assert BigEndian(0x01, 1) == [1];
    assert BigEndian(0x0102, 2) == [1, 2];
    assert BigEndian(0x010203, 3) == [1, 2, 3];
    Small(7);
  }

  lemma Small(n: nat)
    requires n < 256
    ensures BigEndian(n, 1) == [n] && BigEndian(n, 2) == [0, n] && BigEndian(n, 4) == [0, 0, 0, n]
    ensures BigEndian(n, 8) == [0, 0, 0, 0, 0, 0, 0, n]
  {
    Zeros();
    hide BigEndian;
    LastByte(n, 1);
    LastByte(n, 2);
    LastByte(n, 4);
    LastByte(n, 8);
  }

  lemma LastByte(n: nat, width: nat)
    requires n < 256 && width > 0
    ensures BigEndian(n, width) == BigEndian(0, width - 1) + [n]
  {
  }

  lemma Zeros()
    ensures BigEndian(0, 0) == [] && BigEndian(0, 1) == [0] && BigEndian(0, 3) == [0, 0, 0]
    ensures BigEndian(0, 7) == [0, 0, 0, 0, 0, 0, 0]
  {
    assert BigEndian(0, 1) == [0];
    assert BigEndian(0, 2) == [0, 0];
    assert BigEndian(0, 3) == [0, 0, 0];
    assert BigEndian(0, 4) == [0, 0, 0, 0];
    assert BigEndian(0, 5) == [0, 0, 0, 0, 0];
    assert BigEndian(0, 6) == [0, 0, 0, 0, 0, 0];
  }

  /** The type codes, in the byte after magic and version. */
  lemma CommandTypes()
    ensures TypeCode(Set) == 1 && TypeCode(Del) == 2 && TypeCode(Incr) == 3 && TypeCode(Decr) == 4
    ensures TypeCode(ReadBarrier) == 5
  {
  }

  /** SET k v as request 2 of client 1: "SKVC", version, type, reserved byte, the two ids and the
      two length-prefixed fields. */
  lemma SetCommand()
    ensures CommandBytes(Command(1, Set, [107], [118], 1, 2))
            == [83, 75, 86, 67, 0, 1, 1, 0]
               + [0, 0, 0, 0, 0, 0, 0, 1] + [0, 0, 0, 0, 0, 0, 0, 2] + [0, 0, 0, 1, 107] + [0, 0, 0, 1, 118]
  {
    hide BigEndian;
    Small(0);
    Small(1);
    Small(2);
    var c := Command(1, Set, [107], [118], 1, 2);
    assert CommandHead(Set) == [83, 75, 86, 67, 0, 1, 1, 0];
    assert StringBytes(c.key) == [0, 0, 0, 1, 107] && StringBytes(c.value) == [0, 0, 0, 1, 118];
  }

  /** The result 5 of a counter: "SKVR", version, code, payload kind, the integer and no text. */
  lemma CounterResult()
    ensures ResultBytes(IntegerResult(5))
            == [83, 75, 86, 82, 0, 1, 0, 2] + [0, 0, 0, 0, 0, 0, 0, 5] + [0, 0, 0, 0]
  {
    hide BigEndian;
    Small(0);
    Small(1);
    Small(2);
    Small(5);
    assert ResultHead(Fine, IntegerPayload) == [83, 75, 86, 82, 0, 1, 0, 2];
    assert StringBytes([]) == [0, 0, 0, 0];
  }

  /** A log that starts at index 1: "SKW2", version 2 and the index, before the checksum. */
  lemma LogHeader()
    ensures Header(1)[..16] == [83, 75, 87, 50, 0, 2, 0, 0, 0, 0, 0, 0, 0, 0, 0, 1]
    ensures Header(1)[16..] == BigEndian(Fnv1a64([83, 75, 87, 50, 0, 2, 0, 0, 0, 0, 0, 0, 0, 0, 0, 1]), 8)
  {
    hide BigEndian, Fnv1a64;
    Small(0);
    Small(1);
    Small(2);
    assert HeaderPrefix(1) == [83, 75, 87, 50, 0, 2, 0, 0, 0, 0, 0, 0, 0, 0, 0, 1];
  }

  /** The frame of the one-byte entry 9 at index 3: length, version, index, size, entry, checksum. */
  lemma LogFrame()
    ensures Frame(3, [9])[..4] == [0, 0, 0, 17]
    ensures Frame(3, [9])[4..21] == [0, 1, 0, 0, 0, 0, 0, 0, 0, 0, 0, 3, 0, 0, 0, 1, 9]
    ensures Frame(3, [9])[21..] == BigEndian(Fnv1a64([0, 1, 0, 0, 0, 0, 0, 0, 0, 0, 0, 3, 0, 0, 0, 1, 9]), 8)
  {
    hide BigEndian, Fnv1a64;
    Small(0);
    Small(1);
    Small(3);
    Small(17);
    assert Body(3, [9]) == [0, 1, 0, 0, 0, 0, 0, 0, 0, 0, 0, 3, 0, 0, 0, 1, 9];
  }

  /** A checked record of two bytes: magic, version, size, payload, and the checksum of all that. */
  lemma Record(magic: Magic)
    ensures RecordBytes(magic, [8, 9])[..14] == magic + [0, 1, 0, 0, 0, 0, 0, 2, 8, 9]
    ensures RecordBytes(magic, [8, 9])[14..] == BigEndian(Fnv1a64(magic + [0, 1, 0, 0, 0, 0, 0, 2, 8, 9]), 8)
  {
    hide BigEndian, Fnv1a64;
    Small(0);
    Small(1);
    Small(2);
    assert Unchecked(magic, [8, 9]) == magic + [0, 1, 0, 0, 0, 0, 0, 2, 8, 9];
  }

  /** +OK, -E, :-12, $2 ab and the null bulk string, each ended by CR LF. */
  lemma Replies()
    ensures Encode(Simple([79, 75])) == [43, 79, 75, 13, 10]
    ensures Encode(Error([69])) == [45, 69, 13, 10]
    ensures Encode(Integer(-12)) == [58, 45, 49, 50, 13, 10]
    ensures Encode(Bulk([97, 98])) == [36, 50, 13, 10, 97, 98, 13, 10]
    ensures Encode(NullBulk) == [36, 45, 49, 13, 10]
  {
    hide Decimal.PrintInt;
    Digits();
    assert NumberLine(COLON, -12) == [58, 45, 49, 50, 13, 10];
    assert NumberLine(DOLLAR, 2) == [36, 50, 13, 10];
    assert NumberLine(DOLLAR, -1) == [36, 45, 49, 13, 10];
  }

  lemma Digits()
    ensures Decimal.PrintInt(2) == [50] && Decimal.PrintInt(-1) == [45, 49] && Decimal.PrintInt(-12) == [45, 49, 50]
  {
    assert Decimal.Print(12) == Decimal.Print(1) + [50];
  }

  /** An array holds its elements' encodings after its count. */
  lemma Arrays()
    ensures Encode(Array([NullBulk, Error([69])])) == [42, 50, 13, 10, 36, 45, 49, 13, 10, 45, 69, 13, 10]
  {
    hide Decimal.PrintInt;
    Digits();
    Replies();
    var items := [NullBulk, Error([69])];
    assert items[1..] == [Error([69])] && items[1..][1..] == [];
    assert EncodeItems(items[1..]) == Encode(Error([69])) + EncodeItems([]);
    assert EncodeItems(items) == Encode(NullBulk) + EncodeItems(items[1..]);
    assert NumberLine(STAR, 2) == [42, 50, 13, 10];
  }

  lemma {:induction false} XorZero(a: nat, bits: nat)
    requires a < Pow2(bits)
    ensures Xor(a, 0, bits) == a
  {
    if bits > 0 {
      XorZero(a / 2, bits - 1);
    }
  }

  /** The checksum of nothing and of the letter a, as draft-eastlake-fnv lists them. */
  lemma Checksums()
    ensures Fnv1a64([]) == 0xcbf29ce484222325
    ensures Fnv1a64([97]) == 0xaf63dc4c8601ec8c
  {
    hide Xor;
    FirstStep();
    assert [97][..0] == [];
    assert Fnv1a64([97]) == Absorb(Fnv1a64([]), 97);
  }

  lemma FirstStep()
    ensures Xor(0xcbf29ce484222325, 97, 64) == 0xcbf29ce484222344
  {
    Pow2At64();
    Pow2Sum(57, 7);
    assert Pow2(7) == 128;
    XorZero(114812351869895750, 57);
    assert Xor(229624703739791500, 1, 58) == 229624703739791501;
    assert Xor(459249407479583001, 3, 59) == 459249407479583002;
    assert Xor(918498814959166002, 6, 60) == 918498814959166004;
    assert Xor(1836997629918332004, 12, 61) == 1836997629918332008;
    assert Xor(3673995259836664009, 24, 62) == 3673995259836664017;
    assert Xor(7347990519673328018, 48, 63) == 7347990519673328034;
    assert Xor(14695981039346656037, 97, 64) == 14695981039346656068;
  }
}
