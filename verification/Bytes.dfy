/** Bytes, outcomes and the fixed-width big-endian integers every file format and
    envelope of the store is made of. */
module Bytes {

  type byte = x: int | 0 <= x < 256
  type Bytes = seq<byte>

  datatype Option<+T> = None | Some(value: T)

  /** One constructor for each exception the source throws. */
  datatype Fault =
    // binary codec and envelopes
    | Truncated | StringTooLong | TrailingBytes | EnvelopeMagic
    | CommandVersion | UnknownCommand | ReservedByte | ResultVersion | ResultEnum | ResultPayload
    // checked records and files
    | FileTooLarge | RecordTooLarge | RecordTruncated | RecordMagic | RecordVersion | RecordLength | RecordChecksum
    // write-ahead log
    | NotWal | WalHeaderTruncated | WalVersion | WalHeader | WalChecksum | WalEntryVersion | WalSequence
    | EntrySize | OverwriteIndex | OverwriteGap | BatchRange | PendingGap
    | PackCount | PackMissing | PackEntrySize | PackLength | PackTrailing
    // replicated state
    | StateVersion | ItemCount | DuplicateKey | DedupCount | DedupRecord
    | SnapshotVersion | SnapshotIndex

  /** A value or the exception the source throws. */
  datatype Result<+T> = Ok(value: T) | Err(error: Fault) {
    predicate IsFailure() { Err? }
    function PropagateFailure<U>(): Result<U>
      requires Err?
    {
      Err(error)
    }
    function Extract(): T
      requires Ok?
    {
      value
    }
  }

  const U16 := 0x1_0000
  const U32 := 0x1_0000_0000
  const U64 := 0x1_0000_0000_0000_0000
  const I64_MAX := 0x7fff_ffff_ffff_ffff
  const I64_MIN := -0x8000_0000_0000_0000

  /** The bytes of an ASCII text constant. */
  function Ascii(text: string): (b: Bytes)
    ensures |b| == |text|
  {
    seq(|text|, i requires 0 <= i < |text| => text[i] as int % 256)
  }

  function Pow256(n: nat): (p: nat)
    ensures p >= 1
  {
    if n == 0 then 1 else 256 * Pow256(n - 1)
  }

  lemma Widths()
    ensures Pow256(1) == 256 && Pow256(2) == U16 && Pow256(4) == U32 && Pow256(8) == U64
  {
    assert Pow256(3) == 256 * Pow256(2);
    assert Pow256(5) == 256 * Pow256(4);
    assert Pow256(6) == 256 * Pow256(5);
    assert Pow256(7) == 256 * Pow256(6);
  }

  /** The low `width` bytes of `v`, most significant first; higher bits are cut off as a
      narrowing cast does. */
  function BigEndian(v: nat, width: nat): (b: Bytes)
    ensures |b| == width
  {
    if width == 0 then [] else BigEndian(v / 256, width - 1) + [v % 256]
  }

  function Unsigned(b: Bytes): nat {
    if b == [] then 0 else Unsigned(b[..|b| - 1]) * 256 + b[|b| - 1]
  }

  lemma {:induction false} UnsignedBound(b: Bytes)
    ensures Unsigned(b) < Pow256(|b|)
  {
    if b != [] {
      UnsignedBound(b[..|b| - 1]);
    }
  }

  /** Decoding inverts encoding on every value that fits the width. */
  lemma {:induction false} UnsignedOfBigEndian(v: nat, width: nat)
    requires v < Pow256(width)
    ensures Unsigned(BigEndian(v, width)) == v
  {
    if width > 0 {
      UnsignedOfBigEndian(v / 256, width - 1);
      assert BigEndian(v, width)[..width - 1] == BigEndian(v / 256, width - 1);
    }
  }

  /** Encoding inverts decoding on every byte string. */
  lemma {:induction false} BigEndianOfUnsigned(b: Bytes)
    ensures BigEndian(Unsigned(b), |b|) == b
  {
    if b != [] {
      BigEndianOfUnsigned(b[..|b| - 1]);
      assert b == b[..|b| - 1] + [b[|b| - 1]];
    }
  }

  /** Two's complement of a 64-bit signed integer. */
  function ToUnsigned64(i: int): nat
    requires I64_MIN <= i <= I64_MAX
  {
    if i >= 0 then i else i + U64
  }

  function ToSigned64(u: nat): (i: int)
    requires u < U64
    ensures I64_MIN <= i <= I64_MAX
    ensures ToUnsigned64(i) == u
  {
    if u <= I64_MAX then u else u - U64
  }

  // ---- Slices of concatenations ----

  lemma Parts2<T>(a: seq<T>, b: seq<T>)
    ensures (a + b)[..|a|] == a && (a + b)[|a|..] == b
  {
  }

  lemma Parts4<T>(a: seq<T>, b: seq<T>, c: seq<T>, d: seq<T>)
    ensures var s := a + b + c + d;
            && |s| == |a| + |b| + |c| + |d|
            && s[..|a|] == a
            && s[|a|..|a| + |b|] == b
            && s[|a| + |b|..|a| + |b| + |c|] == c
            && s[|a| + |b| + |c|..] == d
  {
  }

  /** Cutting a concatenation inside its second part. */
  lemma CutSecond<T>(a: seq<T>, b: seq<T>, cut: nat)
    requires |a| <= cut <= |a| + |b|
    ensures (a + b)[..cut] == a + b[..cut - |a|]
  {
  }
}
