/** The big-endian writer and reader. The reader's specification is a family of functions
    that split a byte string into a decoded value and the unread rest. */
module BinaryCodec {
  import opened Bytes

  function TakeBytes(s: Bytes, count: nat): Result<(Bytes, Bytes)> {
    if count > |s| then Err(Truncated) else Ok((s[..count], s[count..]))
  }

  function TakeUnsigned(s: Bytes, width: nat): Result<(nat, Bytes)> {
    if width > |s| then Err(Truncated) else Ok((Unsigned(s[..width]), s[width..]))
  }

  function TakeSigned64(s: Bytes): Result<(int, Bytes)> {
    var (u, rest) :- TakeUnsigned(s, 8);
    UnsignedBound(s[..8]);
    Widths();
    Ok((ToSigned64(u), rest))
  }

  function TakeString(s: Bytes, maxSize: nat): Result<(Bytes, Bytes)> {
    var (length, rest) :- TakeUnsigned(s, 4);
    if length > maxSize then Err(StringTooLong) else TakeBytes(rest, length)
  }

  /** A length-prefixed string; its length must fit 32 bits. */
  function StringBytes(value: Bytes): Bytes {
    BigEndian(|value|, 4) + value
  }

  lemma TakeUnsignedOfBigEndian(v: nat, width: nat, rest: Bytes)
    requires v < Pow256(width)
    ensures TakeUnsigned(BigEndian(v, width) + rest, width) == Ok((v, rest))
  {
    UnsignedOfBigEndian(v, width);
    assert (BigEndian(v, width) + rest)[..width] == BigEndian(v, width);
  }

  lemma TakeSigned64OfBigEndian(i: int, rest: Bytes)
    requires I64_MIN <= i <= I64_MAX
    ensures TakeSigned64(BigEndian(ToUnsigned64(i), 8) + rest) == Ok((i, rest))
  {
    Widths();
    TakeUnsignedOfBigEndian(ToUnsigned64(i), 8, rest);
  }

  lemma TakeBytesOfConcat(b: Bytes, rest: Bytes)
    ensures TakeBytes(b + rest, |b|) == Ok((b, rest))
  {
    assert (b + rest)[..|b|] == b;
  }

  /** A stored string reads back exactly when it is within the reader's limit. */
  lemma TakeStringOfStringBytes(value: Bytes, maxSize: nat, rest: Bytes)
    requires |value| < U32
    ensures |value| <= maxSize ==> TakeString(StringBytes(value) + rest, maxSize) == Ok((value, rest))
    ensures |value| > maxSize ==> TakeString(StringBytes(value) + rest, maxSize).Err?
  {
    Widths();
    assert StringBytes(value) + rest == BigEndian(|value|, 4) + (value + rest);
    TakeUnsignedOfBigEndian(|value|, 4, value + rest);
    TakeBytesOfConcat(value, rest);
  }

  /** What a reader accepted is what a writer would have written. */
  lemma TakeUnsignedInverse(s: Bytes, width: nat)
    ensures TakeUnsigned(s, width).Ok? ==>
              var (v, rest) := TakeUnsigned(s, width).value;
              v < Pow256(width) && s == BigEndian(v, width) + rest
  {
    if width <= |s| {
      UnsignedBound(s[..width]);
      BigEndianOfUnsigned(s[..width]);
      assert s == s[..width] + s[width..];
    }
  }

  lemma TakeSigned64Inverse(s: Bytes)
    ensures TakeSigned64(s).Ok? ==>
              var (i, rest) := TakeSigned64(s).value;
              I64_MIN <= i <= I64_MAX && s == BigEndian(ToUnsigned64(i), 8) + rest
  {
    TakeUnsignedInverse(s, 8);
  }

  lemma TakeBytesInverse(s: Bytes, count: nat)
    ensures TakeBytes(s, count).Ok? ==>
              var (b, rest) := TakeBytes(s, count).value;
              |b| == count && s == b + rest
  {
    if count <= |s| {
      assert s == s[..count] + s[count..];
    }
  }

  lemma TakeStringInverse(s: Bytes, maxSize: nat)
    ensures TakeString(s, maxSize).Ok? ==>
              var (b, rest) := TakeString(s, maxSize).value;
              |b| <= maxSize && |b| < U32 && s == StringBytes(b) + rest
  {
    TakeUnsignedInverse(s, 4);
    Widths();
    if TakeString(s, maxSize).Ok? {
      var (length, rest) := TakeUnsigned(s, 4).value;
      TakeBytesInverse(rest, length);
      var (b, rest') := TakeBytes(rest, length).value;
      assert BigEndian(|b|, 4) + (b + rest') == StringBytes(b) + rest';
    }
  }

  /** Each byte of a big-endian integer is the value shifted down and cut to a byte. */
  lemma {:induction false} BigEndianDigit(v: nat, width: nat, i: nat)
    requires i < width
    ensures BigEndian(v, width)[i] == v / Pow256(width - 1 - i) % 256
  {
    if i < width - 1 {
      BigEndianDigit(v / 256, width - 1, i);
      ShiftTwice(v, Pow256(width - 2 - i));
      assert Pow256(width - 1 - i) == 256 * Pow256(width - 2 - i);
    }
  }

  lemma ShiftTwice(v: nat, p: nat)
    requires p > 0
    ensures v / 256 / p == v / (256 * p)
  {
    var q := v / 256 / p;
    var r := v / 256 - q * p;
    assert 0 <= r < p;
    assert v == 256 * (q * p + r) + v % 256;
    assert v == q * (256 * p) + (256 * r + v % 256) by {
      assert 256 * (q * p) == q * (256 * p);
    }
    assert 0 <= 256 * r + v % 256 < 256 * p;
    DivideUnique(v, 256 * p, q, 256 * r + v % 256);
  }

  lemma DivideUnique(v: nat, d: nat, q: nat, r: nat)
    requires 0 <= r < d && v == q * d + r
    ensures v / d == q
  {
    var x := v / d - q;
    assert v == v / d * d + v % d;
    assert x * d == r - v % d by {
      assert (v / d - q) * d == v / d * d - q * d;
    }
    if x >= 1 {
      AtLeastOnce(x, d);
    } else if x <= -1 {
      assert (-x) * d == -(x * d);
      AtLeastOnce(-x, d);
    }
  }

  lemma AtLeastOnce(x: nat, d: nat)
    requires x >= 1
    ensures x * d >= d
  {
  }

  class BinaryWriter {
    var data: Bytes

    constructor ()
      ensures data == []
    {
      data := [];
    }

    /** `put_u8`, `put_u16`, `put_u32` and `put_u64`: push the bytes from the highest shift down. */
    method PutUnsigned(value: nat, width: nat)
      modifies this
      ensures data == old(data) + BigEndian(value, width)
    {
      var before := data;
      for i := 0 to width
        invariant data == before + BigEndian(value, width)[..i]
      {
        BigEndianDigit(value, width, i);
        var shifted := value / Pow256(width - 1 - i) % 256;
        assert BigEndian(value, width)[..i + 1] == BigEndian(value, width)[..i] + [shifted];
        data := data + [shifted];
      }
      assert BigEndian(value, width)[..width] == BigEndian(value, width);
    }

    method PutRaw(bytes: Bytes)
      modifies this
      ensures data == old(data) + bytes
    {
      data := data + bytes;
    }

    method PutString(value: Bytes) returns (ok: bool)
      modifies this
      ensures ok <==> |value| < U32
      ensures data == if ok then old(data) + StringBytes(value) else old(data)
    {
      if |value| > U32 - 1 {
        return false;
      }
      PutUnsigned(|value|, 4);
      PutRaw(value);
      return true;
    }
  }

  class BinaryReader {
    const data: Bytes
    var pos: nat

    ghost predicate Valid()
      reads this
    {
      pos <= |data|
    }

    ghost function Rest(): Bytes
      reads this
      requires Valid()
    {
      data[pos..]
    }

    constructor (bytes: Bytes)
      ensures Valid() && data == bytes && Rest() == bytes
    {
      data := bytes;
      pos := 0;
    }

    /** `get_u8`, `get_u16`, `get_u32` and `get_u64`: shift the accumulator and add each byte. */
    method GetUnsigned(width: nat) returns (r: Result<nat>)
      requires Valid()
      modifies this
      ensures Valid()
      ensures TakeUnsigned(old(Rest()), width) == if r.Ok? then Ok((r.value, Rest())) else Err(r.error)
    {
      if width > |data| - pos {
        return Err(Truncated);
      }
      ghost var field := data[pos..][..width];
      var start := pos;
      var value: nat := 0;
      for i := 0 to width
        invariant pos == start + i && start + width <= |data|
        invariant value == Unsigned(field[..i])
      {
        assert field[..i + 1][..i] == field[..i] && field[i] == data[pos];
        value := value * 256 + data[pos];
        pos := pos + 1;
      }
      assert field[..width] == field;
      assert data[start..][width..] == data[pos..];
      return Ok(value);
    }

    method GetSigned64() returns (r: Result<int>)
      requires Valid()
      modifies this
      ensures Valid()
      ensures TakeSigned64(old(Rest())) == if r.Ok? then Ok((r.value, Rest())) else Err(r.error)
    {
      ghost var before := Rest();
      var u := GetUnsigned(8);
      if u.Err? {
        return Err(u.error);
      }
      UnsignedBound(before[..8]);
      Widths();
      return Ok(ToSigned64(u.value));
    }

    method GetBytes(count: nat) returns (r: Result<Bytes>)
      requires Valid()
      modifies this
      ensures Valid()
      ensures TakeBytes(old(Rest()), count) == if r.Ok? then Ok((r.value, Rest())) else Err(r.error)
    {
      if count > |data| - pos {
        return Err(Truncated);
      }
      var value := data[pos..pos + count];
      assert data[pos..][..count] == value && data[pos..][count..] == data[pos + count..];
      pos := pos + count;
      return Ok(value);
    }

    method GetString(maxSize: nat) returns (r: Result<Bytes>)
      requires Valid()
      modifies this
      ensures Valid()
      ensures TakeString(old(Rest()), maxSize) == if r.Ok? then Ok((r.value, Rest())) else Err(r.error)
    {
      var length := GetUnsigned(4);
      if length.Err? {
        return Err(length.error);
      }
      if length.value > maxSize {
        return Err(StringTooLong);
      }
      r := GetBytes(length.value);
    }

    method Remaining() returns (count: nat)
      requires Valid()
      ensures count == |Rest()|
    {
      count := |data| - pos;
    }

    method AtEnd() returns (end: bool)
      requires Valid()
      ensures end <==> Rest() == []
    {
      end := |data| - pos == 0;
    }
  }
}
