/** Decimal text: printing, the left-to-right overflow-checked scan shared by every number
    parser of the source, and the exact set of texts each parser accepts. */
module Decimal {
  import opened Bytes

  const MINUS: byte := 45
  const PLUS: byte := 43

  predicate IsDigit(b: byte) {
    48 <= b <= 57
  }

  predicate AllDigits(t: Bytes) {
    forall i :: 0 <= i < |t| ==> IsDigit(t[i])
  }

  /** The value of the digits `t` written after a number `acc`. */
  function Fold(acc: nat, t: Bytes): nat
    requires AllDigits(t)
    decreases t
  {
    if t == [] then acc else Fold(acc * 10 + (t[0] - 48), t[1..])
  }

  function Print(n: nat): (t: Bytes)
    ensures t != [] && AllDigits(t)
  {
    if n < 10 then [48 + n] else Print(n / 10) + [48 + n % 10]
  }

  /** `std::to_string` of a signed integer. */
  function PrintInt(i: int): Bytes {
    if i < 0 then [MINUS] + Print(-i) else Print(i)
  }

  lemma {:induction false} FoldConcat(acc: nat, a: Bytes, b: Bytes)
    requires AllDigits(a) && AllDigits(b)
    ensures Fold(acc, a + b) == Fold(Fold(acc, a), b)
    decreases a
  {
    if a == [] {
      assert a + b == b;
    } else {
      assert (a + b)[1..] == a[1..] + b;
      FoldConcat(acc * 10 + (a[0] - 48), a[1..], b);
    }
  }

  lemma {:induction false} FoldPrint(n: nat)
    ensures Fold(0, Print(n)) == n
  {
    if n >= 10 {
      FoldPrint(n / 10);
      FoldConcat(0, Print(n / 10), [48 + n % 10]);
      assert Fold(n / 10, [48 + n % 10]) == n / 10 * 10 + n % 10;
    }
  }

  /** Printed numbers have no leading zero. */
  lemma {:induction false} PrintCanonical(n: nat)
    ensures |Print(n)| == 1 || Print(n)[0] != 48
    ensures Print(n)[0] == 48 ==> n == 0
  {
    if n >= 10 {
      PrintCanonical(n / 10);
    }
  }

  lemma {:induction false} FoldGrows(acc: nat, t: Bytes)
    requires AllDigits(t)
    ensures Fold(acc, t) >= acc
    decreases t
  {
    if t != [] {
      FoldGrows(acc * 10 + (t[0] - 48), t[1..]);
    }
  }

  function Pow10(k: nat): (p: nat)
    ensures p >= 1
  {
    if k == 0 then 1 else 10 * Pow10(k - 1)
  }

  lemma {:induction false} PrintLength(n: nat, k: nat)
    requires k >= 1 && n < Pow10(k)
    ensures |Print(n)| <= k
  {
    if n >= 10 {
      assert k >= 2;
      PrintLength(n / 10, k - 1);
    }
  }

  lemma PrintInt64Length(i: int)
    requires I64_MIN <= i <= I64_MAX
    ensures |PrintInt(i)| <= 20
  {
    var n := if i < 0 then -i else i;
    assert Pow10(5) == 100000;
    assert Pow10(10) == 100000 * 100000 by {
      assert Pow10(10) == 100000 * Pow10(5);
    }
    assert Pow10(15) == 100000 * Pow10(10);
    assert Pow10(19) == 10000 * Pow10(15);
    PrintLength(n, 19);
  }

  // ---- The scan ----

  datatype Magnitude = Value(v: nat) | NonDecimal | Overflowing

  function Scan(t: Bytes, acc: nat, limit: nat): Magnitude
    requires limit >= 9
    decreases t
  {
    if t == [] then Value(acc)
    else if !IsDigit(t[0]) then NonDecimal
    else if acc > (limit - (t[0] - 48)) / 10 then Overflowing
    else Scan(t[1..], acc * 10 + (t[0] - 48), limit)
  }

  /** The scan accepts exactly the digit strings whose value is within the limit; the guard
      never lets an intermediate value pass the limit and never rejects too early. */
  lemma {:induction false} ScanExact(t: Bytes, acc: nat, limit: nat)
    requires limit >= 9 && acc <= limit
    ensures Scan(t, acc, limit).Value? <==> AllDigits(t) && Fold(acc, t) <= limit
    ensures Scan(t, acc, limit).Value? ==> Scan(t, acc, limit).v == Fold(acc, t)
    decreases t
  {
    if t != [] && IsDigit(t[0]) {
      var next := acc * 10 + (t[0] - 48);
      assert t == [t[0]] + t[1..];
      if next <= limit {
        ScanExact(t[1..], next, limit);
      } else if AllDigits(t) {
        FoldGrows(next, t[1..]);
      }
    }
  }

  /** The scanning loop of the source. */
  method ScanLoop(t: Bytes, position: nat, limit: nat) returns (r: Magnitude)
    requires limit >= 9 && position <= |t|
    ensures r == Scan(t[position..], 0, limit)
  {
    var i, magnitude: nat := position, 0;
    while i < |t|
      invariant position <= i <= |t|
      invariant Scan(t[position..], 0, limit) == Scan(t[i..], magnitude, limit)
    {
      if t[i] < 48 || t[i] > 57 {
        return NonDecimal;
      }
      var digit := t[i] - 48;
      if magnitude > (limit - digit) / 10 {
        return Overflowing;
      }
      assert t[i..][1..] == t[i + 1..];
      magnitude := magnitude * 10 + digit;
      i := i + 1;
    }
    return Value(magnitude);
  }

  // ---- Signed 64-bit integers in the key-value store ----

  /** A non-empty digit string after an optional sign. */
  predicate IsSigned(t: Bytes) {
    t != [] && Unsign(t) != [] && AllDigits(Unsign(t))
  }

  function Unsign(t: Bytes): Bytes {
    if t != [] && (t[0] == MINUS || t[0] == PLUS) then t[1..] else t
  }

  function SignedValue(t: Bytes): int
    requires IsSigned(t)
  {
    if t[0] == MINUS then 0 - Fold(0, Unsign(t)) else Fold(0, Unsign(t))
  }

  /** Exactly the optionally signed decimal texts whose value is an int64. */
  function ParseInt64(t: Bytes): Option<int> {
    if IsSigned(t) && I64_MIN <= SignedValue(t) <= I64_MAX then Some(SignedValue(t)) else None
  }

  lemma {:induction false} ParseOfPrint(i: int)
    requires I64_MIN <= i <= I64_MAX
    ensures ParseInt64(PrintInt(i)) == Some(i)
  {
    FoldPrint(if i < 0 then -i else i);
    assert PrintInt(i)[0] == MINUS <==> i < 0;
    if i < 0 {
      assert Unsign(PrintInt(i)) == Print(-i);
    } else {
      assert IsDigit(Print(i)[0]);
    }
  }

  /** `KvStateMachine::parse_int64`. */
  method ParseInt64Text(value: Bytes) returns (r: Option<int>)
    ensures r == ParseInt64(value)
  {
    if value == [] {
      return None;
    }
    var position, negative := 0, false;
    if value[0] == MINUS || value[0] == PLUS {
      negative := value[0] == MINUS;
      position := 1;
      if position == |value| {
        return None;
      }
    }
    var limit := if negative then I64_MAX + 1 else I64_MAX;
    assert value[position..] == Unsign(value);
    var magnitude := ScanLoop(value, position, limit);
    ScanExact(Unsign(value), 0, limit);
    if !magnitude.Value? {
      return None;
    }
    return Some(if negative then 0 - magnitude.v else magnitude.v);
  }

  // ---- Request numbers ----

  /** Exactly the digit strings whose value is a non-zero 64-bit number. */
  function ParseRequestNumber(t: Bytes): Option<nat> {
    if t != [] && AllDigits(t) && 0 < Fold(0, t) < U64 then Some(Fold(0, t)) else None
  }

  lemma RequestNumberOfPrint(n: nat)
    requires 0 < n < U64
    ensures ParseRequestNumber(Print(n)) == Some(n)
  {
    FoldPrint(n);
  }

  /** `parse_request_number` of the command service. */
  method ParseRequestText(text: Bytes) returns (r: Option<nat>)
    ensures r == ParseRequestNumber(text)
  {
    if text == [] {
      return None;
    }
    assert text[0..] == text;
    var value := ScanLoop(text, 0, U64 - 1);
    ScanExact(text, 0, U64 - 1);
    if !value.Value? || value.v == 0 {
      return None;
    }
    return Some(value.v);
  }
}
