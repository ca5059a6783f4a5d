/** The encoder, and the proof that the parser inverts it and never mistakes a part of an
    encoding for anything but a part. */
module RespRoundTrip {
  import opened Bytes
  import opened Decimal
  import opened Resp

  const CRLF: Bytes := [13, 10]

  predicate NoNewline(t: Bytes) {
    forall i :: 0 <= i < |t| ==> t[i] != CR && t[i] != LF
  }

  /** The values the encoder accepts: no line break in a simple string or an error. */
  predicate Clean(v: Value) {
    match v
    case Simple(t) => NoNewline(t)
    case Error(t) => NoNewline(t)
    case Array(items) => forall i :: 0 <= i < |items| ==> Clean(items[i])
    case _ => true
  }

  /** The texts of the simple strings and errors inside the value. */
  function LineTexts(v: Value): set<Bytes> {
    match v
    case Simple(t) => {t}
    case Error(t) => {t}
    case Array(items) => set i, t | 0 <= i < |items| && t in LineTexts(items[i]) :: t
    case _ => {}
  }

  /** The encoder accepts exactly the values none of whose lines contains a line break. */
  lemma {:induction false} CleanMeans(v: Value)
    ensures Clean(v) <==> forall t :: t in LineTexts(v) ==> CR !in t && LF !in t
  {
    match v {
      case Array(items) =>
        forall i | 0 <= i < |items|
          ensures Clean(items[i]) <==> forall t :: t in LineTexts(items[i]) ==> CR !in t && LF !in t
        {
          CleanMeans(items[i]);
        }
        if forall t :: t in LineTexts(v) ==> CR !in t && LF !in t {
          forall i | 0 <= i < |items|
            ensures Clean(items[i])
          {
            assert forall t :: t in LineTexts(items[i]) ==> t in LineTexts(v);
          }
        }
      case Simple(t) => LineBreaks(t);
      case Error(t) => LineBreaks(t);
      case _ =>
    }
  }

  lemma LineBreaks(t: Bytes)
    ensures NoNewline(t) <==> CR !in t && LF !in t
  {
  }

  function NumberLine(prefix: byte, n: int): Bytes {
    [prefix] + (PrintInt(n) + CRLF)
  }

  function Encode(v: Value): (b: Bytes)
    ensures b != []
    decreases v, 0
  {
    match v
    case Simple(t) => [PLUS] + (t + CRLF)
    case Error(t) => [MINUS] + (t + CRLF)
    case Integer(n) => NumberLine(COLON, n)
    case Bulk(t) => NumberLine(DOLLAR, |t|) + (t + CRLF)
    case NullBulk => NumberLine(DOLLAR, -1)
    case Array(items) => NumberLine(STAR, |items|) + EncodeItems(items)
  }

  function EncodeItems(items: seq<Value>): Bytes
    decreases items
  {
    if items == [] then [] else Encode(items[0]) + EncodeItems(items[1..])
  }

  /** Within the parser's limits at nesting level `depth`. */
  predicate Fits(v: Value, depth: nat, limits: Limits) {
    && depth <= limits.maxDepth
    && match v
       case Simple(t) => NoNewline(t)
       case Error(t) => NoNewline(t)
       case Integer(n) => I64_MIN <= n <= I64_MAX
       case Bulk(t) => |t| <= limits.maxSize
       case NullBulk => true
       case Array(items) =>
         |items| <= limits.maxSize / 3 && forall i :: 0 <= i < |items| ==> Fits(items[i], depth + 1, limits)
  }

  // ---- Lines ----

  lemma {:induction false} FindInLine(t: Bytes, rest: Bytes)
    requires NoNewline(t)
    ensures FindLf(t + CRLF + rest) == |t| + 1 && FindCrLf(t + CRLF + rest) == |t|
    decreases t
  {
    var s := t + CRLF + rest;
    if t == [] {
      assert s[0] == CR && s[1] == LF;
      assert FindLf(s[1..]) == 0;
    } else {
      assert s[1..] == t[1..] + CRLF + rest;
      FindInLine(t[1..], rest);
    }
  }

  lemma {:induction false} FindNothing(s: Bytes)
    requires LF !in s
    ensures FindLf(s) == |s| && FindCrLf(s) == |s|
    decreases s
  {
    if s != [] {
      FindNothing(s[1..]);
    }
  }

  lemma LineRead(t: Bytes, rest: Bytes)
    requires NoNewline(t)
    ensures ReadLine(t + CRLF + rest) == Done(t, |t| + 2)
  {
    hide FindLf, FindCrLf;
    FindInLine(t, rest);
    assert (t + CRLF + rest)[..|t|] == t;
  }

  lemma LineCut(t: Bytes, k: nat)
    requires NoNewline(t) && k < |t| + 2
    ensures ReadLine((t + CRLF)[..k]) == More
  {
    hide FindLf, FindCrLf;
    var cut := (t + CRLF)[..k];
    assert LF !in cut by {
      assert forall i :: 0 <= i < k ==> cut[i] == if i < |t| then t[i] else CR;
    }
    FindNothing(cut);
  }

  // ---- Numbers ----

  lemma PrintIntClean(n: int)
    ensures NoNewline(PrintInt(n)) && PrintInt(n) != []
  {
    if n < 0 {
      assert forall i :: 0 < i < |PrintInt(n)| ==> PrintInt(n)[i] == Print(-n)[i - 1];
    }
  }

  lemma ParseNumberOfPrint(n: int)
    requires I64_MIN <= n <= I64_MAX
    ensures ParseNumber(PrintInt(n)) == Done(n, |PrintInt(n)|)
  {
    var text := PrintInt(n);
    var digits := Print(if n < 0 then -n else n);
    var limit := if n < 0 then I64_MAX + 1 else I64_MAX;
    FoldPrint(if n < 0 then -n else n);
    ScanExact(digits, 0, limit);
    if n < 0 {
      assert text[1..] == digits;
    } else {
      assert IsDigit(text[0]);
    }
  }

  lemma NumberRead(prefix: byte, n: int, rest: Bytes)
    requires I64_MIN <= n <= I64_MAX
    ensures var s := NumberLine(prefix, n) + rest;
            s[0] == prefix && ReadNumber(s[1..]) == Done(n, |NumberLine(prefix, n)| - 1)
  {
    hide ReadLine, ParseNumber;
    PrintIntClean(n);
    ParseNumberOfPrint(n);
    LineRead(PrintInt(n), rest);
    assert (NumberLine(prefix, n) + rest)[1..] == PrintInt(n) + CRLF + rest;
  }

  lemma NumberCut(prefix: byte, n: int, k: nat)
    requires 0 < k < |NumberLine(prefix, n)|
    ensures var s := NumberLine(prefix, n)[..k];
            s[0] == prefix && ReadNumber(s[1..]) == More
  {
    hide ReadLine, ParseNumber;
    PrintIntClean(n);
    LineCut(PrintInt(n), k - 1);
    assert NumberLine(prefix, n)[..k][1..] == (PrintInt(n) + CRLF)[..k - 1];
  }

  // ---- Round trip ----

  lemma BulkRoundTrip(t: Bytes, limits: Limits, rest: Bytes)
    requires |t| <= limits.maxSize <= I64_MAX
    ensures ParseBulk(Encode(Bulk(t)) + rest, limits) == Done(Bulk(t), |Encode(Bulk(t))|)
  {
    hide ReadNumber, NumberLine;
    var head := NumberLine(DOLLAR, |t|);
    var s := Encode(Bulk(t)) + rest;
    assert s == head + (t + CRLF + rest);
    NumberRead(DOLLAR, |t|, t + CRLF + rest);
    var end := |head| + |t|;
    assert s[end - |t|..end] == t && s[end] == CR && s[end + 1] == LF;
  }

  lemma NullRoundTrip(limits: Limits, rest: Bytes)
    ensures ParseBulk(Encode(NullBulk) + rest, limits) == Done(NullBulk, |Encode(NullBulk)|)
  {
    hide ReadNumber, NumberLine;
    NumberRead(DOLLAR, -1, rest);
  }

  /** Parsing an encoding followed by anything returns the value and leaves exactly the rest. */
  lemma {:induction false} RoundTrip(v: Value, depth: nat, limits: Limits, rest: Bytes)
    requires Fits(v, depth, limits) && limits.maxSize <= I64_MAX
    ensures ParseValue(Encode(v) + rest, depth, limits) == Done(v, |Encode(v)|)
    decreases v, 0
  {
    hide ReadLine, ReadNumber, ParseBulk, ParseItems, NumberLine;
    var s := Encode(v) + rest;
    match v {
      case Simple(t) =>
        assert s[1..] == t + CRLF + rest;
        LineRead(t, rest);
      case Error(t) =>
        assert s[1..] == t + CRLF + rest;
        LineRead(t, rest);
      case Integer(n) => NumberRead(COLON, n, rest);
      case Bulk(t) =>
        BulkRoundTrip(t, limits, rest);
        assert s == NumberLine(DOLLAR, |t|) + (t + CRLF + rest);
        NumberRead(DOLLAR, |t|, t + CRLF + rest);
      case NullBulk =>
        NullRoundTrip(limits, rest);
        NumberRead(DOLLAR, -1, rest);
      case Array(items) =>
        var head := NumberLine(STAR, |items|);
        assert s == head + (EncodeItems(items) + rest);
        NumberRead(STAR, |items|, EncodeItems(items) + rest);
        assert s[|head|..] == EncodeItems(items) + rest;
        ItemsRoundTrip(items, depth + 1, limits, rest);
    }
  }

  lemma {:induction false} ItemsRoundTrip(items: seq<Value>, depth: nat, limits: Limits, rest: Bytes)
    requires (forall i :: 0 <= i < |items| ==> Fits(items[i], depth, limits)) && limits.maxSize <= I64_MAX
    ensures ParseItems(EncodeItems(items) + rest, |items|, depth, limits) == Done(items, |EncodeItems(items)|)
    decreases items, 1
  {
    hide ParseValue, Encode, Fits;
    if items != [] {
      var tail := EncodeItems(items[1..]) + rest;
      var s := EncodeItems(items) + rest;
      assert s == Encode(items[0]) + tail;
      RoundTrip(items[0], depth, limits, tail);
      assert s[|Encode(items[0])|..] == tail;
      ItemsRoundTrip(items[1..], depth, limits, rest);
      assert [items[0]] + items[1..] == items;
    }
  }

  // ---- Strict prefixes ----

  lemma BulkCut(t: Bytes, limits: Limits, k: nat)
    requires |t| <= limits.maxSize <= I64_MAX && 0 < k < |Encode(Bulk(t))|
    ensures Encode(Bulk(t))[..k][0] == DOLLAR && ParseBulk(Encode(Bulk(t))[..k], limits) == More
  {
    hide ReadNumber, NumberLine;
    var head := NumberLine(DOLLAR, |t|);
    var cut := Encode(Bulk(t))[..k];
    if k < |head| {
      assert cut == head[..k];
      NumberCut(DOLLAR, |t|, k);
    } else {
      CutSecond(head, t + CRLF, k);
      NumberRead(DOLLAR, |t|, (t + CRLF)[..k - |head|]);
    }
  }

  /** Every strict prefix of an encoding asks for more bytes and is never an error. */
  lemma {:induction false} PrefixAsksForMore(v: Value, depth: nat, limits: Limits, k: nat)
    requires Fits(v, depth, limits) && limits.maxSize <= I64_MAX && k < |Encode(v)|
    ensures ParseValue(Encode(v)[..k], depth, limits) == More
    decreases v, 0
  {
    hide ReadLine, ReadNumber, ParseBulk, ParseItems, NumberLine;
    var cut := Encode(v)[..k];
    if k > 0 {
      match v {
        case Simple(t) =>
          LineCut(t, k - 1);
          assert cut[1..] == (t + CRLF)[..k - 1];
        case Error(t) =>
          LineCut(t, k - 1);
          assert cut[1..] == (t + CRLF)[..k - 1];
        case Integer(n) => NumberCut(COLON, n, k);
        case Bulk(t) => BulkCut(t, limits, k);
        case NullBulk =>
          NumberCut(DOLLAR, -1, k);
          NullCut(limits, k);
        case Array(items) =>
          var head := NumberLine(STAR, |items|);
          if k < |head| {
            assert cut == head[..k];
            NumberCut(STAR, |items|, k);
          } else {
            CutSecond(head, EncodeItems(items), k);
            NumberRead(STAR, |items|, EncodeItems(items)[..k - |head|]);
            assert cut[|head|..] == EncodeItems(items)[..k - |head|];
            ItemsPrefix(items, depth + 1, limits, k - |head|);
          }
      }
    }
  }

  lemma NullCut(limits: Limits, k: nat)
    requires 0 < k < |Encode(NullBulk)|
    ensures ParseBulk(Encode(NullBulk)[..k], limits) == More
  {
    hide ReadNumber, NumberLine;
    NumberCut(DOLLAR, -1, k);
  }

  lemma {:induction false} ItemsPrefix(items: seq<Value>, depth: nat, limits: Limits, k: nat)
    requires (forall i :: 0 <= i < |items| ==> Fits(items[i], depth, limits)) && limits.maxSize <= I64_MAX
    requires k < |EncodeItems(items)|
    ensures ParseItems(EncodeItems(items)[..k], |items|, depth, limits) == More
    decreases items, 1
  {
    hide ParseValue, Encode, Fits;
    var first, rest := Encode(items[0]), EncodeItems(items[1..]);
    var cut := EncodeItems(items)[..k];
    if k < |first| {
      assert cut == first[..k];
      PrefixAsksForMore(items[0], depth, limits, k);
    } else {
      CutSecond(first, rest, k);
      RoundTrip(items[0], depth, limits, rest[..k - |first|]);
      assert cut[|first|..] == rest[..k - |first|];
      ItemsPrefix(items[1..], depth, limits, k - |first|);
    }
  }
}
