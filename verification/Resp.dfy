/** The RESP2 subset: values, the encoder, and the depth-bounded incremental parser. The
    parser's functions work on the unread rest of the buffer, which is what an offset into a
    constant buffer denotes. */
module Resp {
  import opened Bytes
  import opened Decimal

  const CR: byte := 13
  const LF: byte := 10
  const COLON: byte := 58
  const DOLLAR: byte := 36
  const STAR: byte := 42

  datatype Value =
    | Simple(text: Bytes)
    | Error(text: Bytes)
    | Integer(integer: int)
    | Bulk(text: Bytes)
    | NullBulk
    | Array(items: seq<Value>)

  datatype ProtocolError =
    | BareNewline | EmptyNumber | PlusSign | BadNumber | NonDecimalNumber | NumberOverflow
    | BulkLength | BulkTrailer | ArrayLength | TooDeep | UnknownPrefix

  /** More input is needed, the input is malformed, or a value ends after `used` bytes. */
  datatype Parse<+T> = More | Bad(error: ProtocolError) | Done(value: T, used: nat)

  datatype Limits = Limits(maxSize: nat, maxDepth: nat)

  // ---- Lines and numbers ----

  /** Offset of the first line feed, or the length if there is none. */
  function FindLf(s: Bytes): (p: nat)
    ensures p <= |s|
  {
    if s == [] || s[0] == LF then 0 else 1 + FindLf(s[1..])
  }

  /** Offset of the first CR LF pair, or the length if there is none. */
  function FindCrLf(s: Bytes): (p: nat)
    ensures p == |s| || p + 2 <= |s|
  {
    if s == [] then 0
    else if |s| >= 2 && s[0] == CR && s[1] == LF then 0
    else 1 + FindCrLf(s[1..])
  }

  function ReadLine(s: Bytes): (r: Parse<Bytes>)
    ensures r.Done? ==> r.used <= |s|
  {
    var end, newline := FindCrLf(s), FindLf(s);
    if newline < |s| && (end == |s| || newline < end + 1) then Bad(BareNewline)
    else if end == |s| then More
    else Done(s[..end], end + 2)
  }

  function ParseNumber(text: Bytes): Parse<int> {
    if text == [] then Bad(EmptyNumber)
    else if text[0] == PLUS then Bad(PlusSign)
    else
      var negative := text[0] == MINUS;
      var digits := if negative then text[1..] else text;
      if digits == [] then Bad(BadNumber) else
      match Scan(digits, 0, if negative then I64_MAX + 1 else I64_MAX)
      case NonDecimal => Bad(NonDecimalNumber)
      case Overflowing => Bad(NumberOverflow)
      case Value(v) => Done(if negative then 0 - v else v, |text|)
  }

  /** Accepted are exactly the decimal texts, signed by a minus or not at all, whose value is an
      int64: both bounds are reachable and nothing beyond them is. */
  lemma ParseNumberExact(text: Bytes)
    ensures ParseNumber(text).Done? <==>
              IsSigned(text) && text[0] != PLUS && I64_MIN <= SignedValue(text) <= I64_MAX
    ensures ParseNumber(text).Done? ==> ParseNumber(text) == Done(SignedValue(text), |text|)
    ensures !ParseNumber(text).More?
  {
    if text != [] && text[0] != PLUS {
      ScanExact(Unsign(text), 0, if text[0] == MINUS then I64_MAX + 1 else I64_MAX);
    }
  }

  /** A line holding a number; `used` counts the line and its terminator. */
  function ReadNumber(s: Bytes): (r: Parse<int>)
    ensures r.Done? ==> r.used <= |s|
  {
    match ReadLine(s)
    case More => More
    case Bad(e) => Bad(e)
    case Done(line, used) =>
      match ParseNumber(line)
      case Done(n, _) => Done(n, used)
      case Bad(e) => Bad(e)
      case More => More
  }

  // ---- Values ----

  /** A line of text after its prefix byte. */
  function ParseLine(s: Bytes): Parse<Bytes>
    requires s != []
  {
    match ReadLine(s[1..])
    case Done(line, used) => Done(line, 1 + used)
    case Bad(e) => Bad(e)
    case More => More
  }

  function ParseBulk(s: Bytes, limits: Limits): Parse<Value>
    requires s != []
  {
    match ReadNumber(s[1..])
    case More => More
    case Bad(e) => Bad(e)
    case Done(length, used) =>
      if length == -1 then Done(NullBulk, 1 + used)
      else if length < 0 || length > limits.maxSize then Bad(BulkLength)
      else
        var end := 1 + used + length;
        if end > |s| || |s| - end < 2 then More
        else if s[end] != CR || s[end + 1] != LF then Bad(BulkTrailer)
        else Done(Bulk(s[end - length..end]), end + 2)
  }

  function ParseValue(s: Bytes, depth: nat, limits: Limits): (r: Parse<Value>)
    ensures r.Done? ==> 0 < r.used <= |s|
    decreases limits.maxDepth + 1 - depth, 0
  {
    if depth > limits.maxDepth then Bad(TooDeep)
    else if s == [] then More
    else if s[0] == PLUS || s[0] == MINUS then
      match ParseLine(s)
      case Done(line, used) => Done(if s[0] == PLUS then Simple(line) else Error(line), used)
      case Bad(e) => Bad(e)
      case More => More
    else if s[0] == COLON then
      match ReadNumber(s[1..])
      case Done(n, used) => Done(Integer(n), 1 + used)
      case Bad(e) => Bad(e)
      case More => More
    else if s[0] == DOLLAR then ParseBulk(s, limits)
    else if s[0] == STAR then
      match ReadNumber(s[1..])
      case More => More
      case Bad(e) => Bad(e)
      case Done(count, used) =>
        if count < 0 || count > limits.maxSize / 3 then Bad(ArrayLength)
        else
          match ParseItems(s[1 + used..], count, depth + 1, limits)
          case Done(items, size) => Done(Array(items), 1 + used + size)
          case Bad(e) => Bad(e)
          case More => More
    else Bad(UnknownPrefix)
  }

  /** `count` values one after the other. */
  function ParseItems(s: Bytes, count: nat, depth: nat, limits: Limits): (r: Parse<seq<Value>>)
    ensures r.Done? ==> r.used <= |s|
    decreases limits.maxDepth + 1 - depth, count + 1
  {
    if count == 0 then Done([], 0)
    else
      match ParseValue(s, depth, limits)
      case More => More
      case Bad(e) => Bad(e)
      case Done(first, used) =>
        match ParseItems(s[used..], count - 1, depth, limits)
        case Done(rest, size) => Done([first] + rest, used + size)
        case Bad(e) => Bad(e)
        case More => More
  }

  // ---- Stability under extension ----

  lemma {:induction false} FindExtend(s: Bytes, more: Bytes)
    ensures FindLf(s) < |s| ==> FindLf(s + more) == FindLf(s)
    ensures FindCrLf(s) < |s| ==> FindCrLf(s + more) == FindCrLf(s)
    ensures FindLf(s) == |s| ==> FindLf(s + more) >= |s|
    decreases s
  {
    if s != [] {
      FindExtend(s[1..], more);
      assert (s + more)[1..] == s[1..] + more;
    }
  }

  /** The first LF decides the line: it ends it if a CR precedes it, and is an error otherwise. */
  lemma {:induction false} FindRelation(s: Bytes)
    ensures FindCrLf(s) < |s| ==> FindCrLf(s) + 2 <= |s| && s[FindCrLf(s)] == CR && s[FindCrLf(s) + 1] == LF
    ensures FindLf(s) < |s| ==> s[FindLf(s)] == LF && FindLf(s) <= FindCrLf(s) + 1
    ensures FindCrLf(s) < |s| ==> FindLf(s) < |s|
    ensures FindLf(s) < |s| && 0 < FindLf(s) && s[FindLf(s) - 1] == CR ==> FindCrLf(s) == FindLf(s) - 1
    ensures FindLf(s) < |s| && (FindLf(s) == 0 || s[FindLf(s) - 1] != CR) ==> FindCrLf(s) > FindLf(s)
    decreases s
  {
    if s != [] {
      FindRelation(s[1..]);
      if |s| >= 2 && s[0] == CR && s[1] == LF {
        assert FindLf(s) == 1 + FindLf(s[1..]) == 1;
      }
    }
  }

  lemma ReadLineStable(s: Bytes, more: Bytes)
    ensures !ReadLine(s).More? ==> ReadLine(s + more) == ReadLine(s)
  {
    hide FindLf, FindCrLf;
    FindExtend(s, more);
    FindRelation(s);
    FindRelation(s + more);
    var p := FindLf(s);
    if p < |s| {
      assert (s + more)[p] == s[p];
      assert p > 0 ==> (s + more)[p - 1] == s[p - 1];
      assert FindCrLf(s) < |s| ==> (s + more)[..FindCrLf(s)] == s[..FindCrLf(s)];
    }
  }

  lemma ReadNumberStable(s: Bytes, more: Bytes)
    ensures !ReadNumber(s).More? ==> ReadNumber(s + more) == ReadNumber(s)
  {
    hide ReadLine, ParseNumber;
    ReadLineStable(s, more);
  }

  lemma ParseBulkStable(s: Bytes, limits: Limits, more: Bytes)
    requires s != []
    ensures !ParseBulk(s, limits).More? ==> ParseBulk(s + more, limits) == ParseBulk(s, limits)
  {
    hide ReadNumber;
    assert (s + more)[1..] == s[1..] + more;
    ReadNumberStable(s[1..], more);
    match ReadNumber(s[1..]) {
      case Done(length, used) =>
        var end := 1 + used + length;
        assert 0 <= length && end <= |s| ==> (s + more)[end - length..end] == s[end - length..end];
      case _ =>
    }
  }

  /** A value or an error never changes when bytes are appended. */
  lemma {:induction false} ParseStable(s: Bytes, depth: nat, limits: Limits, more: Bytes)
    ensures !ParseValue(s, depth, limits).More? ==> ParseValue(s + more, depth, limits) == ParseValue(s, depth, limits)
    decreases limits.maxDepth + 1 - depth, 0
  {
    hide ReadLine, ReadNumber, ParseBulk, ParseItems;
    if depth <= limits.maxDepth && s != [] {
      var t := s + more;
      assert t[1..] == s[1..] + more && t[0] == s[0];
      ReadLineStable(s[1..], more);
      ReadNumberStable(s[1..], more);
      ParseBulkStable(s, limits, more);
      if s[0] == STAR && ReadNumber(s[1..]).Done? {
        var n := ReadNumber(s[1..]);
        if 0 <= n.value <= limits.maxSize / 3 {
          assert t[1 + n.used..] == s[1 + n.used..] + more;
          ItemsStable(s[1 + n.used..], n.value, depth + 1, limits, more);
        }
      }
    }
  }

  lemma {:induction false} ItemsStable(s: Bytes, count: nat, depth: nat, limits: Limits, more: Bytes)
    ensures !ParseItems(s, count, depth, limits).More? ==>
              ParseItems(s + more, count, depth, limits) == ParseItems(s, count, depth, limits)
    decreases limits.maxDepth + 1 - depth, count + 1
  {
    hide ParseValue;
    if count > 0 {
      ParseStable(s, depth, limits, more);
      var first := ParseValue(s, depth, limits);
      if first.Done? {
        assert (s + more)[first.used..] == s[first.used..] + more;
        ItemsStable(s[first.used..], count - 1, depth, limits, more);
      }
    }
  }

  // ---- Feeding a stream in pieces ----

  /** How draining a buffer ends: with unread bytes, or at a protocol error. */
  datatype Ending = Left(rest: Bytes) | Failed(error: ProtocolError)
  datatype Drained = Drained(values: seq<Value>, ending: Ending)

  /** `next` until it asks for more or throws. */
  function Drain(s: Bytes, limits: Limits): Drained
    decreases |s|
  {
    match ParseValue(s, 0, limits)
    case More => Drained([], Left(s))
    case Bad(e) => Drained([], Failed(e))
    case Done(v, used) =>
      var rest := Drain(s[used..], limits);
      Drained([v] + rest.values, rest.ending)
  }

  /** What has been drained, followed by draining what was left together with more bytes. */
  function Continued(d: Drained, more: Bytes, limits: Limits): Drained {
    if d.ending.Failed? then d else
    var after := Drain(d.ending.rest + more, limits);
    Drained(d.values + after.values, after.ending)
  }

  /** Draining a longer stream continues where draining a part of it stopped. */
  lemma {:induction false} DrainExtend(s: Bytes, more: Bytes, limits: Limits)
    ensures Drain(s + more, limits) == Continued(Drain(s, limits), more, limits)
    decreases |s|
  {
    hide ParseValue;
    ParseStable(s, 0, limits, more);
    match ParseValue(s, 0, limits) {
      case More =>
        var after := Drain(s + more, limits);
        assert [] + after.values == after.values;
      case Bad(e) =>
      case Done(v, used) =>
        DrainExtend(s[used..], more, limits);
        assert (s + more)[used..] == s[used..] + more;
        var d := Drain(s[used..], limits);
        if d.ending.Left? {
          var after := Drain(d.ending.rest + more, limits);
          assert [v] + (d.values + after.values) == [v] + d.values + after.values;
        }
    }
  }

  function Concat(chunks: seq<Bytes>): Bytes {
    if chunks == [] then [] else Concat(chunks[..|chunks| - 1]) + chunks[|chunks| - 1]
  }

  /** The connection loop: feed a packet, then drain; `None` once a feed exceeds the limit.
      Nothing is read after a protocol error. */
  function Serve(chunks: seq<Bytes>, limits: Limits): Option<Drained> {
    if chunks == [] then Some(Drained([], Left([]))) else
    var chunk := chunks[|chunks| - 1];
    match Serve(chunks[..|chunks| - 1], limits)
    case None => None
    case Some(sofar) =>
      match sofar.ending
      case Failed(_) => Some(sofar)
      case Left(buffer) =>
        if |buffer| + |chunk| > limits.maxSize then None
        else
          var d := Drain(buffer + chunk, limits);
          Some(Drained(sofar.values + d.values, d.ending))
  }

  /** However a stream is cut into packets, if no feed overflows then serving it gives what
      draining the whole stream gives. */
  lemma {:induction false} ServeIsDrain(chunks: seq<Bytes>, limits: Limits)
    requires Serve(chunks, limits).Some?
    ensures Serve(chunks, limits).value == Drain(Concat(chunks), limits)
  {
    hide ParseValue;
    if chunks == [] {
      NothingToDrain(limits);
    } else {
      var before, chunk := chunks[..|chunks| - 1], chunks[|chunks| - 1];
      ServeIsDrain(before, limits);
      DrainExtend(Concat(before), chunk, limits);
    }
  }

  lemma NothingToDrain(limits: Limits)
    ensures Drain([], limits) == Drained([], Left([]))
  {
  }

  /** Packet-boundary independence: two splittings of one stream give the same values, the same
      first error and the same leftover. */
  lemma PacketBoundaries(a: seq<Bytes>, b: seq<Bytes>, limits: Limits)
    requires Concat(a) == Concat(b) && Serve(a, limits).Some? && Serve(b, limits).Some?
    ensures Serve(a, limits) == Serve(b, limits)
  {
    ServeIsDrain(a, limits);
    ServeIsDrain(b, limits);
  }
}
