/** The parser object with its growing buffer, the connection loop that drives it, and the
    encoder and number loops of the source. */
module RespParser {
  import opened Bytes
  import opened Decimal
  import opened Resp
  import opened RespRoundTrip

  /** `RespParser::parse_number`. */
  method ParseNumberText(text: Bytes) returns (r: Parse<int>)
    ensures r == ParseNumber(text)
  {
    if text == [] {
      return Bad(EmptyNumber);
    }
    var position, negative := 0, false;
    if text[0] == MINUS {
      negative := true;
      position := 1;
    } else if text[0] == PLUS {
      return Bad(PlusSign);
    }
    if position == |text| {
      return Bad(BadNumber);
    }
    var limit := if negative then I64_MAX + 1 else I64_MAX;
    var value := ScanLoop(text, position, limit);
    assert text[position..] == if negative then text[1..] else text;
    match value {
      case NonDecimal => return Bad(NonDecimalNumber);
      case Overflowing => return Bad(NumberOverflow);
      case Value(v) => return Done(if negative then 0 - v else v, |text|);
    }
  }

  /** `encode_resp`: refuses line breaks in simple strings and errors, accumulates arrays. */
  method EncodeValue(v: Value) returns (r: Option<Bytes>)
    ensures r == if Clean(v) then Some(Encode(v)) else None
    decreases v
  {
    hide NumberLine;
    match v {
      case Simple(t) => return if NoNewline(t) then Some([PLUS] + (t + CRLF)) else None;
      case Error(t) => return if NoNewline(t) then Some([MINUS] + (t + CRLF)) else None;
      case Integer(n) => return Some(NumberLine(COLON, n));
      case Bulk(t) => return Some(NumberLine(DOLLAR, |t|) + (t + CRLF));
      case NullBulk => return Some(NumberLine(DOLLAR, -1));
      case Array(items) =>
        var output := NumberLine(STAR, |items|);
        for i := 0 to |items|
          invariant output + EncodeItems(items[i..]) == Encode(v)
          invariant forall j :: 0 <= j < i ==> Clean(items[j])
        {
          var child := EncodeValue(items[i]);
          if child.None? {
            return None;
          }
          assert items[i..][0] == items[i] && items[i..][1..] == items[i + 1..];
          output := output + child.value;
        }
        assert output + [] == output;
        return Some(output);
    }
  }

  class RespParser {
    const limits: Limits
    var buffer: Bytes

    constructor (bounds: Limits)
      requires bounds.maxSize >= 16 && bounds.maxDepth > 0
      ensures limits == bounds && buffer == []
    {
      limits := bounds;
      buffer := [];
    }

    method Feed(data: Bytes) returns (ok: bool)
      requires |buffer| <= limits.maxSize
      modifies this
      ensures ok <==> |old(buffer)| + |data| <= limits.maxSize
      ensures buffer == if ok then old(buffer) + data else old(buffer)
    {
      if |data| > limits.maxSize - |buffer| {
        return false;
      }
      buffer := buffer + data;
      return true;
    }

    /** Consumes exactly one complete value, or nothing. */
    method Next() returns (r: Parse<Value>)
      modifies this
      ensures r == ParseValue(old(buffer), 0, limits)
      ensures buffer == if r.Done? then old(buffer)[r.used..] else old(buffer)
    {
      if buffer == [] {
        return More;
      }
      r := ParseValue(buffer, 0, limits);
      if r.Done? {
        buffer := buffer[r.used..];
      }
    }

    /** Values until the parser asks for more or fails. */
    method DrainAll() returns (values: seq<Value>, failure: Option<ProtocolError>)
      modifies this
      ensures var d := Drain(old(buffer), limits);
              && values == d.values && |buffer| <= |old(buffer)|
              && d.ending == if failure.Some? then Failed(failure.value) else Left(buffer)
    {
      hide ParseValue;
      values, failure := [], None;
      ghost var start := buffer;
      while true
        invariant |buffer| <= |start|
        invariant var rest := Drain(buffer, limits);
                  Drain(start, limits) == Drained(values + rest.values, rest.ending)
        decreases |buffer|
      {
        ghost var before := Drain(buffer, limits);
        var r := Next();
        match r {
          case More => return;
          case Bad(e) => return values, Some(e);
          case Done(v, used) =>
            ghost var rest := Drain(buffer, limits);
            assert values + ([v] + rest.values) == values + [v] + rest.values;
            values := values + [v];
        }
      }
    }

    /** The connection loop over the packets read from the socket. */
    method ServeAll(chunks: seq<Bytes>) returns (r: Option<Drained>)
      requires buffer == []
      modifies this
      ensures r == Serve(chunks, limits)
    {
      hide Drain;
      var values: seq<Value> := [];
      for i := 0 to |chunks|
        invariant |buffer| <= limits.maxSize
        invariant Serve(chunks[..i], limits) == Some(Drained(values, Left(buffer)))
      {
        assert chunks[..i + 1][..i] == chunks[..i];
        var ok := Feed(chunks[i]);
        if !ok {
          OverflowEnds(chunks, i + 1, limits);
          return None;
        }
        var more, failure := DrainAll();
        values := values + more;
        if failure.Some? {
          FailureEnds(chunks, i + 1, limits);
          return Some(Drained(values, Failed(failure.value)));
        }
      }
      assert chunks[..|chunks|] == chunks;
      return Some(Drained(values, Left(buffer)));
    }
  }

  lemma {:induction false} OverflowEnds(chunks: seq<Bytes>, i: nat, limits: Limits)
    requires i <= |chunks| && Serve(chunks[..i], limits) == None
    ensures Serve(chunks, limits) == None
    decreases |chunks| - i
  {
    if i == |chunks| {
      assert chunks[..i] == chunks;
    } else {
      assert chunks[..i + 1][..i] == chunks[..i];
      OverflowEnds(chunks, i + 1, limits);
    }
  }

  lemma {:induction false} FailureEnds(chunks: seq<Bytes>, i: nat, limits: Limits)
    requires i <= |chunks| && Serve(chunks[..i], limits).Some? && Serve(chunks[..i], limits).value.ending.Failed?
    ensures Serve(chunks, limits) == Serve(chunks[..i], limits)
    decreases |chunks| - i
  {
    if i == |chunks| {
      assert chunks[..i] == chunks;
    } else {
      assert chunks[..i + 1][..i] == chunks[..i];
      FailureEnds(chunks, i + 1, limits);
    }
  }
}
