/** The language the parser accepts, as a grammar on byte strings, and the proof that it accepts
    exactly that. The grammar is wider than the encoder's output: numbers may have leading zeros
    and lines may contain a CR. */
module RespGrammar {
  import opened Bytes
  import opened Decimal
  import opened Resp
  import opened RespRoundTrip

  // ---- Lines ----

  predicate OneLine(t: Bytes) {
    forall i :: 0 <= i < |t| ==> t[i] != LF
  }

  lemma {:induction false} FindLfMeans(s: Bytes)
    ensures OneLine(s[..FindLf(s)]) && (FindLf(s) < |s| ==> s[FindLf(s)] == LF)
    decreases s
  {
    if s != [] && s[0] != LF {
      FindLfMeans(s[1..]);
      var n := FindLf(s);
      assert forall i :: 1 <= i < n ==> s[i] == s[1..][..n - 1][i - 1];
    }
  }

  lemma {:induction false} FindLfAt(t: Bytes, rest: Bytes)
    requires OneLine(t)
    ensures FindLf(t + [LF] + rest) == |t| && FindLf(t) == |t|
    decreases t
  {
    if t != [] {
      FindLfAt(t[1..], rest);
      assert (t + [LF] + rest)[1..] == t[1..] + [LF] + rest;
    }
  }

  /** A line is read exactly when a CR LF ends it and no LF comes before; without any LF more input
      is needed, and a LF without a CR before it is an error. */
  lemma ReadLineExact(s: Bytes)
    ensures ReadLine(s).More? <==> OneLine(s)
    ensures forall t, used :: ReadLine(s) == Done(t, used) <==> OneLine(t) && used == |t| + 2 && t + CRLF <= s
    ensures ReadLine(s).Bad? ==>
              exists p :: 0 <= p < |s| && s[p] == LF && OneLine(s[..p]) && (p == 0 || s[p - 1] != CR)
  {
    hide FindLf, FindCrLf;
    FindRelation(s);
    FindLfMeans(s);
    var p := FindLf(s);
    if p == |s| {
      assert s[..p] == s;
      NoLine(s);
    } else {
      forall t, used
        ensures ReadLine(s) == Done(t, used) <==> OneLine(t) && used == |t| + 2 && t + CRLF <= s
      {
        LineAt(s, t, used);
      }
      assert !OneLine(s);
      assert OneLine(s[..p]) && s[p] == LF;
    }
  }

  lemma NoLine(s: Bytes)
    requires OneLine(s)
    ensures ReadLine(s).More?
    ensures forall t: Bytes :: !(t + CRLF <= s)
  {
    FindNothing(s);
    forall t: Bytes
      ensures !(t + CRLF <= s)
    {
      if |t| + 2 <= |s| {
        assert (t + CRLF)[|t| + 1] == LF != s[|t| + 1];
      }
    }
  }

  lemma LineAt(s: Bytes, t: Bytes, used: nat)
    requires FindLf(s) < |s|
    ensures ReadLine(s) == Done(t, used) <==> OneLine(t) && used == |t| + 2 && t + CRLF <= s
  {
    hide ReadLine;
    if OneLine(t) && t + CRLF <= s {
      SpelledLine(s, t);
    }
    if ReadLine(s).Done? {
      LineSpelled(s);
    }
  }

  lemma SpelledLine(s: Bytes, t: Bytes)
    requires OneLine(t) && t + CRLF <= s
    ensures ReadLine(s) == Done(t, |t| + 2)
  {
    hide FindLf, FindCrLf;
    var line, rest := t + [CR], s[|t| + 2..];
    assert OneLine(line);
    assert s == t + CRLF + rest;
    assert s == line + [LF] + rest;
    FindLfAt(line, rest);
    assert s[..|t|] == t && s[|t|] == CR;
    FindRelation(s);
  }

  lemma LineSpelled(s: Bytes)
    requires ReadLine(s).Done?
    ensures var r := ReadLine(s); OneLine(r.value) && r.used == |r.value| + 2 && r.value + CRLF <= s
  {
    hide FindLf, FindCrLf;
    FindRelation(s);
    FindLfMeans(s);
    var p := FindLf(s);
    var line := ReadLine(s).value;
    assert p == |line| + 1 && line == s[..p - 1];
    assert forall i :: 0 <= i < p - 1 ==> s[..p][i] == line[i];
    assert s == line + CRLF + s[p + 1..];
  }

  // ---- Numbers ----

  /** Decimal digits, after a minus or nothing, whose value is an int64. */
  predicate NumberText(d: Bytes, n: int) {
    IsSigned(d) && d[0] != PLUS && SignedValue(d) == n && I64_MIN <= n <= I64_MAX
  }

  lemma NumberOneLine(d: Bytes, n: int)
    requires NumberText(d, n)
    ensures OneLine(d)
  {
    hide Fold;
    forall i | 0 <= i < |d|
      ensures d[i] != LF
    {
      if d[0] == MINUS && i > 0 {
        assert IsDigit(Unsign(d)[i - 1]) && Unsign(d)[i - 1] == d[i];
      } else if d[0] != MINUS {
        assert IsDigit(Unsign(d)[i]);
      }
    }
  }

  /** `b` starts with a number line of `k` bytes: the prefix, the number and CR LF. */
  predicate NumberHead(b: Bytes, k: nat, prefix: byte, n: int) {
    && 3 <= k <= |b| && b[0] == prefix && b[k - 2] == CR && b[k - 1] == LF
    && NumberText(b[1..k - 2], n)
  }

  /** A number line is read exactly when the input starts with one. */
  lemma ReadNumberExact(s: Bytes, prefix: byte, n: int, k: nat)
    requires s != [] && s[0] == prefix && k >= 1
    ensures ReadNumber(s[1..]) == Done(n, k - 1) <==> NumberHead(s, k, prefix, n)
  {
    hide ReadLine, ParseNumber, NumberText;
    var r := s[1..];
    ReadLineExact(r);
    if NumberHead(s, k, prefix, n) {
      var d := s[1..k - 2];
      NumberOneLine(d, n);
      assert d + CRLF <= r by {
        assert r[..k - 1] == d + CRLF;
      }
      assert ReadLine(r) == Done(d, k - 1);
      assert ParseNumber(d) == Done(n, |d|) by { NumberParses(d, n); }
    }
    if ReadNumber(r) == Done(n, k - 1) {
      var d := ReadLine(r).value;
      assert d + CRLF <= r && |d| + 2 == k - 1;
      assert r[..k - 1] == d + CRLF;
      assert s[1..k - 2] == d;
      assert s[k - 2] == r[k - 3] == CR && s[k - 1] == r[k - 2] == LF;
      assert NumberText(d, n) by { ParsedNumber(d, n); }
    }
  }

  lemma NumberParses(d: Bytes, n: int)
    requires NumberText(d, n)
    ensures ParseNumber(d) == Done(n, |d|)
  {
    ParseNumberExact(d);
  }

  lemma ParsedNumber(d: Bytes, n: int)
    requires ParseNumber(d).Done? && ParseNumber(d).value == n
    ensures NumberText(d, n)
  {
    ParseNumberExact(d);
  }

  // ---- Values ----

  /** The byte string spells the value at this nesting level, within the limits. */
  ghost predicate Spells(b: Bytes, v: Value, depth: nat, limits: Limits)
    decreases v, 0
  {
    && depth <= limits.maxDepth
    && match v
       case Simple(t) => OneLine(t) && b == [PLUS] + t + CRLF
       case Error(t) => OneLine(t) && b == [MINUS] + t + CRLF
       case Integer(n) => NumberHead(b, |b|, COLON, n)
       case NullBulk => NumberHead(b, |b|, DOLLAR, -1)
       case Bulk(t) =>
         && |t| <= limits.maxSize && |b| >= |t| + 2
         && NumberHead(b, |b| - |t| - 2, DOLLAR, |t|) && b[|b| - |t| - 2..] == t + CRLF
       case Array(items) =>
         && |items| <= limits.maxSize / 3
         && exists k ::
              0 <= k <= |b| && NumberHead(b, k, STAR, |items|) && SpellsAll(b[k..], items, depth + 1, limits)
  }

  /** The byte string spells the values one after the other. */
  ghost predicate SpellsAll(b: Bytes, items: seq<Value>, depth: nat, limits: Limits)
    decreases items, 1
  {
    if items == [] then b == []
    else
      exists k ::
        0 <= k <= |b| && Spells(b[..k], items[0], depth, limits) && SpellsAll(b[k..], items[1..], depth, limits)
  }

  /** What is spelled is parsed, whatever follows. */
  lemma {:induction false} SpelledParses(b: Bytes, v: Value, depth: nat, limits: Limits, rest: Bytes)
    requires Spells(b, v, depth, limits)
    ensures ParseValue(b + rest, depth, limits) == Done(v, |b|)
    decreases v, 0
  {
    hide ReadNumber, ReadLine, NumberText, ParseItems, NumberHead;
    var s := b + rest;
    match v {
      case Simple(t) => TextParses(b, t, PLUS, rest);
      case Error(t) => TextParses(b, t, MINUS, rest);
      case Integer(n) => HeadParses(b, |b|, COLON, n, rest);
      case NullBulk => HeadParses(b, |b|, DOLLAR, -1, rest);
      case Bulk(t) =>
        var k := |b| - |t| - 2;
        HeadParses(b, k, DOLLAR, |t|, rest);
        assert s[k + |t|] == b[k..][|t|] && s[k + |t| + 1] == b[k..][|t| + 1];
        assert s[k..k + |t|] == b[k..][..|t|];
      case Array(items) =>
        var k :| 0 <= k <= |b| && NumberHead(b, k, STAR, |items|) && SpellsAll(b[k..], items, depth + 1, limits);
        HeadParses(b, k, STAR, |items|, rest);
        assert s[k..] == b[k..] + rest;
        AllSpelledParse(b[k..], items, depth + 1, limits, rest);
    }
  }

  lemma {:induction false} AllSpelledParse(b: Bytes, items: seq<Value>, depth: nat, limits: Limits, rest: Bytes)
    requires SpellsAll(b, items, depth, limits)
    ensures ParseItems(b + rest, |items|, depth, limits) == Done(items, |b|)
    decreases items, 1
  {
    hide ParseValue, Spells;
    if items != [] {
      var k :|
        0 <= k <= |b| && Spells(b[..k], items[0], depth, limits) && SpellsAll(b[k..], items[1..], depth, limits);
      assert b + rest == b[..k] + (b[k..] + rest);
      SpelledParses(b[..k], items[0], depth, limits, b[k..] + rest);
      assert (b + rest)[k..] == b[k..] + rest;
      AllSpelledParse(b[k..], items[1..], depth, limits, rest);
      assert [items[0]] + items[1..] == items;
    }
  }

  lemma TextParses(b: Bytes, t: Bytes, prefix: byte, rest: Bytes)
    requires OneLine(t) && b == [prefix] + t + CRLF
    ensures (b + rest)[0] == prefix && ReadLine((b + rest)[1..]) == Done(t, |b| - 1)
  {
    hide ReadLine;
    var r := (b + rest)[1..];
    assert r == t + CRLF + rest;
    assert t + CRLF <= r;
    ReadLineExact(r);
  }

  lemma HeadParses(b: Bytes, k: nat, prefix: byte, n: int, rest: Bytes)
    requires NumberHead(b, k, prefix, n)
    ensures k >= 3 && (b + rest)[0] == prefix && ReadNumber((b + rest)[1..]) == Done(n, k - 1)
  {
    hide ReadNumber, NumberText;
    assert (b + rest)[1..k - 2] == b[1..k - 2];
    ReadNumberExact(b + rest, prefix, n, k);
  }

  /** What is parsed is spelled by the bytes it used. */
  lemma {:induction false} ParsedSpells(s: Bytes, depth: nat, limits: Limits)
    requires ParseValue(s, depth, limits).Done?
    ensures var r := ParseValue(s, depth, limits); Spells(s[..r.used], r.value, depth, limits)
    decreases limits.maxDepth + 1 - depth, 0
  {
    hide ReadNumber, ReadLine, NumberText, ParseItems, NumberHead, SpellsAll;
    var r := ParseValue(s, depth, limits);
    if s[0] == PLUS || s[0] == MINUS {
      TextSpells(s);
    } else if s[0] == COLON {
      HeadSpells(s, COLON, r.used);
    } else if s[0] == DOLLAR {
      BulkSpells(s, depth, limits);
    } else {
      var head := ReadNumber(s[1..]);
      var k := 1 + head.used;
      HeadSpells(s, STAR, r.used);
      AllParsedSpell(s[k..], head.value, depth + 1, limits);
      assert s[..r.used][k..] == s[k..][..r.used - k];
    }
  }

  lemma {:induction false} AllParsedSpell(s: Bytes, count: nat, depth: nat, limits: Limits)
    requires ParseItems(s, count, depth, limits).Done?
    ensures var r := ParseItems(s, count, depth, limits);
            |r.value| == count && SpellsAll(s[..r.used], r.value, depth, limits)
    decreases limits.maxDepth + 1 - depth, count + 1
  {
    hide ParseValue, Spells;
    if count > 0 {
      var r := ParseItems(s, count, depth, limits);
      var first := ParseValue(s, depth, limits);
      ParsedSpells(s, depth, limits);
      AllParsedSpell(s[first.used..], count - 1, depth, limits);
      var b := s[..r.used];
      assert b[..first.used] == s[..first.used];
      assert b[first.used..] == s[first.used..][..r.used - first.used];
      assert r.value[1..] == ParseItems(s[first.used..], count - 1, depth, limits).value;
    }
  }

  lemma TextSpells(s: Bytes)
    requires s != [] && ReadLine(s[1..]).Done?
    ensures var line := ReadLine(s[1..]);
            line.used < |s| && OneLine(line.value) && s[..1 + line.used] == [s[0]] + line.value + CRLF
  {
    hide ReadLine;
    var line := ReadLine(s[1..]);
    ReadLineExact(s[1..]);
    assert line.value + CRLF <= s[1..];
    assert s[1..][..line.used] == line.value + CRLF;
  }

  /** The head of the bytes used is the number line that was read. */
  lemma HeadSpells(s: Bytes, prefix: byte, used: nat)
    requires s != [] && s[0] == prefix && ReadNumber(s[1..]).Done? && 1 + ReadNumber(s[1..]).used <= used <= |s|
    ensures NumberHead(s[..used], 1 + ReadNumber(s[1..]).used, prefix, ReadNumber(s[1..]).value)
  {
    hide ReadNumber, NumberText;
    var head := ReadNumber(s[1..]);
    var k := 1 + head.used;
    ReadNumberExact(s, prefix, head.value, k);
    assert s[..used][1..k - 2] == s[1..k - 2];
  }

  lemma BulkSpells(s: Bytes, depth: nat, limits: Limits)
    requires s != [] && s[0] == DOLLAR && depth <= limits.maxDepth && ParseBulk(s, limits).Done?
    requires ParseBulk(s, limits).used <= |s|
    ensures Spells(s[..ParseBulk(s, limits).used], ParseBulk(s, limits).value, depth, limits)
  {
    hide ReadNumber, NumberHead;
    var r := ParseBulk(s, limits);
    var head := ReadNumber(s[1..]);
    var k := 1 + head.used;
    HeadSpells(s, DOLLAR, r.used);
    if r.value.Bulk? {
      var b := s[..r.used];
      assert b[k..] == r.value.text + CRLF;
    }
  }

  /** The parser accepts exactly the grammar: it returns a value after `used` bytes if and only if
      those bytes spell it. */
  lemma ParserAccepts(s: Bytes, depth: nat, limits: Limits, v: Value, used: nat)
    requires used <= |s|
    ensures ParseValue(s, depth, limits) == Done(v, used) <==> Spells(s[..used], v, depth, limits)
  {
    hide ParseValue, Spells;
    if Spells(s[..used], v, depth, limits) {
      assert s == s[..used] + s[used..];
      SpelledParses(s[..used], v, depth, limits, s[used..]);
    }
    if ParseValue(s, depth, limits) == Done(v, used) {
      ParsedSpells(s, depth, limits);
    }
  }

  /** An error is final: no continuation of the input is ever accepted. */
  lemma RefusedForGood(s: Bytes, more: Bytes, depth: nat, limits: Limits, v: Value, used: nat)
    requires ParseValue(s, depth, limits).Bad? && used <= |s + more|
    ensures !Spells((s + more)[..used], v, depth, limits)
  {
    hide ParseValue, Spells;
    ParseStable(s, depth, limits, more);
    ParserAccepts(s + more, depth, limits, v, used);
  }

  // ---- Overflow ----

  /** Feeding the next packet would exceed the buffer. */
  ghost predicate Overflows(chunks: seq<Bytes>, i: nat, limits: Limits)
    requires i < |chunks|
  {
    var before := Drain(Concat(chunks[..i]), limits);
    before.ending.Left? && |before.ending.rest| + |chunks[i]| > limits.maxSize
  }

  /** A connection is cut exactly when some packet does not fit with what the packets before it
      left unread. */
  lemma {:induction false} ServeOverflows(chunks: seq<Bytes>, limits: Limits)
    ensures Serve(chunks, limits) == None <==> exists i :: 0 <= i < |chunks| && Overflows(chunks, i, limits)
  {
    hide Drain;
    if chunks != [] {
      var n := |chunks| - 1;
      var before := chunks[..n];
      ServeOverflows(before, limits);
      forall i | 0 <= i < n
        ensures Overflows(before, i, limits) <==> Overflows(chunks, i, limits)
      {
        assert before[..i] == chunks[..i];
      }
      if Serve(before, limits).Some? {
        ServeIsDrain(before, limits);
        assert chunks[..n] == before;
        assert Overflows(chunks, n, limits) <==> Serve(chunks, limits) == None;
      } else {
        var i :| 0 <= i < |before| && Overflows(before, i, limits);
        assert Overflows(chunks, i, limits);
      }
    }
  }
}
