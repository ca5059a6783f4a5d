/** From a client's arguments to the command the state machine decodes at commit. */
module CommandService {
  import opened Bytes
  import opened Decimal
  import opened Resp
  import opened RespRoundTrip
  import opened Commands

  const SET: Bytes := [83, 69, 84]
  const DEL: Bytes := [68, 69, 76]
  const INCR: Bytes := [73, 78, 67, 82]
  const DECR: Bytes := [68, 69, 67, 82]
  const CLIENT: Bytes := [67, 76, 73, 69, 78, 84]
  const REQUEST: Bytes := [82, 69, 81, 85, 69, 83, 84]

  function Upper(t: Bytes): (u: Bytes)
    ensures |u| == |t|
  {
    seq(|t|, i requires 0 <= i < |t| => if 97 <= t[i] <= 122 then t[i] - 32 else t[i])
  }

  /** The write named by an upper-case command name. */
  function WriteKind(name: Bytes): Option<CommandType> {
    if name == SET then Some(Set)
    else if name == DEL then Some(Del)
    else if name == INCR then Some(Incr)
    else if name == DECR then Some(Decr)
    else None
  }

  predicate IsText(v: Value) {
    v.Bulk? || v.Simple?
  }

  /** `command_arguments`: a non-empty array of strings. */
  function Arguments(v: Value): Option<seq<Bytes>> {
    if !v.Array? || v.items == [] then None
    else if forall i :: 0 <= i < |v.items| ==> IsText(v.items[i]) then
      Some(seq(|v.items|, i requires 0 <= i < |v.items| && IsText(v.items[i]) => v.items[i].text))
    else None
  }

  /** `execute_write`: the command that is submitted, or `None` for an error reply. */
  function WriteCommand(args: seq<Bytes>): Option<Command> {
    if args == [] || WriteKind(Upper(args[0])).None? then None else
    var kind := WriteKind(Upper(args[0])).value;
    var base := if kind == Set then 3 else 2;
    if |args| != base && |args| != base + 4 then None else
    var plain := Command(1, kind, args[1], if kind == Set then args[2] else [], 0, 0);
    if |args| == base then Some(plain)
    else if Upper(args[base]) != CLIENT || Upper(args[base + 2]) != REQUEST then None
    else
      var client, request := ParseRequestNumber(args[base + 1]), ParseRequestNumber(args[base + 3]);
      if client.None? || request.None? then None
      else Some(plain.(clientId := client.value, requestId := request.value))
  }

  // ---- Which calls are which commands ----

  /** The text is the word, each letter in either case. */
  predicate InEitherCase(t: Bytes, upper: string, lower: string) {
    |t| == |upper| == |lower| && forall i :: 0 <= i < |t| ==> t[i] == upper[i] as int || t[i] == lower[i] as int
  }

  /** The text names the write. */
  predicate Names(t: Bytes, kind: CommandType) {
    match kind
    case Set => InEitherCase(t, "SET", "set")
    case Del => InEitherCase(t, "DEL", "del")
    case Incr => InEitherCase(t, "INCR", "incr")
    case Decr => InEitherCase(t, "DECR", "decr")
    case ReadBarrier => false
  }

  /** `args` is a well-formed call of the write `kind` on `key`. */
  predicate IsCall(args: seq<Bytes>, kind: CommandType, key: Bytes, value: Bytes) {
    && |args| == (if kind == Set then 3 else 2)
    && Names(args[0], kind) && args[1] == key
    && value == (if kind == Set then args[2] else [])
  }

  /** A positive 64-bit number in decimal digits. */
  predicate IsNumber(t: Bytes, n: nat) {
    t != [] && AllDigits(t) && Fold(0, t) == n && 0 < n < U64
  }

  /** The four arguments that number a write. */
  predicate IsNumbering(args: seq<Bytes>, client: nat, request: nat) {
    && |args| == 4
    && InEitherCase(args[0], "CLIENT", "client") && IsNumber(args[1], client)
    && InEitherCase(args[2], "REQUEST", "request") && IsNumber(args[3], request)
  }

  /** A word of letters, and what the upper-case form of a text has to be to be that word. */
  predicate IsWord(word: Bytes, upper: string, lower: string) {
    |word| == |upper| == |lower|
    && forall i :: 0 <= i < |word| ==>
                     65 <= word[i] <= 90 && word[i] == upper[i] as int && word[i] + 32 == lower[i] as int
  }

  lemma UpperMeans(t: Bytes, word: Bytes, upper: string, lower: string)
    requires IsWord(word, upper, lower)
    ensures Upper(t) == word <==> InEitherCase(t, upper, lower)
  {
    if Upper(t) == word {
      assert forall i :: 0 <= i < |t| ==> Upper(t)[i] == word[i];
    }
  }

  lemma WriteWords()
    ensures IsWord(SET, "SET", "set") && IsWord(DEL, "DEL", "del")
    ensures IsWord(INCR, "INCR", "incr") && IsWord(DECR, "DECR", "decr")
    ensures IsWord(CLIENT, "CLIENT", "client") && IsWord(REQUEST, "REQUEST", "request")
  {
  }

  lemma NameMeans(t: Bytes, kind: CommandType)
    ensures WriteKind(Upper(t)) == Some(kind) <==> Names(t, kind)
  {
    hide Upper, InEitherCase, IsWord;
    WriteWords();
    UpperMeans(t, SET, "SET", "set");
    UpperMeans(t, DEL, "DEL", "del");
    UpperMeans(t, INCR, "INCR", "incr");
    UpperMeans(t, DECR, "DECR", "decr");
  }

  /** The arguments are the call that the command says, numbered or not. */
  predicate Means(args: seq<Bytes>, c: Command) {
    && c.version == 1
    && (|| (IsCall(args, c.kind, c.key, c.value) && c.clientId == 0 && c.requestId == 0)
        || (|args| >= 4 && IsCall(args[..|args| - 4], c.kind, c.key, c.value)
            && IsNumbering(args[|args| - 4..], c.clientId, c.requestId)))
  }

  /** Exactly the well-formed calls are submitted, each as the command it means. */
  lemma WriteCommandExact(args: seq<Bytes>, c: Command)
    ensures WriteCommand(args) == Some(c) <==> Means(args, c)
  {
    hide Upper, InEitherCase, WriteKind, Names, Fold, AllDigits;
    if args != [] {
      NameMeans(args[0], c.kind);
      assert WriteKind(Upper(args[0])).Some? && WriteKind(Upper(args[0])).value.ReadBarrier? ==> false by {
        NameMeans(args[0], ReadBarrier);
        NoBarrierName(args[0]);
      }
    }
    WriteWords();
    var base := if c.kind == Set then 3 else 2;
    if |args| == base + 4 {
      UpperMeans(args[base], CLIENT, "CLIENT", "client");
      UpperMeans(args[base + 2], REQUEST, "REQUEST", "request");
      assert args[..base][0] == args[0] && args[base..][0] == args[base];
    }
  }

  lemma NoBarrierName(t: Bytes)
    ensures !Names(t, ReadBarrier)
  {
  }

  /** Exactly the non-empty arrays of bulk and simple strings are commands. */
  lemma ArgumentsExact(v: Value, args: seq<Bytes>)
    ensures Arguments(v) == Some(args) <==>
              && v.Array? && |v.items| == |args| > 0
              && forall i :: 0 <= i < |args| ==> v.items[i] == Bulk(args[i]) || v.items[i] == Simple(args[i])
  {
    if Arguments(v).Some? {
      var found := Arguments(v).value;
      assert forall i :: 0 <= i < |found| ==> IsText(v.items[i]) && found[i] == v.items[i].text;
    }
    if v.Array? && |v.items| == |args| > 0
       && forall i :: 0 <= i < |args| ==> v.items[i] == Bulk(args[i]) || v.items[i] == Simple(args[i]) {
      assert forall i :: 0 <= i < |v.items| ==> IsText(v.items[i]);
      assert Arguments(v).value == args;
    }
  }

  /** The loop of `command_arguments`. */
  method CommandArguments(v: Value) returns (r: Option<seq<Bytes>>)
    ensures r == Arguments(v)
  {
    if !v.Array? || v.items == [] {
      return None;
    }
    var output: seq<Bytes> := [];
    for i := 0 to |v.items|
      invariant |output| == i
      invariant forall j :: 0 <= j < i ==> IsText(v.items[j]) && output[j] == v.items[j].text
    {
      if !v.items[i].Bulk? && !v.items[i].Simple? {
        assert !IsText(v.items[i]);
        return None;
      }
      output := output + [v.items[i].text];
    }
    ArgumentsExact(v, output);
    return Some(output);
  }

  // ---- What the server can submit always decodes at commit ----

  /** Every text inside the value has at most `n` bytes. */
  predicate TextsWithin(v: Value, n: nat) {
    match v
    case Simple(t) => |t| <= n
    case Error(t) => |t| <= n
    case Bulk(t) => |t| <= n
    case Array(items) => forall i :: 0 <= i < |items| ==> TextsWithin(items[i], n)
    case _ => true
  }

  lemma {:induction false} ParsedTexts(s: Bytes, depth: nat, limits: Limits, n: nat)
    requires |s| <= n && ParseValue(s, depth, limits).Done?
    ensures TextsWithin(ParseValue(s, depth, limits).value, n)
    decreases limits.maxDepth + 1 - depth, 0
  {
    hide ReadNumber, ParseItems;
    if s[0] == STAR {
      var count := ReadNumber(s[1..]);
      ParsedItemTexts(s[1 + count.used..], count.value, depth + 1, limits, n);
    }
  }

  lemma {:induction false} ParsedItemTexts(s: Bytes, count: nat, depth: nat, limits: Limits, n: nat)
    requires |s| <= n && ParseItems(s, count, depth, limits).Done?
    ensures var items := ParseItems(s, count, depth, limits).value;
            forall i :: 0 <= i < |items| ==> TextsWithin(items[i], n)
    decreases limits.maxDepth + 1 - depth, count + 1
  {
    hide ParseValue, TextsWithin;
    if count > 0 {
      var first := ParseValue(s, depth, limits);
      ParsedTexts(s, depth, limits, n);
      ParsedItemTexts(s[first.used..], count - 1, depth, limits, n);
    }
  }

  /** Whatever a client sends, a write the server submits is decoded at commit as the same
      command: nothing that fits the parser's buffer can fail the replicated field limit. */
  lemma SubmittedAlwaysDecodes(s: Bytes, limits: Limits)
    requires |s| <= limits.maxSize < U32
    requires ParseValue(s, 0, limits).Done? && Arguments(ParseValue(s, 0, limits).value).Some?
    requires WriteCommand(Arguments(ParseValue(s, 0, limits).value).value).Some?
    ensures var c := WriteCommand(Arguments(ParseValue(s, 0, limits).value).value).value;
            Commands.Encodable(c) && DecodeCommand(CommandBytes(c), limits.maxSize) == Ok(c)
  {
    hide ParseValue, CommandBytes, DecodeCommand, Upper;
    var v := ParseValue(s, 0, limits).value;
    ParsedTexts(s, 0, limits, limits.maxSize);
    var args := Arguments(v).value;
    forall i | 0 <= i < |args|
      ensures |args[i]| <= limits.maxSize
    {
      assert TextsWithin(v.items[i], limits.maxSize);
      assert IsText(v.items[i]) && args[i] == v.items[i].text;
    }
    var c := WriteCommand(args).value;
    CommandRoundTrip(c, limits.maxSize);
  }

  // ---- The client's side ----

  function Bulks(args: seq<Bytes>): seq<Value> {
    seq(|args|, i requires 0 <= i < |args| => Bulk(args[i]))
  }

  /** `encode_array`. */
  function EncodeArray(args: seq<Bytes>): Bytes {
    Encode(Array(Bulks(args)))
  }

  /** The arguments the client sends for a numbered write. */
  function Numbered(args: seq<Bytes>, client: nat, request: nat): seq<Bytes> {
    args + [CLIENT, Print(client), REQUEST, Print(request)]
  }

  lemma NumberedCommand(args: seq<Bytes>, kind: CommandType, key: Bytes, value: Bytes, client: nat, request: nat)
    requires IsCall(args, kind, key, value) && 0 < client < U64 && 0 < request < U64
    ensures WriteCommand(Numbered(args, client, request)) == Some(Command(1, kind, key, value, client, request))
  {
    hide Print, Names, Fold, AllDigits, InEitherCase, WriteCommand;
    var sent := Numbered(args, client, request);
    assert sent[..|sent| - 4] == args && sent[|sent| - 4..] == [CLIENT, Print(client), REQUEST, Print(request)];
    assert IsNumbering(sent[|sent| - 4..], client, request) by { SentNumbering(client, request); }
    WriteCommandExact(sent, Command(1, kind, key, value, client, request));
  }

  lemma SentNumbering(client: nat, request: nat)
    requires 0 < client < U64 && 0 < request < U64
    ensures IsNumbering([CLIENT, Print(client), REQUEST, Print(request)], client, request)
  {
    RequestNumberOfPrint(client);
    RequestNumberOfPrint(request);
  }

  lemma {:induction false} EncodedItemsBound(items: seq<Value>, i: nat)
    requires i < |items| && forall j :: 0 <= j < |items| ==> items[j].Bulk?
    ensures |items[i].text| + 6 <= |EncodeItems(items)| && 6 * |items| <= |EncodeItems(items)|
    decreases items
  {
    hide PrintInt;
    var first := items[0];
    PrintIntClean(|first.text|);
    assert |Encode(first)| >= |first.text| + 6;
    if |items| > 1 {
      EncodedItemsBound(items[1..], if i > 0 then i - 1 else 0);
    }
  }

  lemma RequestFits(args: seq<Bytes>, limits: Limits)
    requires |EncodeArray(args)| <= limits.maxSize && limits.maxDepth >= 1
    ensures Fits(Array(Bulks(args)), 0, limits)
  {
    hide NumberLine;
    var items := Bulks(args);
    if args != [] {
      forall i | 0 <= i < |items|
        ensures Fits(items[i], 1, limits)
      {
        EncodedItemsBound(items, i);
      }
      EncodedItemsBound(items, 0);
    }
  }

  /** Client to state machine: a numbered write that fits the server's limit is parsed, turned
      into a command, encoded and decoded at commit as exactly the operation, key, value and
      ids the client meant. */
  lemma ClientToStateMachine(args: seq<Bytes>, kind: CommandType, key: Bytes, value: Bytes,
                             client: nat, request: nat, limits: Limits, rest: Bytes)
    requires IsCall(args, kind, key, value) && 0 < client < U64 && 0 < request < U64
    requires |EncodeArray(Numbered(args, client, request))| <= limits.maxSize < U32 && limits.maxDepth >= 1
    ensures var sent := Numbered(args, client, request);
            var parsed := ParseValue(EncodeArray(sent) + rest, 0, limits);
            var meant := Command(1, kind, key, value, client, request);
            && parsed.Done? && parsed.used == |EncodeArray(sent)|
            && Arguments(parsed.value) == Some(sent)
            && WriteCommand(sent) == Some(meant)
            && Commands.Encodable(meant) && DecodeCommand(CommandBytes(meant), limits.maxSize) == Ok(meant)
  {
    hide ParseValue, Encode, Upper, Print, DecodeCommand, CommandBytes, WriteCommand;
    var sent := Numbered(args, client, request);
    RequestFits(sent, limits);
    RoundTrip(Array(Bulks(sent)), 0, limits, rest);
    assert Arguments(Array(Bulks(sent))) == Some(sent) by { ArgumentsOfBulks(sent); }
    NumberedCommand(args, kind, key, value, client, request);
    var meant := Command(1, kind, key, value, client, request);
    FieldsOfCall(args, kind, key, value, client, request, limits);
    CommandRoundTrip(meant, limits.maxSize);
  }

  /** The same for a call without numbering, which is submitted with neither id. */
  lemma PlainToStateMachine(args: seq<Bytes>, kind: CommandType, key: Bytes, value: Bytes, limits: Limits, rest: Bytes)
    requires IsCall(args, kind, key, value)
    requires |EncodeArray(args)| <= limits.maxSize < U32 && limits.maxDepth >= 1
    ensures var parsed := ParseValue(EncodeArray(args) + rest, 0, limits);
            var meant := Command(1, kind, key, value, 0, 0);
            && parsed.Done? && parsed.used == |EncodeArray(args)|
            && Arguments(parsed.value) == Some(args)
            && WriteCommand(args) == Some(meant)
            && Commands.Encodable(meant) && DecodeCommand(CommandBytes(meant), limits.maxSize) == Ok(meant)
  {
    hide ParseValue, Encode, Names, DecodeCommand, CommandBytes, WriteCommand;
    RequestFits(args, limits);
    RoundTrip(Array(Bulks(args)), 0, limits, rest);
    ArgumentsOfBulks(args);
    var meant := Command(1, kind, key, value, 0, 0);
    WriteCommandExact(args, meant);
    var items := Bulks(args);
    assert items[1] == Bulk(key) && Fits(items[1], 1, limits);
    if kind == Set {
      assert items[2] == Bulk(value) && Fits(items[2], 1, limits);
    }
    CommandRoundTrip(meant, limits.maxSize);
  }

  lemma ArgumentsOfBulks(args: seq<Bytes>)
    requires args != []
    ensures Arguments(Array(Bulks(args))) == Some(args)
  {
    var v := Array(Bulks(args));
    assert forall i :: 0 <= i < |v.items| ==> IsText(v.items[i]);
    assert Arguments(v).value == args;
  }

  lemma FieldsOfCall(args: seq<Bytes>, kind: CommandType, key: Bytes, value: Bytes,
                     client: nat, request: nat, limits: Limits)
    requires IsCall(args, kind, key, value) && Fits(Array(Bulks(Numbered(args, client, request))), 0, limits)
    ensures |key| <= limits.maxSize && |value| <= limits.maxSize
  {
    hide Print, Upper;
    var items := Bulks(Numbered(args, client, request));
    assert items[1] == Bulk(key) && Fits(items[1], 1, limits);
    if kind == Set {
      assert items[2] == Bulk(value) && Fits(items[2], 1, limits);
    }
  }
}
