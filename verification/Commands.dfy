/** Replicated commands and their results, with their binary envelopes. */
module Commands {
  import opened Bytes
  import opened BinaryCodec

  datatype CommandType = Set | Del | Incr | Decr | ReadBarrier

  datatype Command = Command(
    version: nat,
    kind: CommandType,
    key: Bytes,
    value: Bytes,
    clientId: nat,
    requestId: nat)

  datatype ResultCode = Fine | NotFound | NotInteger | Overflow | StaleRequest | BadCommand | StorageError
  datatype ResultKind = NoPayload | StringPayload | IntegerPayload

  datatype ApplyResult = ApplyResult(code: ResultCode, kind: ResultKind, value: Bytes, integer: int)

  function OkResult(): ApplyResult {
    ApplyResult(Fine, NoPayload, [], 0)
  }

  function IntegerResult(i: int): ApplyResult {
    ApplyResult(Fine, IntegerPayload, [], i)
  }

  function ErrorResult(code: ResultCode, message: Bytes): ApplyResult {
    ApplyResult(code, StringPayload, message, 0)
  }

  const COMMAND_MAGIC: Bytes := [83, 75, 86, 67]  // "SKVC"
  const RESULT_MAGIC: Bytes := [83, 75, 86, 82]  // "SKVR"

  function TypeCode(kind: CommandType): byte {
    match kind
    case Set => 1
    case Del => 2
    case Incr => 3
    case Decr => 4
    case ReadBarrier => 5
  }

  function TypeOf(code: nat): (r: Option<CommandType>)
    ensures r.Some? <==> 1 <= code <= 5
    ensures r.Some? ==> TypeCode(r.value) == code
  {
    match code
    case 1 => Some(Set)
    case 2 => Some(Del)
    case 3 => Some(Incr)
    case 4 => Some(Decr)
    case 5 => Some(ReadBarrier)
    case _ => None
  }

  function CodeByte(code: ResultCode): byte {
    match code
    case Fine => 0
    case NotFound => 1
    case NotInteger => 2
    case Overflow => 3
    case StaleRequest => 4
    case BadCommand => 5
    case StorageError => 6
  }

  function CodeOf(b: nat): (r: Option<ResultCode>)
    ensures r.Some? <==> b <= 6
    ensures r.Some? ==> CodeByte(r.value) == b
  {
    match b
    case 0 => Some(Fine)
    case 1 => Some(NotFound)
    case 2 => Some(NotInteger)
    case 3 => Some(Overflow)
    case 4 => Some(StaleRequest)
    case 5 => Some(BadCommand)
    case 6 => Some(StorageError)
    case _ => None
  }

  function KindByte(kind: ResultKind): byte {
    match kind
    case NoPayload => 0
    case StringPayload => 1
    case IntegerPayload => 2
  }

  function KindOf(b: nat): (r: Option<ResultKind>)
    ensures r.Some? <==> b <= 2
    ensures r.Some? ==> KindByte(r.value) == b
  {
    match b
    case 0 => Some(NoPayload)
    case 1 => Some(StringPayload)
    case 2 => Some(IntegerPayload)
    case _ => None
  }

  // ---- Command envelope ----

  /** The commands the fields of the envelope can hold. */
  predicate Encodable(c: Command) {
    && c.version == 1 && c.clientId < U64 && c.requestId < U64
    && |c.key| < U32 && |c.value| < U32
  }

  predicate FieldsWithin(c: Command, maxField: nat) {
    |c.key| <= maxField && |c.value| <= maxField
  }

  function CommandHead(kind: CommandType): Bytes {
    COMMAND_MAGIC + BigEndian(1, 2) + BigEndian(TypeCode(kind), 1) + BigEndian(0, 1)
  }

  function CommandFields(c: Command): Bytes {
    BigEndian(c.clientId, 8) + BigEndian(c.requestId, 8) + StringBytes(c.key) + StringBytes(c.value)
  }

  function CommandBytes(c: Command): Bytes {
    CommandHead(c.kind) + CommandFields(c)
  }

  function TakeCommandHead(data: Bytes): Result<(CommandType, Bytes)> {
    var (magic, s1) :- TakeBytes(data, 4);
    if magic != COMMAND_MAGIC then Err(EnvelopeMagic) else
    var (version, s2) :- TakeUnsigned(s1, 2);
    if version != 1 then Err(CommandVersion) else
    var (code, s3) :- TakeUnsigned(s2, 1);
    if TypeOf(code).None? then Err(UnknownCommand) else
    var (reserved, s4) :- TakeUnsigned(s3, 1);
    if reserved != 0 then Err(ReservedByte) else Ok((TypeOf(code).value, s4))
  }

  function TakeCommandFields(kind: CommandType, s: Bytes, maxField: nat): Result<Command> {
    var (clientId, s1) :- TakeUnsigned(s, 8);
    var (requestId, s2) :- TakeUnsigned(s1, 8);
    var (key, s3) :- TakeString(s2, maxField);
    var (value, s4) :- TakeString(s3, maxField);
    if s4 != [] then Err(TrailingBytes) else Ok(Command(1, kind, key, value, clientId, requestId))
  }

  function DecodeCommand(data: Bytes, maxField: nat): Result<Command> {
    var (kind, fields) :- TakeCommandHead(data);
    TakeCommandFields(kind, fields, maxField)
  }

  lemma TakeHeadOfHead(kind: CommandType, rest: Bytes)
    ensures TakeCommandHead(CommandHead(kind) + rest) == Ok((kind, rest))
  {
    hide BigEndian, Unsigned, TakeUnsigned, TakeBytes;
    Widths();
    var s3 := BigEndian(0, 1) + rest;
    var s2 := BigEndian(TypeCode(kind), 1) + s3;
    var s1 := BigEndian(1, 2) + s2;
    assert CommandHead(kind) + rest == COMMAND_MAGIC + s1;
    TakeBytesOfConcat(COMMAND_MAGIC, s1);
    TakeUnsignedOfBigEndian(1, 2, s2);
    TakeUnsignedOfBigEndian(TypeCode(kind), 1, s3);
    TakeUnsignedOfBigEndian(0, 1, rest);
  }

  lemma TakeFieldsOfFields(c: Command, maxField: nat)
    requires Encodable(c)
    ensures FieldsWithin(c, maxField) ==> TakeCommandFields(c.kind, CommandFields(c), maxField) == Ok(c)
    ensures !FieldsWithin(c, maxField) ==> TakeCommandFields(c.kind, CommandFields(c), maxField).Err?
  {
    hide BigEndian, Unsigned, TakeUnsigned, TakeString, StringBytes;
    Widths();
    var s3 := StringBytes(c.value);
    var s2 := StringBytes(c.key) + s3;
    var s1 := BigEndian(c.requestId, 8) + s2;
    assert CommandFields(c) == BigEndian(c.clientId, 8) + s1;
    TakeUnsignedOfBigEndian(c.clientId, 8, s1);
    TakeUnsignedOfBigEndian(c.requestId, 8, s2);
    TakeStringOfStringBytes(c.key, maxField, s3);
    assert s3 + [] == s3;
    TakeStringOfStringBytes(c.value, maxField, []);
  }

  /** Decoding inverts encoding on exactly the commands whose fields are within the limit. */
  lemma CommandRoundTrip(c: Command, maxField: nat)
    requires Encodable(c)
    ensures FieldsWithin(c, maxField) ==> DecodeCommand(CommandBytes(c), maxField) == Ok(c)
    ensures !FieldsWithin(c, maxField) ==> DecodeCommand(CommandBytes(c), maxField).Err?
  {
    hide TakeCommandHead, TakeCommandFields, CommandHead, CommandFields;
    TakeHeadOfHead(c.kind, CommandFields(c));
    TakeFieldsOfFields(c, maxField);
  }

  /** Every accepted byte string is the encoding of the command it decodes to, so the codec is a
      bijection between commands within the limit and accepted strings. */
  lemma AcceptedCommand(data: Bytes, maxField: nat)
    requires DecodeCommand(data, maxField).Ok?
    ensures var c := DecodeCommand(data, maxField).value;
            Encodable(c) && FieldsWithin(c, maxField) && CommandBytes(c) == data
  {
    hide TakeCommandHead, TakeCommandFields, CommandHead, CommandFields;
    HeadInverse(data);
    var (kind, fields) := TakeCommandHead(data).value;
    FieldsInverse(kind, fields, maxField);
  }

  lemma HeadInverse(data: Bytes)
    requires TakeCommandHead(data).Ok?
    ensures var (kind, rest) := TakeCommandHead(data).value; data == CommandHead(kind) + rest
  {
    hide BigEndian, Unsigned, TakeUnsigned, TakeBytes;
    TakeBytesInverse(data, 4);
    var (magic, s1) := TakeBytes(data, 4).value;
    TakeUnsignedInverse(s1, 2);
    var (version, s2) := TakeUnsigned(s1, 2).value;
    TakeUnsignedInverse(s2, 1);
    var (code, s3) := TakeUnsigned(s2, 1).value;
    TakeUnsignedInverse(s3, 1);
    var (reserved, rest) := TakeUnsigned(s3, 1).value;
    assert data == COMMAND_MAGIC + (BigEndian(1, 2) + (BigEndian(code, 1) + (BigEndian(0, 1) + rest)));
  }

  lemma FieldsInverse(kind: CommandType, s: Bytes, maxField: nat)
    requires TakeCommandFields(kind, s, maxField).Ok?
    ensures var c := TakeCommandFields(kind, s, maxField).value;
            && c.kind == kind && Encodable(c) && FieldsWithin(c, maxField) && s == CommandFields(c)
  {
    hide BigEndian, Unsigned, TakeString, StringBytes;
    Widths();
    TakeUnsignedInverse(s, 8);
    var s1 := s[8..];
    TakeUnsignedInverse(s1, 8);
    var s2 := s1[8..];
    TakeStringInverse(s2, maxField);
    var (key, s3) := TakeString(s2, maxField).value;
    TakeStringInverse(s3, maxField);
    var (value, s4) := TakeString(s3, maxField).value;
    assert s4 == [] && s3 == StringBytes(value);
  }

  // ---- Result envelope ----

  /** What a stored result must satisfy to be read back. */
  predicate Storable(r: ApplyResult, maxField: nat) {
    && |r.value| <= maxField && |r.value| < U32
    && I64_MIN <= r.integer <= I64_MAX
    && (r.kind == NoPayload ==> r.value == [])
  }

  function ResultHead(code: ResultCode, kind: ResultKind): Bytes {
    RESULT_MAGIC + BigEndian(1, 2) + BigEndian(CodeByte(code), 1) + BigEndian(KindByte(kind), 1)
  }

  function ResultBytes(r: ApplyResult): Bytes
    requires I64_MIN <= r.integer <= I64_MAX
  {
    ResultHead(r.code, r.kind) + (BigEndian(ToUnsigned64(r.integer), 8) + StringBytes(r.value))
  }

  function TakeResultHead(data: Bytes): Result<(ResultCode, ResultKind, Bytes)> {
    var (magic, s1) :- TakeBytes(data, 4);
    if magic != RESULT_MAGIC then Err(EnvelopeMagic) else
    var (version, s2) :- TakeUnsigned(s1, 2);
    if version != 1 then Err(ResultVersion) else
    var (code, s3) :- TakeUnsigned(s2, 1);
    var (kind, s4) :- TakeUnsigned(s3, 1);
    if CodeOf(code).None? || KindOf(kind).None? then Err(ResultEnum)
    else Ok((CodeOf(code).value, KindOf(kind).value, s4))
  }

  function DecodeResult(data: Bytes, maxField: nat): Result<ApplyResult> {
    var (code, kind, s1) :- TakeResultHead(data);
    var (integer, s2) :- TakeSigned64(s1);
    var (value, s3) :- TakeString(s2, maxField);
    if s3 != [] then Err(TrailingBytes)
    else if kind == NoPayload && value != [] then Err(ResultPayload)
    else Ok(ApplyResult(code, kind, value, integer))
  }

  lemma TakeResultHeadOfHead(code: ResultCode, kind: ResultKind, rest: Bytes)
    ensures TakeResultHead(ResultHead(code, kind) + rest) == Ok((code, kind, rest))
  {
    hide BigEndian, Unsigned, TakeUnsigned, TakeBytes;
    Widths();
    var s3 := BigEndian(KindByte(kind), 1) + rest;
    var s2 := BigEndian(CodeByte(code), 1) + s3;
    var s1 := BigEndian(1, 2) + s2;
    assert ResultHead(code, kind) + rest == RESULT_MAGIC + s1;
    TakeBytesOfConcat(RESULT_MAGIC, s1);
    TakeUnsignedOfBigEndian(1, 2, s2);
    TakeUnsignedOfBigEndian(CodeByte(code), 1, s3);
    TakeUnsignedOfBigEndian(KindByte(kind), 1, rest);
  }

  /** A result survives its envelope exactly when it is storable. */
  lemma ResultRoundTrip(r: ApplyResult, maxField: nat)
    requires I64_MIN <= r.integer <= I64_MAX && |r.value| < U32
    ensures Storable(r, maxField) ==> DecodeResult(ResultBytes(r), maxField) == Ok(r)
    ensures !Storable(r, maxField) ==> DecodeResult(ResultBytes(r), maxField).Err?
  {
    hide BigEndian, Unsigned, TakeUnsigned, TakeSigned64, TakeString, TakeResultHead, ResultHead, StringBytes;
    var s1 := BigEndian(ToUnsigned64(r.integer), 8) + StringBytes(r.value);
    TakeResultHeadOfHead(r.code, r.kind, s1);
    TakeSigned64OfBigEndian(r.integer, StringBytes(r.value));
    assert StringBytes(r.value) + [] == StringBytes(r.value);
    TakeStringOfStringBytes(r.value, maxField, []);
  }

  lemma ResultHeadInverse(data: Bytes)
    requires TakeResultHead(data).Ok?
    ensures var (code, kind, rest) := TakeResultHead(data).value; data == ResultHead(code, kind) + rest
  {
    hide BigEndian, Unsigned, TakeUnsigned, TakeBytes;
    TakeBytesInverse(data, 4);
    var (magic, s1) := TakeBytes(data, 4).value;
    TakeUnsignedInverse(s1, 2);
    var (version, s2) := TakeUnsigned(s1, 2).value;
    TakeUnsignedInverse(s2, 1);
    var (code, s3) := TakeUnsigned(s2, 1).value;
    TakeUnsignedInverse(s3, 1);
    var (kind, s4) := TakeUnsigned(s3, 1).value;
    assert data == RESULT_MAGIC + (BigEndian(1, 2) + (BigEndian(code, 1) + (BigEndian(kind, 1) + s4)));
  }

  /** Every accepted envelope is the encoding of the storable result it decodes to. */
  lemma AcceptedResult(data: Bytes, maxField: nat)
    requires DecodeResult(data, maxField).Ok?
    ensures var r := DecodeResult(data, maxField).value; Storable(r, maxField) && ResultBytes(r) == data
  {
    hide BigEndian, TakeSigned64, TakeString, TakeResultHead, ResultHead, StringBytes;
    ResultHeadInverse(data);
    var (code, kind, s1) := TakeResultHead(data).value;
    TakeSigned64Inverse(s1);
    var (integer, s2) := TakeSigned64(s1).value;
    TakeStringInverse(s2, maxField);
    var (value, s3) := TakeString(s2, maxField).value;
    assert StringBytes(value) + [] == StringBytes(value);
  }

  // ---- Driving the writer and the reader ----

  method WriteCommandHead(writer: BinaryWriter, kind: CommandType)
    modifies writer
    ensures writer.data == old(writer.data) + CommandHead(kind)
  {
    hide BigEndian;
    writer.PutRaw(COMMAND_MAGIC);
    writer.PutUnsigned(1, 2);
    writer.PutUnsigned(TypeCode(kind), 1);
    writer.PutUnsigned(0, 1);
  }

  method WriteCommandFields(writer: BinaryWriter, c: Command) returns (ok: bool)
    modifies writer
    ensures ok <==> |c.key| < U32 && |c.value| < U32
    ensures ok ==> writer.data == old(writer.data) + CommandFields(c)
  {
    hide BigEndian, StringBytes;
    writer.PutUnsigned(c.clientId, 8);
    writer.PutUnsigned(c.requestId, 8);
    ok := writer.PutString(c.key);
    if ok {
      ok := writer.PutString(c.value);
    }
  }

  method EncodeCommandBytes(c: Command) returns (r: Result<Bytes>)
    requires c.clientId < U64 && c.requestId < U64
    ensures r == if c.version != 1 then Err(CommandVersion)
                 else if !Encodable(c) then Err(StringTooLong) else Ok(CommandBytes(c))
  {
    hide CommandHead, CommandFields;
    if c.version != 1 {
      return Err(CommandVersion);
    }
    var writer := new BinaryWriter();
    WriteCommandHead(writer, c.kind);
    assert writer.data == CommandHead(c.kind);
    var ok := WriteCommandFields(writer, c);
    if !ok {
      return Err(StringTooLong);
    }
    return Ok(writer.data);
  }

  method ReadCommandHead(reader: BinaryReader) returns (r: Result<CommandType>)
    requires reader.Valid()
    modifies reader
    ensures reader.Valid()
    ensures TakeCommandHead(old(reader.Rest())) == if r.Ok? then Ok((r.value, reader.Rest())) else Err(r.error)
  {
    hide TakeBytes, TakeUnsigned;
    var magic :- reader.GetBytes(4);
    if magic != COMMAND_MAGIC {
      return Err(EnvelopeMagic);
    }
    var version :- reader.GetUnsigned(2);
    if version != 1 {
      return Err(CommandVersion);
    }
    var code :- reader.GetUnsigned(1);
    var kind := TypeOf(code);
    if kind.None? {
      return Err(UnknownCommand);
    }
    var reserved :- reader.GetUnsigned(1);
    if reserved != 0 {
      return Err(ReservedByte);
    }
    return Ok(kind.value);
  }

  method DecodeCommandBytes(data: Bytes, maxField: nat) returns (r: Result<Command>)
    ensures r == DecodeCommand(data, maxField)
  {
    hide TakeUnsigned, TakeString, TakeCommandHead;
    var reader := new BinaryReader(data);
    var kind :- ReadCommandHead(reader);
    var clientId :- reader.GetUnsigned(8);
    var requestId :- reader.GetUnsigned(8);
    var key :- reader.GetString(maxField);
    var value :- reader.GetString(maxField);
    var end := reader.AtEnd();
    if !end {
      return Err(TrailingBytes);
    }
    return Ok(Command(1, kind, key, value, clientId, requestId));
  }
}
