/** Packs of log entries, as a leader sends them to a follower that is far behind: a count and
    then each entry behind its length, all as signed 32-bit integers. */
module LogPack {
  import opened Bytes
  import opened BinaryCodec
  import opened WalFormat
  import opened SortedMap
  import opened LogModel

  const I32_LIMIT := 0x8000_0000

  function PackItems(es: seq<Entry>): Bytes {
    if es == [] then [] else StringBytes(es[0]) + PackItems(es[1..])
  }

  function PackBytes(es: seq<Entry>): Bytes {
    BigEndian(|es|, 4) + PackItems(es)
  }

  /** One entry of a pack: its length must be positive and within what is left. */
  function TakePacked(s: Bytes): Result<(Entry, Bytes)> {
    var (size, rest) :- TakeUnsigned(s, 4);
    if size == 0 || size >= I32_LIMIT || size > |rest| then Err(PackLength)
    else Ok((rest[..size], rest[size..]))
  }

  function TakeItems(s: Bytes, count: nat): Result<(seq<Entry>, Bytes)> {
    if count == 0 then Ok(([], s)) else
    var (e, rest) :- TakePacked(s);
    var (es, left) :- TakeItems(rest, count - 1);
    Ok(([e] + es, left))
  }

  function Unpack(data: Bytes): Result<seq<Entry>> {
    var (count, rest) :- TakeUnsigned(data, 4);
    if count >= I32_LIMIT then Err(PackCount) else
    var (es, left) :- TakeItems(rest, count);
    if left != [] then Err(PackTrailing) else Ok(es)
  }

  predicate Packable(es: seq<Entry>) {
    |es| < I32_LIMIT && forall i :: 0 <= i < |es| ==> 0 < |es[i]| < I32_LIMIT
  }

  // ---- The pack format ----

  lemma TakePackedOfString(e: Entry, rest: Bytes)
    requires 0 < |e| < I32_LIMIT
    ensures TakePacked(StringBytes(e) + rest) == Ok((e, rest))
  {
    hide BigEndian, Unsigned, TakeUnsigned;
    Widths();
    assert StringBytes(e) + rest == BigEndian(|e|, 4) + (e + rest);
    TakeUnsignedOfBigEndian(|e|, 4, e + rest);
    assert (e + rest)[..|e|] == e && (e + rest)[|e|..] == rest;
  }

  lemma {:induction false} TakeItemsOfItems(es: seq<Entry>, rest: Bytes)
    requires forall i :: 0 <= i < |es| ==> 0 < |es[i]| < I32_LIMIT
    ensures TakeItems(PackItems(es) + rest, |es|) == Ok((es, rest))
  {
    hide TakePacked, StringBytes;
    if es == [] {
      assert PackItems(es) + rest == rest;
    } else {
      assert PackItems(es) + rest == StringBytes(es[0]) + (PackItems(es[1..]) + rest);
      TakePackedOfString(es[0], PackItems(es[1..]) + rest);
      TakeItemsOfItems(es[1..], rest);
      assert [es[0]] + es[1..] == es;
    }
  }

  /** Unpacking inverts packing. */
  lemma UnpackOfPack(es: seq<Entry>)
    requires Packable(es)
    ensures Unpack(PackBytes(es)) == Ok(es)
  {
    hide BigEndian, TakeUnsigned, TakeItems, PackItems;
    Widths();
    TakeUnsignedOfBigEndian(|es|, 4, PackItems(es));
    assert PackItems(es) + [] == PackItems(es);
    TakeItemsOfItems(es, []);
  }

  lemma TakePackedInverse(s: Bytes)
    requires TakePacked(s).Ok?
    ensures var (e, rest) := TakePacked(s).value; 0 < |e| < I32_LIMIT && s == StringBytes(e) + rest
  {
    hide BigEndian, Unsigned, TakeUnsigned;
    TakeUnsignedInverse(s, 4);
    var (size, rest) := TakeUnsigned(s, 4).value;
    assert rest[..size] + rest[size..] == rest;
  }

  lemma {:induction false} TakeItemsInverse(s: Bytes, count: nat)
    requires TakeItems(s, count).Ok?
    ensures var (es, left) := TakeItems(s, count).value;
            && |es| == count && (forall i :: 0 <= i < |es| ==> 0 < |es[i]| < I32_LIMIT)
            && s == PackItems(es) + left
    decreases count
  {
    hide TakePacked, StringBytes;
    if count > 0 {
      TakePackedInverse(s);
      var (e, rest) := TakePacked(s).value;
      TakeItemsInverse(rest, count - 1);
      var (es, left) := TakeItems(rest, count - 1).value;
      assert ([e] + es)[1..] == es;
      assert s == StringBytes(e) + (PackItems(es) + left);
    }
  }

  /** Packing inverts unpacking: what `apply_pack` accepts is exactly a pack, with no byte over. */
  lemma PackOfUnpack(data: Bytes)
    requires Unpack(data).Ok?
    ensures var es := Unpack(data).value; Packable(es) && PackBytes(es) == data
  {
    hide BigEndian, TakeUnsigned, TakeItems, PackItems;
    TakeUnsignedInverse(data, 4);
    var (count, rest) := TakeUnsigned(data, 4).value;
    TakeItemsInverse(rest, count);
    var (es, left) := TakeItems(rest, count).value;
    assert PackItems(es) + [] == PackItems(es);
  }

  // ---- Sending a range of one log to another ----

  /** The follower has the leader's entries in the range, its own below it and none above. */
  lemma PackTransfers(leader: Log, follower: Log, index: nat, count: nat)
    requires Shape(leader) && LogModel.Inv(follower)
    requires leader.start <= index && index + count <= leader.Next() && count < I32_LIMIT
    requires GapFree(follower, index, leader.entries[index - leader.start..][..count])
    ensures var sent := PackBytes(leader.entries[index - leader.start..][..count]);
            && Unpack(sent).Ok?
            && var t := Step(follower, ApplyPack(index, Unpack(sent).value));
               && LogModel.Inv(t) && t.Count() == |t.entries|
               && (count > 0 ==> t.Next() == index + count)
               && (forall i: nat, e :: index <= i < index + count ==>
                                         (At(t.start, t.entries, i, e) <==> At(leader.start, leader.entries, i, e)))
               && (forall i: nat, e :: i < index ==>
                                         (At(t.start, t.entries, i, e) <==> At(follower.start, follower.entries, i, e)))
  {
    hide PackBytes, Unpack, Image;
    var es := leader.entries[index - leader.start..][..count];
    assert Packable(es) && AllEncodable(es) by {
      assert forall i :: 0 <= i < |es| ==> es[i] == leader.entries[index - leader.start + i];
    }
    UnpackOfPack(es);
    var op := ApplyPack(index, es);
    StepInv(follower, op);
    var n := Below(follower.start, |follower.entries|, index);
    var t := Step(follower, op);
    assert t.entries == follower.entries[..n] + es;
  }

  // ---- The loops ----

  lemma {:induction false} PackItemsSnoc(es: seq<Entry>, e: Entry)
    ensures PackItems(es + [e]) == PackItems(es) + StringBytes(e)
  {
    hide StringBytes;
    if es == [] {
      assert (es + [e])[1..] == [];
    } else {
      assert (es + [e])[1..] == es[1..] + [e];
      PackItemsSnoc(es[1..], e);
    }
  }

  predicate InRange(start: nat, log: seq<Entry>, index: nat, count: int) {
    start <= index && index + count <= start + |log|
  }

  /** The first loop of `pack`: the entries of a range, or an error if one is missing. */
  method CollectRange(entries: SortedMap<Entry>, ghost start: nat, ghost log: seq<Entry>, index: nat, count: nat)
    returns (r: Result<seq<Entry>>)
    requires entries == Numbered(start, log)
    ensures count == 0 ==> r == Ok([])
    ensures count > 0 ==>
              r == if InRange(start, log, index, count) then Ok(log[index - start..][..count]) else Err(PackMissing)
  {
    var found: seq<Entry> := [];
    for offset := 0 to count
      invariant |found| == offset
      invariant offset > 0 ==> InRange(start, log, index, offset) && found == log[index - start..][..offset]
    {
      GetNumbered(start, log, index + offset);
      match Get(entries, index + offset) {
        case None => return Err(PackMissing);
        case Some(e) => found := found + [e];
      }
    }
    return Ok(found);
  }

  /** `pack`: the packed entries of a range. The count is checked first, then that no entry is
      missing, then that each length fits a signed 32-bit integer. */
  method PackRange(entries: SortedMap<Entry>, ghost start: nat, ghost log: seq<Entry>, index: nat, count: int)
    returns (r: Result<Bytes>)
    requires entries == Numbered(start, log) && count < I32_LIMIT
    ensures count < 0 ==> r == Err(PackCount)
    ensures count == 0 ==> r == Ok(PackBytes([]))
    ensures count > 0 && !InRange(start, log, index, count) ==> r == Err(PackMissing)
    ensures count > 0 && InRange(start, log, index, count) ==>
              var es := log[index - start..][..count];
              r == if forall i :: 0 <= i < |es| ==> |es[i]| < I32_LIMIT then Ok(PackBytes(es)) else Err(PackEntrySize)
  {
    hide BigEndian, StringBytes;
    if count < 0 {
      return Err(PackCount);
    }
    var found :- CollectRange(entries, start, log, index, count);
    var items: Bytes := [];
    assert found[..0] == [];
    for i := 0 to |found|
      invariant items == PackItems(found[..i])
      invariant forall j :: 0 <= j < i ==> |found[j]| < I32_LIMIT
    {
      if |found[i]| >= I32_LIMIT {
        return Err(PackEntrySize);
      }
      assert found[..i] + [found[i]] == found[..i + 1];
      PackItemsSnoc(found[..i], found[i]);
      Shown(found[i]);
      items := items + (BigEndian(|found[i]|, 4) + found[i]);
    }
    assert found[..|found|] == found;
    return Ok(BigEndian(count, 4) + items);
  }

  lemma Shown(e: Entry)
    ensures StringBytes(e) == BigEndian(|e|, 4) + e
  {
  }

  method ReadPacked(reader: BinaryReader) returns (r: Result<Entry>)
    requires reader.Valid()
    modifies reader
    ensures reader.Valid()
    ensures r.Ok? ==> TakePacked(old(reader.Rest())) == Ok((r.value, reader.Rest()))
    ensures r.Err? ==> TakePacked(old(reader.Rest())) == Err(r.error)
  {
    hide Unsigned;
    var size :- reader.GetUnsigned(4);
    var left := reader.Remaining();
    if size == 0 || size >= I32_LIMIT || size > left {
      return Err(PackLength);
    }
    r := reader.GetBytes(size);
  }

  /** The whole result is what is decoded already followed by the result for the rest. */
  ghost predicate Continues(all: Result<(seq<Entry>, Bytes)>, rest: Result<(seq<Entry>, Bytes)>, decoded: seq<Entry>) {
    match rest
    case Err(fault) => all == Err(fault)
    case Ok((es, left)) => all == Ok((decoded + es, left))
  }

  lemma ContinuesNext(all: Result<(seq<Entry>, Bytes)>, s: Bytes, count: nat, decoded: seq<Entry>)
    requires count > 0 && Continues(all, TakeItems(s, count), decoded)
    ensures match TakePacked(s)
            case Err(fault) => all == Err(fault)
            case Ok((e, rest)) => Continues(all, TakeItems(rest, count - 1), decoded + [e])
  {
    hide TakePacked;
    match TakePacked(s) {
      case Err(_) =>
      case Ok((e, rest)) =>
        match TakeItems(rest, count - 1) {
          case Err(_) =>
          case Ok((es, _)) => assert decoded + ([e] + es) == decoded + [e] + es;
        }
    }
  }

  lemma ContinuesEnds(all: Result<(seq<Entry>, Bytes)>, s: Bytes, count: nat, decoded: seq<Entry>)
    ensures Continues(TakeItems(s, count), TakeItems(s, count), [])
    ensures Continues(all, TakeItems(s, 0), decoded) ==> all == Ok((decoded, s))
  {
    hide TakePacked;
    assert decoded + [] == decoded;
    var r := TakeItems(s, count);
    assert r.Ok? ==> [] + r.value.0 == r.value.0;
  }

  method ReadItems(reader: BinaryReader, count: nat) returns (r: Result<seq<Entry>>)
    requires reader.Valid()
    modifies reader
    ensures reader.Valid()
    ensures r.Ok? ==> TakeItems(old(reader.Rest()), count) == Ok((r.value, reader.Rest()))
    ensures r.Err? ==> TakeItems(old(reader.Rest()), count) == Err(r.error)
  {
    hide TakePacked, TakeItems, Continues;
    var decoded: seq<Entry> := [];
    ghost var all := TakeItems(reader.Rest(), count);
    ContinuesEnds(all, reader.Rest(), count, []);
    for offset := 0 to count
      invariant reader.Valid()
      invariant Continues(all, TakeItems(reader.Rest(), count - offset), decoded)
    {
      ContinuesNext(all, reader.Rest(), count - offset, decoded);
      var e :- ReadPacked(reader);
      decoded := decoded + [e];
    }
    ContinuesEnds(all, reader.Rest(), 0, decoded);
    return Ok(decoded);
  }

  /** The decoding part of `apply_pack`. */
  method UnpackEntries(data: Bytes) returns (r: Result<seq<Entry>>)
    ensures r == Unpack(data)
  {
    hide TakeUnsigned, TakeItems;
    var reader := new BinaryReader(data);
    var count :- reader.GetUnsigned(4);
    if count >= I32_LIMIT {
      return Err(PackCount);
    }
    var decoded :- ReadItems(reader, count);
    var end := reader.AtEnd();
    if !end {
      return Err(PackTrailing);
    }
    return Ok(decoded);
  }
}
