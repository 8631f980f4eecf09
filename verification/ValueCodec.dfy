/** The `Encode` and `Decode` implementations, running on the two bearers. */
module ValueCodec {
  import opened Bytes
  import opened Lz4
  import opened Regions
  import opened Tapes
  import opened Utf8
  import opened Values
  import opened Encoder
  import opened Decoder

  // Encoding. Every method requests exactly the writes of its value from the bearer.

  method EncodeBytes(enc: StreamEncoder, w: bytes) returns (r: Result<(), RegionError>)
    requires enc.Streaming() && |w| <= REGION_SIZE
    modifies enc.Repr
    ensures r.Ok? && enc.Streaming() && fresh(enc.Repr - old(enc.Repr))
    ensures enc.State() == WriteAll(enc.switch.p, enc.switch.seed, old(enc.State()), [w])
  {
    r := enc.Write(w);
    WriteAllSnoc(enc.switch.p, enc.switch.seed, old(enc.State()), [], w);
    assert [] + [w] == [w];
  }

  method EncodeValue(enc: StreamEncoder, s: Schema, v: Value) returns (r: Result<(), RegionError>)
    requires enc.Streaming() && Typed(s, v)
    modifies enc.Repr
    ensures r.Ok? && enc.Streaming() && fresh(enc.Repr - old(enc.Repr))
    ensures enc.State() == WriteAll(enc.switch.p, enc.switch.seed, old(enc.State()), Writes(s, v))
    decreases s, 0, 1
  {
    match s
    case UIntT(w) => r := EncodeBytes(enc, ToLe(v.n, w));
    case IntT(w) => r := EncodeBytes(enc, ToLe(TwosComplement(v.n, w), w));
    case BoolT => r := EncodeBytes(enc, [if v.b then 1 else 0]);
    case CharT => r := EncodeBytes(enc, EncodeChar(v.c));
    case UnitT => r := Ok(());
    case OptionT(_) => r := EncodeOption(enc, s, v);
    case ResultT(_, _) => r := EncodeResult(enc, s, v);
    case ArrayT(_, e) => r := EncodeList(enc, e, v.items);
    case VecT(e) => r := EncodeCounted(enc, e, v.items);
    case StringT => r := EncodeString(enc, v.utf8);
    case MapT(e) => r := EncodeCounted(enc, e, v.items);
    case SetT(e) => r := EncodeCounted(enc, e, v.items);
    case StructT(fs) => r := EncodeFields(enc, fs, v.fields);
    case EnumT(_, _) => r := EncodeEnum(enc, s, v);
  }

  method EncodeOption(enc: StreamEncoder, s: Schema, v: Value) returns (r: Result<(), RegionError>)
    requires enc.Streaming() && s.OptionT? && Typed(s, v)
    modifies enc.Repr
    ensures r.Ok? && enc.Streaming() && fresh(enc.Repr - old(enc.Repr))
    ensures enc.State() == WriteAll(enc.switch.p, enc.switch.seed, old(enc.State()), Writes(s, v))
    decreases s, 0, 0
  {
    r := EncodeBytes(enc, [if v.Present? then 1 else 0]);
    if r.Err? { return; }
    if v.Present? {
      WriteAllAppend(enc.switch.p, enc.switch.seed, old(enc.State()), [[1]], Writes(s.elem, v.v));
      r := EncodeValue(enc, s.elem, v.v);
    }
  }

  method EncodeResult(enc: StreamEncoder, s: Schema, v: Value) returns (r: Result<(), RegionError>)
    requires enc.Streaming() && s.ResultT? && Typed(s, v)
    modifies enc.Repr
    ensures r.Ok? && enc.Streaming() && fresh(enc.Repr - old(enc.Repr))
    ensures enc.State() == WriteAll(enc.switch.p, enc.switch.seed, old(enc.State()), Writes(s, v))
    decreases s, 0, 0
  {
    var inner := if v.Success? then s.ok else s.err;
    var tag: bytes := [if v.Success? then 1 else 0];
    WriteAllAppend(enc.switch.p, enc.switch.seed, enc.State(), [tag], Writes(inner, v.v));
    r := EncodeBytes(enc, tag);
    if r.Err? { return; }
    r := EncodeValue(enc, inner, v.v);
  }

  method EncodeEnum(enc: StreamEncoder, s: Schema, v: Value) returns (r: Result<(), RegionError>)
    requires enc.Streaming() && s.EnumT? && Typed(s, v)
    modifies enc.Repr
    ensures r.Ok? && enc.Streaming() && fresh(enc.Repr - old(enc.Repr))
    ensures enc.State() == WriteAll(enc.switch.p, enc.switch.seed, old(enc.State()), Writes(s, v))
    decreases s, 0, 0
  {
    var fs, tag := s.variants[v.tag].fields, ToLe(v.tag, s.tagWidth);
    WriteAllAppend(enc.switch.p, enc.switch.seed, enc.State(), [tag], WritesFields(fs, v.fields));
    r := EncodeBytes(enc, tag);
    if r.Err? { return; }
    r := EncodeFields(enc, fs, v.fields);
  }

  method EncodeCounted(enc: StreamEncoder, e: Schema, items: seq<Value>) returns (r: Result<(), RegionError>)
    requires enc.Streaming() && TypedList(e, items)
    modifies enc.Repr
    ensures r.Ok? && enc.Streaming() && fresh(enc.Repr - old(enc.Repr))
    ensures enc.State() == WriteAll(enc.switch.p, enc.switch.seed, old(enc.State()),
                                    [ToLe(|items|, LENGTH_WIDTH)] + WritesList(e, items))
    decreases e, 2
  {
    var count := ToLe(|items|, LENGTH_WIDTH);
    WriteAllAppend(enc.switch.p, enc.switch.seed, enc.State(), [count], WritesList(e, items));
    r := EncodeBytes(enc, count);
    if r.Err? { return; }
    r := EncodeList(enc, e, items);
  }

  method EncodeList(enc: StreamEncoder, e: Schema, items: seq<Value>) returns (r: Result<(), RegionError>)
    requires enc.Streaming() && TypedList(e, items)
    modifies enc.Repr
    ensures r.Ok? && enc.Streaming() && fresh(enc.Repr - old(enc.Repr))
    ensures enc.State() == WriteAll(enc.switch.p, enc.switch.seed, old(enc.State()), WritesList(e, items))
    decreases e, 1
  {
    ghost var p, seed, start := enc.switch.p, enc.switch.seed, enc.State();
    r := Ok(());
    for i := 0 to |items|
      invariant r.Ok? && enc.Streaming() && fresh(enc.Repr - old(enc.Repr))
      invariant TypedList(e, items[i..])
      invariant WriteAll(p, seed, start, WritesList(e, items))
             == WriteAll(p, seed, enc.State(), WritesList(e, items[i..]))
    {
      NextItem(p, seed, enc.State(), e, items, i);
      r := EncodeValue(enc, e, items[i]);
      if r.Err? { return; }
    }
  }

  lemma NextItem(p: Platform, seed: Option<nat>, st: EncState, e: Schema, items: seq<Value>, i: nat)
    requires i < |items| && TypedList(e, items[i..])
    ensures Typed(e, items[i]) && TypedList(e, items[i + 1..])
    ensures WriteAll(p, seed, st, WritesList(e, items[i..]))
         == WriteAll(p, seed, WriteAll(p, seed, st, Writes(e, items[i])), WritesList(e, items[i + 1..]))
  {
    var todo := items[i..];
    assert todo[0] == items[i] && todo[1..] == items[i + 1..];
    WriteAllAppend(p, seed, st, Writes(e, items[i]), WritesList(e, items[i + 1..]));
  }

  method EncodeString(enc: StreamEncoder, utf8: bytes) returns (r: Result<(), RegionError>)
    requires enc.Streaming()
    modifies enc.Repr
    ensures r.Ok? && enc.Streaming() && fresh(enc.Repr - old(enc.Repr))
    ensures enc.State()
         == WriteAll(enc.switch.p, enc.switch.seed, old(enc.State()), [ToLe(|utf8|, LENGTH_WIDTH)] + Bytewise(utf8))
  {
    var count := ToLe(|utf8|, LENGTH_WIDTH);
    WriteAllAppend(enc.switch.p, enc.switch.seed, enc.State(), [count], Bytewise(utf8));
    r := EncodeBytes(enc, count);
    if r.Err? { return; }
    r := EncodeSlice(enc, utf8);
  }

  method EncodeSlice(enc: StreamEncoder, b: bytes) returns (r: Result<(), RegionError>)
    requires enc.Streaming()
    modifies enc.Repr
    ensures r.Ok? && enc.Streaming() && fresh(enc.Repr - old(enc.Repr))
    ensures enc.State() == WriteAll(enc.switch.p, enc.switch.seed, old(enc.State()), Bytewise(b))
  {
    ghost var p, seed, start := enc.switch.p, enc.switch.seed, enc.State();
    r := Ok(());
    for i := 0 to |b|
      invariant r.Ok? && enc.Streaming() && fresh(enc.Repr - old(enc.Repr))
      invariant WriteAll(p, seed, start, Bytewise(b)) == WriteAll(p, seed, enc.State(), Bytewise(b[i..]))
    {
      NextByte(p, seed, enc.State(), b, i);
      r := EncodeBytes(enc, [b[i]]);
      if r.Err? { return; }
    }
  }

  lemma NextByte(p: Platform, seed: Option<nat>, st: EncState, b: bytes, i: nat)
    requires i < |b|
    ensures WriteAll(p, seed, st, Bytewise(b[i..]))
         == WriteAll(p, seed, WriteAll(p, seed, st, [[b[i]]]), Bytewise(b[i + 1..]))
  {
    var todo := b[i..];
    assert todo[0] == b[i] && todo[1..] == b[i + 1..];
    WriteAllAppend(p, seed, st, [[b[i]]], Bytewise(b[i + 1..]));
  }

  method EncodeFields(enc: StreamEncoder, fs: seq<Field>, vs: seq<Value>) returns (r: Result<(), RegionError>)
    requires enc.Streaming() && TypedFields(fs, vs)
    modifies enc.Repr
    ensures r.Ok? && enc.Streaming() && fresh(enc.Repr - old(enc.Repr))
    ensures enc.State() == WriteAll(enc.switch.p, enc.switch.seed, old(enc.State()), WritesFields(fs, vs))
    decreases fs, 0, 1
  {
    if fs == [] {
      return Ok(());
    }
    WriteAllAppend(enc.switch.p, enc.switch.seed, enc.State(),
                   WritesField(fs[0], vs[0]), WritesFields(fs[1..], vs[1..]));
    r := EncodeField(enc, fs[0], vs[0]);
    if r.Err? { return; }
    r := EncodeFields(enc, fs[1..], vs[1..]);
  }

  method EncodeField(enc: StreamEncoder, f: Field, v: Value) returns (r: Result<(), RegionError>)
    requires enc.Streaming() && TypedField(f, v)
    modifies enc.Repr
    ensures r.Ok? && enc.Streaming() && fresh(enc.Repr - old(enc.Repr))
    ensures enc.State() == WriteAll(enc.switch.p, enc.switch.seed, old(enc.State()), WritesField(f, v))
    decreases f, 0, 1
  {
    if f.skip.Some? {
      return Ok(());
    }
    r := EncodeValue(enc, f.schema, v);
  }

  // Decoding. Every method returns what decoding from the tape returns and, unless that is an error,
  // leaves the decoder where the tape is left.

  /** The result `r` and the decoder's state are those of `d`; in any case the source is in step with
      the regions accepted. */
  ghost predicate Follows<T>(d: Decoding<T>, r: Result<T, DecodeError>, dec: StreamDecoder)
    reads dec, dec.Repr, dec.switch.source
  {
    && dec.Positioned()
    && match d
      case Err(e) => r == Err(e)
      case Ok(x) => r == Ok(x.value) && dec.Valid() && dec.Remaining() == x.tape
  }

  method ReadBytes(dec: StreamDecoder, n: nat) returns (r: Result<bytes, DecodeError>)
    requires dec.Valid()
    modifies dec.Repr
    ensures Follows(Fetch(old(dec.Remaining()), n), r, dec) && fresh(dec.Repr - old(dec.Repr))
  {
    var data := dec.Read(n);
    r := match data case Err(e) => Err(BearerError(e)) case Ok(b) => Ok(b);
  }

  method ReadInt(dec: StreamDecoder, width: nat) returns (r: Result<nat, DecodeError>)
    requires dec.Valid()
    modifies dec.Repr
    ensures Follows(FetchInt(old(dec.Remaining()), width), r, dec) && fresh(dec.Repr - old(dec.Repr))
  {
    var b := ReadBytes(dec, width);
    r := match b case Err(e) => Err(e) case Ok(b) => Ok(FromLe(b));
  }

  method ReadChar(dec: StreamDecoder) returns (r: Result<Value, DecodeError>)
    requires dec.Valid()
    modifies dec.Repr
    ensures Follows(FetchChar(old(dec.Remaining())), r, dec) && fresh(dec.Repr - old(dec.Repr))
  {
    var first := ReadBytes(dec, 1);
    if first.Err? { return Err(first.error); }
    var leading := first.value[0];
    var n := Continuation(leading);
    if n == None { return Err(InvalidPattern); }
    if n == Some(0) { return Ok(Char(leading)); }
    var remaining := ReadBytes(dec, n.value);
    if remaining.Err? { return Err(remaining.error); }
    var c := DecodeChar(leading, remaining.value);
    r := if c == None then Err(InvalidPattern) else Ok(Char(c.value));
  }

  method DecodeValue(dec: StreamDecoder, s: Schema) returns (r: Result<Value, DecodeError>)
    requires dec.Valid()
    modifies dec.Repr
    ensures Follows(Decode(s, old(dec.Remaining())), r, dec) && fresh(dec.Repr - old(dec.Repr))
    decreases s, 0, 1
  {
    match s
    case UIntT(w) =>
      var n := ReadInt(dec, w);
      r := match n case Err(e) => Err(e) case Ok(n) => Ok(Int(n));
    case IntT(w) =>
      var n := ReadInt(dec, w);
      r := match n case Err(e) => Err(e) case Ok(n) => Ok(Int(Signed(n, w)));
    case BoolT =>
      var n := ReadInt(dec, 1);
      r := match n
        case Err(e) => Err(e)
        case Ok(n) => if n <= 1 then Ok(Bool(n == 1)) else Err(InvalidPattern);
    case CharT => r := ReadChar(dec);
    case UnitT => r := Ok(Unit);
    case OptionT(_) => r := DecodeOption(dec, s);
    case ResultT(_, _) => r := DecodeResult(dec, s);
    case ArrayT(n, e) =>
      var items := DecodeItems(dec, e, n);
      r := match items case Err(err) => Err(err) case Ok(xs) => Ok(List(xs));
    case VecT(e) =>
      var items := DecodeVec(dec, e);
      r := match items case Err(err) => Err(err) case Ok(xs) => Ok(List(xs));
    case StringT => r := DecodeString(dec);
    case MapT(e) => r := DecodeMap(dec, e);
    case SetT(e) => r := DecodeSet(dec, e);
    case StructT(fs) =>
      var fields := DecodeRecord(dec, fs);
      r := match fields case Err(e) => Err(e) case Ok(xs) => Ok(Record(xs));
    case EnumT(_, _) => r := DecodeEnum(dec, s);
  }

  method DecodeOption(dec: StreamDecoder, s: Schema) returns (r: Result<Value, DecodeError>)
    requires s.OptionT?
    requires dec.Valid()
    modifies dec.Repr
    ensures Follows(Decode(s, old(dec.Remaining())), r, dec) && fresh(dec.Repr - old(dec.Repr))
    decreases s, 0, 0
  {
    hide PullAll, Consecutive;
    var tag := ReadInt(dec, 1);
    if tag.Err? { return Err(tag.error); }
    if tag.value == 0 { return Ok(Absent); }
    if tag.value != 1 { return Err(InvalidPattern); }
    var v := DecodeValue(dec, s.elem);
    r := match v case Err(e) => Err(e) case Ok(x) => Ok(Present(x));
  }

  method DecodeResult(dec: StreamDecoder, s: Schema) returns (r: Result<Value, DecodeError>)
    requires s.ResultT?
    requires dec.Valid()
    modifies dec.Repr
    ensures Follows(Decode(s, old(dec.Remaining())), r, dec) && fresh(dec.Repr - old(dec.Repr))
    decreases s, 0, 0
  {
    hide PullAll, Consecutive;
    var tag := ReadInt(dec, 1);
    if tag.Err? { return Err(tag.error); }
    if tag.value > 1 { return Err(InvalidPattern); }
    var v := DecodeValue(dec, if tag.value == 1 then s.ok else s.err);
    r := match v case Err(e) => Err(e) case Ok(x) => Ok(if tag.value == 1 then Success(x) else Failure(x));
  }

  method DecodeEnum(dec: StreamDecoder, s: Schema) returns (r: Result<Value, DecodeError>)
    requires s.EnumT?
    requires dec.Valid()
    modifies dec.Repr
    ensures Follows(Decode(s, old(dec.Remaining())), r, dec) && fresh(dec.Repr - old(dec.Repr))
    decreases s, 0, 0
  {
    hide PullAll, Consecutive;
    var tag := ReadInt(dec, s.tagWidth);
    if tag.Err? { return Err(tag.error); }
    if tag.value >= |s.variants| { return Err(InvalidPattern); }
    var fields := DecodeRecord(dec, s.variants[tag.value].fields);
    r := match fields case Err(e) => Err(e) case Ok(xs) => Ok(Variant(tag.value, xs));
  }

  method DecodeVec(dec: StreamDecoder, e: Schema) returns (r: Result<seq<Value>, DecodeError>)
    requires dec.Valid()
    modifies dec.Repr
    ensures Follows(DecodeCounted(e, old(dec.Remaining())), r, dec) && fresh(dec.Repr - old(dec.Repr))
    decreases e, 2, 0
  {
    var count := ReadInt(dec, LENGTH_WIDTH);
    if count.Err? { return Err(count.error); }
    r := DecodeItems(dec, e, count.value);
  }

  method DecodeItems(dec: StreamDecoder, e: Schema, n: nat) returns (r: Result<seq<Value>, DecodeError>)
    requires dec.Valid()
    modifies dec.Repr
    ensures Follows(DecodeList(e, n, [], old(dec.Remaining())), r, dec) && fresh(dec.Repr - old(dec.Repr))
    decreases e, 1, 0
  {
    var items: seq<Value> := [];
    for i := 0 to n
      invariant dec.Valid() && fresh(dec.Repr - old(dec.Repr)) && |items| == i
      invariant DecodeList(e, n, [], old(dec.Remaining())) == DecodeList(e, n, items, dec.Remaining())
    {
      var item := DecodeValue(dec, e);
      if item.Err? { return Err(item.error); }
      items := items + [item.value];
    }
    r := Ok(items);
  }

  method DecodeString(dec: StreamDecoder) returns (r: Result<Value, DecodeError>)
    requires dec.Valid()
    modifies dec.Repr
    ensures Follows(FetchString(old(dec.Remaining())), r, dec) && fresh(dec.Repr - old(dec.Repr))
  {
    var utf8 := DecodeByteVec(dec);
    r := match utf8
      case Err(e) => Err(e)
      case Ok(b) => if ValidUtf8(b) then Ok(Str(b)) else Err(InvalidPattern);
  }

  method DecodeByteVec(dec: StreamDecoder) returns (r: Result<bytes, DecodeError>)
    requires dec.Valid()
    modifies dec.Repr
    ensures Follows(FetchSlice(old(dec.Remaining())), r, dec) && fresh(dec.Repr - old(dec.Repr))
  {
    var count := ReadInt(dec, LENGTH_WIDTH);
    if count.Err? { return Err(count.error); }
    r := DecodeSlice(dec, count.value);
  }

  method DecodeSlice(dec: StreamDecoder, n: nat) returns (r: Result<bytes, DecodeError>)
    requires dec.Valid()
    modifies dec.Repr
    ensures Follows(FetchBytes(n, [], old(dec.Remaining())), r, dec) && fresh(dec.Repr - old(dec.Repr))
  {
    var b: bytes := [];
    for i := 0 to n
      invariant dec.Valid() && fresh(dec.Repr - old(dec.Repr)) && |b| == i
      invariant FetchBytes(n, [], old(dec.Remaining())) == FetchBytes(n, b, dec.Remaining())
    {
      var next := ReadBytes(dec, 1);
      if next.Err? { return Err(next.error); }
      b := b + next.value;
    }
    r := Ok(b);
  }

  function Inserted(items: Decoding<seq<Value>>): Decoding<map<Value, Value>> {
    match items
    case Err(e) => Err(e)
    case Ok(x) => Ok(Decoded(InsertAll(map[], x.value), x.tape))
  }

  function Collected(items: Decoding<seq<Value>>): Decoding<set<Value>> {
    match items
    case Err(e) => Err(e)
    case Ok(x) => Ok(Decoded(ToSet(x.value), x.tape))
  }

  lemma MapAndSetDecoding(e: Schema, t: Tape)
    ensures match Inserted(DecodeCounted(e, t))
      case Err(err) => Decode(MapT(e), t) == Err(err)
      case Ok(x) => Decode(MapT(e), t) == Ok(Decoded(Dict(x.value), x.tape))
    ensures match Collected(DecodeCounted(e, t))
      case Err(err) => Decode(SetT(e), t) == Err(err)
      case Ok(x) => Decode(SetT(e), t) == Ok(Decoded(Elems(x.value), x.tape))
  {
  }

  lemma NextDecoded(e: Schema, n: nat, done: seq<Value>, t: Tape)
    requires |done| < n
    ensures match Decode(e, t)
      case Err(err) => DecodeList(e, n, done, t) == Err(err)
      case Ok(d) => DecodeList(e, n, done, t) == DecodeList(e, n, done + [d.value], d.tape)
  {
  }

  lemma AllDecoded(e: Schema, n: nat, done: seq<Value>, t: Tape)
    requires |done| == n
    ensures DecodeList(e, n, done, t) == Ok(Decoded(done, t))
  {
  }

  method DecodeMap(dec: StreamDecoder, e: Schema) returns (r: Result<Value, DecodeError>)
    requires dec.Valid()
    modifies dec.Repr
    ensures Follows(Decode(MapT(e), old(dec.Remaining())), r, dec) && fresh(dec.Repr - old(dec.Repr))
    decreases e, 3, 0
  {
    MapAndSetDecoding(e, dec.Remaining());
    var result := CountedMap(dec, e);
    r := match result case Err(err) => Err(err) case Ok(m) => Ok(Dict(m));
  }

  method CountedMap(dec: StreamDecoder, e: Schema) returns (r: Result<map<Value, Value>, DecodeError>)
    requires dec.Valid()
    modifies dec.Repr
    ensures var items := DecodeCounted(e, old(dec.Remaining()));
      Follows(Inserted(items), r, dec)
    ensures fresh(dec.Repr - old(dec.Repr))
    decreases e, 2, 0
  {
    var count := ReadInt(dec, LENGTH_WIDTH);
    if count.Err? { return Err(count.error); }
    r := InsertItems(dec, e, count.value);
  }

  method InsertItems(dec: StreamDecoder, e: Schema, n: nat) returns (r: Result<map<Value, Value>, DecodeError>)
    requires dec.Valid()
    modifies dec.Repr
    ensures var items := DecodeList(e, n, [], old(dec.Remaining()));
      Follows(Inserted(items), r, dec)
    ensures fresh(dec.Repr - old(dec.Repr))
    decreases e, 1, 0
  {
    ghost var pairs: seq<Value> := [];
    var result: map<Value, Value> := map[];
    assert InsertAll(map[], pairs) == result;
    hide Insert, InsertAll, Decode, DecodeList, PullAll, Consecutive;
    for i := 0 to n
      invariant dec.Valid() && fresh(dec.Repr - old(dec.Repr)) && |pairs| == i
      invariant DecodeList(e, n, [], old(dec.Remaining())) == DecodeList(e, n, pairs, dec.Remaining())
      invariant result == InsertAll(map[], pairs)
    {
      NextDecoded(e, n, pairs, dec.Remaining());
      var pair := DecodeValue(dec, e);
      if pair.Err? { return Err(pair.error); }
      InsertAllSnoc(map[], pairs, pair.value);
      result := Insert(result, pair.value);
      pairs := pairs + [pair.value];
    }
    AllDecoded(e, n, pairs, dec.Remaining());
    r := Ok(result);
  }

  method DecodeSet(dec: StreamDecoder, e: Schema) returns (r: Result<Value, DecodeError>)
    requires dec.Valid()
    modifies dec.Repr
    ensures Follows(Decode(SetT(e), old(dec.Remaining())), r, dec) && fresh(dec.Repr - old(dec.Repr))
    decreases e, 3, 0
  {
    MapAndSetDecoding(e, dec.Remaining());
    var result := CountedSet(dec, e);
    r := match result case Err(err) => Err(err) case Ok(s) => Ok(Elems(s));
  }

  method CountedSet(dec: StreamDecoder, e: Schema) returns (r: Result<set<Value>, DecodeError>)
    requires dec.Valid()
    modifies dec.Repr
    ensures var items := DecodeCounted(e, old(dec.Remaining()));
      Follows(Collected(items), r, dec)
    ensures fresh(dec.Repr - old(dec.Repr))
    decreases e, 2, 0
  {
    var count := ReadInt(dec, LENGTH_WIDTH);
    if count.Err? { return Err(count.error); }
    r := CollectItems(dec, e, count.value);
  }

  method CollectItems(dec: StreamDecoder, e: Schema, n: nat) returns (r: Result<set<Value>, DecodeError>)
    requires dec.Valid()
    modifies dec.Repr
    ensures var items := DecodeList(e, n, [], old(dec.Remaining()));
      Follows(Collected(items), r, dec)
    ensures fresh(dec.Repr - old(dec.Repr))
    decreases e, 1, 0
  {
    ghost var items: seq<Value> := [];
    var result: set<Value> := {};
    assert ToSet(items) == result;
    hide ToSet, Decode, DecodeList, PullAll, Consecutive;
    for i := 0 to n
      invariant dec.Valid() && fresh(dec.Repr - old(dec.Repr)) && |items| == i
      invariant DecodeList(e, n, [], old(dec.Remaining())) == DecodeList(e, n, items, dec.Remaining())
      invariant result == ToSet(items)
    {
      NextDecoded(e, n, items, dec.Remaining());
      var item := DecodeValue(dec, e);
      if item.Err? { return Err(item.error); }
      ToSetSnoc(items, item.value);
      result := result + {item.value};
      items := items + [item.value];
    }
    AllDecoded(e, n, items, dec.Remaining());
    r := Ok(result);
  }

  lemma ToSetSnoc(items: seq<Value>, x: Value)
    ensures ToSet(items + [x]) == ToSet(items) + {x}
  {
  }

  method DecodeRecord(dec: StreamDecoder, fs: seq<Field>) returns (r: Result<seq<Value>, DecodeError>)
    requires dec.Valid()
    modifies dec.Repr
    ensures Follows(DecodeFields(fs, old(dec.Remaining())), r, dec) && fresh(dec.Repr - old(dec.Repr))
    decreases fs, 0, 1
  {
    if fs == [] {
      return Ok([]);
    }
    var first := DecodeMember(dec, fs[0]);
    if first.Err? { return Err(first.error); }
    var rest := DecodeRecord(dec, fs[1..]);
    r := match rest case Err(e) => Err(e) case Ok(xs) => Ok([first.value] + xs);
  }

  method DecodeMember(dec: StreamDecoder, f: Field) returns (r: Result<Value, DecodeError>)
    requires dec.Valid()
    modifies dec.Repr
    ensures Follows(DecodeField(f, old(dec.Remaining())), r, dec) && fresh(dec.Repr - old(dec.Repr))
    decreases f, 0, 1
  {
    match f.skip
    case Some(default) => r := Ok(default);
    case None => r := DecodeValue(dec, f.schema);
  }
}
