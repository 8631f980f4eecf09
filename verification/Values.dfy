/** The schemas a value can be encoded under, the writes of its encoding, and decoding from a tape. */
module Values {
  import opened Bytes
  import opened Regions
  import opened Tapes
  import opened Utf8

  /** A field of a derived struct or enum variant; a skipped one has the value decoding gives it. */
  datatype Field = Field(schema: Schema, skip: Option<Value>)

  datatype VariantShape = VariantShape(fields: seq<Field>)

  /** The encodable types. A tuple is a struct without skipped fields, and the entry of a map is the
      pair of its key and its value. */
  datatype Schema =
    | UIntT(width: nat)
    | IntT(width: nat)
    | BoolT
    | CharT
    | UnitT
    | OptionT(elem: Schema)
    | ResultT(ok: Schema, err: Schema)
    | ArrayT(count: nat, elem: Schema)
    | VecT(elem: Schema)
    | StringT
    | MapT(entry: Schema)
    | SetT(elem: Schema)
    | StructT(fields: seq<Field>)
    | EnumT(tagWidth: nat, variants: seq<VariantShape>)

  /** Values. In the value to be encoded, a map or a set is the `List` of its entries in the order
      its iterator yields them; in a decoded value it is a `Dict` or an `Elems`. */
  datatype Value =
    | Int(n: int)
    | Bool(b: bool)
    | Char(c: nat)
    | Unit
    | Absent
    | Present(v: Value)
    | Success(v: Value)
    | Failure(v: Value)
    | List(items: seq<Value>)
    | Str(utf8: bytes)
    | Dict(m: map<Value, Value>)
    | Elems(s: set<Value>)
    | Record(fields: seq<Value>)
    | Variant(tag: nat, fields: seq<Value>)

  const LENGTH_WIDTH: nat := 4

  predicate ValidWidth(width: nat) {
    1 <= width <= 16
  }

  // What may be encoded.

  predicate Typed(s: Schema, v: Value)
    decreases s, 0
  {
    match s
    case UIntT(w) => ValidWidth(w) && v.Int? && 0 <= v.n < Pow256(w)
    case IntT(w) => ValidWidth(w) && v.Int? && 0 <= 2 * v.n + Pow256(w) < 2 * Pow256(w)
    case BoolT => v.Bool?
    case CharT => v.Char? && IsScalar(v.c)
    case UnitT => v.Unit?
    case OptionT(e) => v.Absent? || (v.Present? && Typed(e, v.v))
    case ResultT(ok, err) => (v.Success? && Typed(ok, v.v)) || (v.Failure? && Typed(err, v.v))
    case ArrayT(n, e) => v.List? && |v.items| == n && TypedList(e, v.items)
    case VecT(e) => v.List? && TypedList(e, v.items)
    case StringT => v.Str? && ValidUtf8(v.utf8)
    case MapT(e) => IsEntry(e) && v.List? && TypedList(e, v.items)
    case SetT(e) => v.List? && TypedList(e, v.items)
    case StructT(fs) => v.Record? && TypedFields(fs, v.fields)
    case EnumT(w, vs) => ValidWidth(w) && v.Variant? && v.tag < |vs| && TypedFields(vs[v.tag].fields, v.fields)
  }

  /** The schema of the pairs a map is written as. */
  predicate IsEntry(s: Schema) {
    s.StructT? && |s.fields| == 2 && s.fields[0].skip == Option.None && s.fields[1].skip == Option.None
  }

  predicate TypedList(e: Schema, items: seq<Value>)
    decreases e, |items| + 1
  {
    items == [] || (Typed(e, items[0]) && TypedList(e, items[1..]))
  }

  predicate TypedFields(fs: seq<Field>, vs: seq<Value>)
    decreases fs, 0
  {
    && |fs| == |vs|
    && (fs != [] ==> TypedField(fs[0], vs[0]) && TypedFields(fs[1..], vs[1..]))
  }

  predicate TypedField(f: Field, v: Value)
    decreases f, 0
  {
    f.skip.None? ==> Typed(f.schema, v)
  }

  // Lengths are cast to 32 bits and tags to the tag's width; these are the values whose lengths and
  // tags survive that.

  predicate Countable(s: Schema, v: Value)
    requires Typed(s, v)
    decreases s, 0
  {
    match s
    case OptionT(e) => v.Present? ==> Countable(e, v.v)
    case ResultT(ok, err) => if v.Success? then Countable(ok, v.v) else Countable(err, v.v)
    case ArrayT(_, e) => CountableList(e, v.items)
    case VecT(e) => |v.items| < Pow256(LENGTH_WIDTH) && CountableList(e, v.items)
    case StringT => |v.utf8| < Pow256(LENGTH_WIDTH)
    case MapT(e) => |v.items| < Pow256(LENGTH_WIDTH) && CountableList(e, v.items)
    case SetT(e) => |v.items| < Pow256(LENGTH_WIDTH) && CountableList(e, v.items)
    case StructT(fs) => CountableFields(fs, v.fields)
    case EnumT(w, vs) => v.tag < Pow256(w) && CountableFields(vs[v.tag].fields, v.fields)
    case _ => true
  }

  predicate CountableList(e: Schema, items: seq<Value>)
    requires TypedList(e, items)
    decreases e, |items| + 1
  {
    items == [] || (Countable(e, items[0]) && CountableList(e, items[1..]))
  }

  predicate CountableFields(fs: seq<Field>, vs: seq<Value>)
    requires TypedFields(fs, vs)
    decreases fs, 0
  {
    fs == [] || (CountableField(fs[0], vs[0]) && CountableFields(fs[1..], vs[1..]))
  }

  predicate CountableField(f: Field, v: Value)
    requires TypedField(f, v)
    decreases f, 0
  {
    f.skip.None? ==> Countable(f.schema, v)
  }

  // Encoding: the writes requested from the bearer, in order.

  function Writes(s: Schema, v: Value): (ws: seq<bytes>)
    requires Typed(s, v)
    decreases s, 0
  {
    match s
    case UIntT(w) => [ToLe(v.n, w)]
    case IntT(w) => [ToLe(TwosComplement(v.n, w), w)]
    case BoolT => [[if v.b then 1 else 0]]
    case CharT => [EncodeChar(v.c)]
    case UnitT => []
    case OptionT(e) => if v.Absent? then [[0]] else [[1]] + Writes(e, v.v)
    case ResultT(ok, err) => if v.Success? then [[1]] + Writes(ok, v.v) else [[0]] + Writes(err, v.v)
    case ArrayT(_, e) => WritesList(e, v.items)
    case VecT(e) => [ToLe(|v.items|, LENGTH_WIDTH)] + WritesList(e, v.items)
    case StringT => [ToLe(|v.utf8|, LENGTH_WIDTH)] + Bytewise(v.utf8)
    case MapT(e) => [ToLe(|v.items|, LENGTH_WIDTH)] + WritesList(e, v.items)
    case SetT(e) => [ToLe(|v.items|, LENGTH_WIDTH)] + WritesList(e, v.items)
    case StructT(fs) => WritesFields(fs, v.fields)
    case EnumT(w, vs) => [ToLe(v.tag, w)] + WritesFields(vs[v.tag].fields, v.fields)
  }

  function WritesList(e: Schema, items: seq<Value>): seq<bytes>
    requires TypedList(e, items)
    decreases e, |items| + 1
  {
    if items == [] then [] else Writes(e, items[0]) + WritesList(e, items[1..])
  }

  function WritesFields(fs: seq<Field>, vs: seq<Value>): seq<bytes>
    requires TypedFields(fs, vs)
    decreases fs, 0
  {
    if fs == [] then []
    else WritesField(fs[0], vs[0]) + WritesFields(fs[1..], vs[1..])
  }

  function WritesField(f: Field, v: Value): seq<bytes>
    requires TypedField(f, v)
    decreases f, 0
  {
    if f.skip.None? then Writes(f.schema, v) else []
  }

  /** The bit pattern of a signed integer of `width` bytes, as an unsigned one. */
  function TwosComplement(n: int, width: nat): nat
    requires 0 <= 2 * n + Pow256(width) < 2 * Pow256(width)
  {
    if n < 0 then n + Pow256(width) else n
  }

  function Signed(n: nat, width: nat): int {
    if 2 * n < Pow256(width) then n else n - Pow256(width)
  }

  /** A string is written as a slice of bytes, one write a byte. */
  function Bytewise(b: bytes): seq<bytes> {
    if b == [] then [] else [[b[0]]] + Bytewise(b[1..])
  }

  // What decoding makes of an encoded value: skipped fields have their defaults, maps and sets have
  // forgotten the order they were iterated in.

  function Meaning(s: Schema, v: Value): Value
    requires Typed(s, v)
    decreases s, 0
  {
    match s
    case OptionT(e) => if v.Absent? then v else Present(Meaning(e, v.v))
    case ResultT(ok, err) => if v.Success? then Success(Meaning(ok, v.v)) else Failure(Meaning(err, v.v))
    case ArrayT(_, e) => List(MeaningList(e, v.items))
    case VecT(e) => List(MeaningList(e, v.items))
    case MapT(e) => Dict(InsertAll(map[], MeaningList(e, v.items)))
    case SetT(e) => Elems(ToSet(MeaningList(e, v.items)))
    case StructT(fs) => Record(MeaningFields(fs, v.fields))
    case EnumT(_, vs) => Variant(v.tag, MeaningFields(vs[v.tag].fields, v.fields))
    case _ => v
  }

  function MeaningList(e: Schema, items: seq<Value>): (r: seq<Value>)
    requires TypedList(e, items)
    ensures |r| == |items|
    decreases e, |items| + 1
  {
    if items == [] then [] else [Meaning(e, items[0])] + MeaningList(e, items[1..])
  }

  function MeaningFields(fs: seq<Field>, vs: seq<Value>): (r: seq<Value>)
    requires TypedFields(fs, vs)
    ensures |r| == |fs|
    decreases fs, 0
  {
    if fs == [] then []
    else [MeaningField(fs[0], vs[0])] + MeaningFields(fs[1..], vs[1..])
  }

  function MeaningField(f: Field, v: Value): Value
    requires TypedField(f, v)
    decreases f, 0
  {
    match f.skip
    case Some(default) => default
    case None => Meaning(f.schema, v)
  }

  /** Inserts pairs one after another; a later pair replaces an earlier one with the same key. */
  function InsertAll(m: map<Value, Value>, pairs: seq<Value>): map<Value, Value>
    decreases |pairs|
  {
    if pairs == [] then m else InsertAll(Insert(m, pairs[0]), pairs[1..])
  }

  function Insert(m: map<Value, Value>, pair: Value): map<Value, Value> {
    if pair.Record? && |pair.fields| == 2 then m[pair.fields[0] := pair.fields[1]] else m
  }

  lemma {:induction false} InsertAllSnoc(m: map<Value, Value>, pairs: seq<Value>, pair: Value)
    ensures InsertAll(m, pairs + [pair]) == Insert(InsertAll(m, pairs), pair)
    decreases |pairs|
  {
    if pairs == [] {
      assert [] + [pair] == [pair] && [pair][1..] == [];
    } else {
      assert (pairs + [pair])[1..] == pairs[1..] + [pair];
      InsertAllSnoc(Insert(m, pairs[0]), pairs[1..], pair);
    }
  }

  function ToSet(items: seq<Value>): set<Value> {
    set x | x in items
  }

  // Decoding.

  datatype DecodeError = BearerError(error: RegionError) | InvalidPattern

  datatype Decoded<+T> = Decoded(value: T, tape: Tape)

  type Decoding<+T> = Result<Decoded<T>, DecodeError>

  function Fetch(t: Tape, n: nat): (r: Decoding<bytes>)
    ensures r.Ok? ==> |r.value.value| == n
  {
    match Read(t, n)
    case Err(e) => Err(BearerError(e))
    case Ok(x) => Ok(Decoded(x.data, x.tape))
  }

  function FetchInt(t: Tape, width: nat): Decoding<nat> {
    match Fetch(t, width)
    case Err(e) => Err(e)
    case Ok(d) => Ok(Decoded(FromLe(d.value), d.tape))
  }

  function FetchChar(t: Tape): Decoding<Value> {
    match Fetch(t, 1)
    case Err(e) => Err(e)
    case Ok(d) =>
      var leading := d.value[0];
      match Continuation(leading)
      case None => Err(InvalidPattern)
      case Some(n) =>
        if n == 0 then Ok(Decoded(Char(leading), d.tape))
        else match Fetch(d.tape, n)
          case Err(e) => Err(e)
          case Ok(d') => match DecodeChar(leading, d'.value)
            case None => Err(InvalidPattern)
            case Some(c) => Ok(Decoded(Char(c), d'.tape))
  }

  function Map<T, U>(f: T -> U, d: Decoding<T>): Decoding<U> {
    match d
    case Err(e) => Err(e)
    case Ok(x) => Ok(Decoded(f(x.value), x.tape))
  }

  function Decode(s: Schema, t: Tape): Decoding<Value>
    decreases s, 0, 0
  {
    match s
    case UIntT(w) => Map((n: nat) => Int(n), FetchInt(t, w))
    case IntT(w) => Map((n: nat) => Int(Signed(n, w)), FetchInt(t, w))
    case BoolT => (match FetchInt(t, 1)
      case Err(e) => Err(e)
      case Ok(d) => if d.value <= 1 then Ok(Decoded(Bool(d.value == 1), d.tape)) else Err(InvalidPattern))
    case CharT => FetchChar(t)
    case UnitT => Ok(Decoded(Unit, t))
    case OptionT(e) => (match FetchInt(t, 1)
      case Err(err) => Err(err)
      case Ok(d) =>
        if d.value == 0 then Ok(Decoded(Absent, d.tape))
        else if d.value == 1 then Map(x => Present(x), Decode(e, d.tape))
        else Err(InvalidPattern))
    case ResultT(ok, err) => (match FetchInt(t, 1)
      case Err(e) => Err(e)
      case Ok(d) =>
        if d.value == 0 then Map(x => Failure(x), Decode(err, d.tape))
        else if d.value == 1 then Map(x => Success(x), Decode(ok, d.tape))
        else Err(InvalidPattern))
    case ArrayT(n, e) => Map(x => List(x), DecodeList(e, n, [], t))
    case VecT(e) => Map(x => List(x), DecodeCounted(e, t))
    case StringT => FetchString(t)
    case MapT(e) => Map(x => Dict(InsertAll(map[], x)), DecodeCounted(e, t))
    case SetT(e) => Map(x => Elems(ToSet(x)), DecodeCounted(e, t))
    case StructT(fs) => Map(x => Record(x), DecodeFields(fs, t))
    case EnumT(w, vs) => (match FetchInt(t, w)
      case Err(e) => Err(e)
      case Ok(d) =>
        if d.value < |vs| then Map(x => Variant(d.value, x), DecodeFields(vs[d.value].fields, d.tape))
        else Err(InvalidPattern))
  }

  function DecodeCounted(e: Schema, t: Tape): Decoding<seq<Value>>
    decreases e, 2, 0
  {
    match FetchInt(t, LENGTH_WIDTH)
    case Err(err) => Err(err)
    case Ok(n) => DecodeList(e, n.value, [], n.tape)
  }

  /** Decodes until there are `n` items, `done` being decoded already. */
  function DecodeList(e: Schema, n: nat, done: seq<Value>, t: Tape): Decoding<seq<Value>>
    decreases e, 1, n - |done|
  {
    if |done| >= n then Ok(Decoded(done, t))
    else match Decode(e, t)
      case Err(err) => Err(err)
      case Ok(d) => DecodeList(e, n, done + [d.value], d.tape)
  }

  function FetchBytes(n: nat, done: bytes, t: Tape): Decoding<bytes>
    decreases n - |done|
  {
    if |done| >= n then Ok(Decoded(done, t))
    else match Fetch(t, 1)
      case Err(e) => Err(e)
      case Ok(d) => FetchBytes(n, done + d.value, d.tape)
  }

  function FetchSlice(t: Tape): Decoding<bytes> {
    match FetchInt(t, LENGTH_WIDTH)
    case Err(e) => Err(e)
    case Ok(n) => FetchBytes(n.value, [], n.tape)
  }

  function FetchString(t: Tape): Decoding<Value> {
    match FetchSlice(t)
    case Err(e) => Err(e)
    case Ok(d) => if ValidUtf8(d.value) then Ok(Decoded(Str(d.value), d.tape)) else Err(InvalidPattern)
  }

  function DecodeFields(fs: seq<Field>, t: Tape): Decoding<seq<Value>>
    decreases fs, 0
  {
    if fs == [] then Ok(Decoded([], t))
    else match DecodeField(fs[0], t)
      case Err(e) => Err(e)
      case Ok(d) => Map((rest: seq<Value>) => [d.value] + rest, DecodeFields(fs[1..], d.tape))
  }

  function DecodeField(f: Field, t: Tape): Decoding<Value>
    decreases f, 0
  {
    match f.skip
    case Some(default) => Ok(Decoded(default, t))
    case None => Decode(f.schema, t)
  }
}
