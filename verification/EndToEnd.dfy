/** The whole pipeline: a value written through an encoder and flushed comes back from a decoder. */
module EndToEnd {
  import opened Bytes
  import opened Lz4
  import opened Regions
  import opened Packing
  import opened Memory
  import opened Tapes
  import opened Bearer
  import opened Values
  import opened RoundTrip
  import opened Exactness
  import opened Encoder
  import opened Decoder
  import opened ValueCodec

  /** No implementation requests more than 16 bytes at once, so no write is refused. */
  lemma {:induction false} WritesAreSmall(s: Schema, v: Value)
    requires Typed(s, v)
    ensures Writable(Writes(s, v))
    decreases s, 0, 0
  {
    match s {
      case OptionT(e) => if v.Present? { WritesAreSmall(e, v.v); }
      case ResultT(ok, err) => WritesAreSmall(if v.Success? then ok else err, v.v);
      case ArrayT(_, e) => ListWritesAreSmall(e, v.items);
      case VecT(e) => ListWritesAreSmall(e, v.items);
      case StringT => ByteWritesAreSmall(v.utf8);
      case MapT(e) => ListWritesAreSmall(e, v.items);
      case SetT(e) => ListWritesAreSmall(e, v.items);
      case StructT(fs) => FieldWritesAreSmall(fs, v.fields);
      case EnumT(_, vs) => FieldWritesAreSmall(vs[v.tag].fields, v.fields);
      case _ =>
    }
  }

  lemma {:induction false} ListWritesAreSmall(e: Schema, items: seq<Value>)
    requires TypedList(e, items)
    ensures Writable(WritesList(e, items))
    decreases e, 1, |items|
  {
    if items != [] {
      WritesAreSmall(e, items[0]);
      ListWritesAreSmall(e, items[1..]);
    }
  }

  lemma {:induction false} ByteWritesAreSmall(b: bytes)
    ensures Writable(Bytewise(b))
  {
    if b != [] { ByteWritesAreSmall(b[1..]); }
  }

  lemma {:induction false} FieldWritesAreSmall(fs: seq<Field>, vs: seq<Value>)
    requires TypedFields(fs, vs)
    ensures Writable(WritesFields(fs, vs))
    decreases fs, 0
  {
    if fs != [] {
      FieldWriteIsSmall(fs[0], vs[0]);
      FieldWritesAreSmall(fs[1..], vs[1..]);
    }
  }

  lemma {:induction false} FieldWriteIsSmall(f: Field, v: Value)
    requires TypedField(f, v)
    ensures Writable(WritesField(f, v))
    decreases f, 0
  {
    if f.skip.None? { WritesAreSmall(f.schema, v); }
  }

  /** Every compressed region of the value's stream fits its 16-bit size field. */
  predicate StreamFits(p: Platform, s: Schema, v: Value)
    requires Typed(s, v)
  {
    AllFit(p, [], GroupRegions([], Writes(s, v)))
  }

  /** Values of at most `SAFE_REGION_SIZE` encoded bytes always fit. */
  lemma SmallStreamsFit(p: Platform, s: Schema, v: Value)
    requires p.Lawful() && Typed(s, v) && |Concat(Writes(s, v))| <= SAFE_REGION_SIZE
    ensures StreamFits(p, s, v)
  {
    var ws := Writes(s, v);
    WritesAreSmall(s, v);
    GreedyRegionsArePacked([], ws);
    GreedyRegionsConserve(ws);
    var rs := GroupRegions([], ws);
    forall i | 0 <= i < |rs| ensures |rs[i]| <= |Concat(rs)| {
      RegionWithinTotal(rs, i);
    }
    SafeRegionsFit(p, [], rs);
  }

  lemma {:induction false} RegionWithinTotal(rs: seq<bytes>, i: nat)
    requires i < |rs|
    ensures |rs[i]| <= |Concat(rs)|
    decreases |rs|
  {
    if i > 0 { RegionWithinTotal(rs[1..], i - 1); }
  }

  /** End-to-end round trip: a decoder on the flushed stream of a value, with buffers of any
      capacity, opens exactly when the value wrote at least one byte, and then decodes the value's
      meaning and has nothing left. */
  lemma StreamRoundTrip(p: Platform, seed: Option<nat>, s: Schema, v: Value, next: nat, other: nat)
    requires p.Lawful() && Typed(s, v) && Countable(s, v) && StreamFits(p, s, v)
    ensures var tape := Opened(p, seed, Written(p, seed, Writes(s, v)), next, other);
      && (tape.Ok? <==> Concat(Writes(s, v)) != [])
      && (tape.Ok? ==> Yields(Decode(s, tape.value), Meaning(s, v), []))
      && (tape.Err? ==> tape.error == ReadFailure)
  {
    var ws := Writes(s, v);
    WritesAreSmall(s, v);
    StreamOpensIffWritten(p, seed, ws, next, other);
    var tape := Opened(p, seed, Written(p, seed, ws), next, other);
    if tape.Ok? {
      assert ws + [] == ws;
      ValueReadsBack(s, v, tape.value, []);
    }
  }

  /** The exact condition on a stream: a value that wrote something comes back if and only if all its
      lengths and tags survive their casts. */
  lemma StreamRoundTripIff(p: Platform, seed: Option<nat>, s: Schema, v: Value, next: nat, other: nat)
    requires p.Lawful() && Typed(s, v) && Distinct(s, v) && StreamFits(p, s, v)
    ensures var tape := Opened(p, seed, Written(p, seed, Writes(s, v)), next, other);
      && (tape.Ok? <==> Concat(Writes(s, v)) != [])
      && (tape.Ok? ==> (Yields(Decode(s, tape.value), Meaning(s, v), []) <==> Countable(s, v)))
      && (tape.Ok? && !Countable(s, v) && Decode(s, tape.value).Ok? ==>
            Decode(s, tape.value).value.value != Meaning(s, v))
  {
    var ws := Writes(s, v);
    WritesAreSmall(s, v);
    StreamOpensIffWritten(p, seed, ws, next, other);
    var tape := Opened(p, seed, Written(p, seed, ws), next, other);
    if tape.Ok? {
      assert ws + [] == ws;
      ValueReadsBackIff(s, v, tape.value, []);
      if !Countable(s, v) { UncountableIsNeverDecoded(s, v, tape.value); }
    }
  }

  /** `get` on a decoder built for the source. */
  function DecodeSource(p: Platform, seed: Option<nat>, s: Schema, src: bytes, size: nat): Result<Value, DecodeError> {
    match Opened(p, seed, src, CurrCap(size), PrevCap(size))
    case Err(e) => Err(BearerError(e))
    case Ok(tape) => match Decode(s, tape)
      case Err(e) => Err(e)
      case Ok(d) => Ok(d.value)
  }

  /** A run that starts behind bytes already in the destination only appends. */
  lemma RunAppends(p: Platform, seed: Option<nat>, out: bytes, ws: seq<bytes>)
    requires Writable(ws)
    ensures Emit(p, seed, WriteAll(p, seed, EncState([], [], out), ws)).out == out + Written(p, seed, ws)
  {
    FlushedRunIsFraming(p, seed, EncState([], [], out), ws);
    FlushedRunIsFraming(p, seed, EncState([], [], []), ws);
    var framing := Framing(p, seed, [], GroupRegions([], ws));
    assert [] + framing == framing;
  }

  /** Encodes a value through an encoder machine on `dst` and flushes it. */
  method AppendStream(p: Platform, dst: ByteVec, seed: Option<nat>, s: Schema, v: Value, size: nat)
    requires p.Lawful() && dst.Valid() && Typed(s, v)
    modifies dst, dst.data
    ensures dst.Valid() && dst.View() == old(dst.View()) + Written(p, seed, Writes(s, v))
  {
    WritesAreSmall(s, v);
    RunAppends(p, seed, dst.View(), Writes(s, v));
    var enc := new StreamEncoder(p, dst, size, seed);
    var encoded := EncodeValue(enc, s, v);
    var flushed := enc.Flush();
  }

  /** A decoder machine with new buffers. */
  method OpenStream(p: Platform, seed: Option<nat>, src: bytes, size: nat)
    returns (r: Result<StreamDecoder, RegionError>)
    requires p.Lawful()
    ensures match Opened(p, seed, src, CurrCap(size), PrevCap(size))
      case Err(e) => r == Err(e)
      case Ok(tape) => r.Ok? && r.value.Valid() && r.value.Remaining() == tape && fresh(r.value.Repr)
  {
    var source := new SliceReader(src);
    var buffer := new RegionBuffer(size);
    r := StreamDecoder.Build(p, buffer, source, seed);
  }

  /** A value from the decoder machine, for any source whatever. */
  method DecodeStream(p: Platform, seed: Option<nat>, s: Schema, src: bytes, size: nat)
    returns (r: Result<Value, DecodeError>)
    requires p.Lawful()
    ensures r == DecodeSource(p, seed, s, src, size)
  {
    var dec := OpenStream(p, seed, src, size);
    if dec.Err? {
      return Err(BearerError(dec.error));
    }
    r := DecodeValue(dec.value, s);
  }

  /** The round trip on the machines: encode, flush, take the destination as source, decode. A value
      that writes nothing cannot be opened; any other comes back exactly if it is countable. */
  method EncodeAndDecode(p: Platform, seed: Option<nat>, s: Schema, v: Value, size: nat, size': nat)
    returns (r: Result<Value, DecodeError>)
    requires p.Lawful() && Typed(s, v) && StreamFits(p, s, v)
    ensures Concat(Writes(s, v)) == [] ==> r == Err(BearerError(ReadFailure))
    ensures Concat(Writes(s, v)) != [] && Countable(s, v) ==> r == Ok(Meaning(s, v))
    ensures Distinct(s, v) && !Countable(s, v) ==> r != Ok(Meaning(s, v))
  {
    var dst := new ByteVec.WithCapacity(0);
    AppendStream(p, dst, seed, s, v, size);
    assert [] + Written(p, seed, Writes(s, v)) == Written(p, seed, Writes(s, v));
    SourceOutcome(p, seed, s, v, size');
    r := DecodeStream(p, seed, s, dst.data[..dst.len], size');
  }

  lemma SourceOutcome(p: Platform, seed: Option<nat>, s: Schema, v: Value, size: nat)
    requires p.Lawful() && Typed(s, v) && StreamFits(p, s, v)
    ensures var r := DecodeSource(p, seed, s, Written(p, seed, Writes(s, v)), size);
      && (Concat(Writes(s, v)) == [] ==> r == Err(BearerError(ReadFailure)))
      && (Concat(Writes(s, v)) != [] && Countable(s, v) ==> r == Ok(Meaning(s, v)))
      && (Distinct(s, v) && !Countable(s, v) ==> r != Ok(Meaning(s, v)))
  {
    WritesAreSmall(s, v);
    StreamOpensIffWritten(p, seed, Writes(s, v), CurrCap(size), PrevCap(size));
    if Countable(s, v) {
      StreamRoundTrip(p, seed, s, v, CurrCap(size), PrevCap(size));
    } else if Distinct(s, v) {
      StreamRoundTripIff(p, seed, s, v, CurrCap(size), PrevCap(size));
    }
  }
}
