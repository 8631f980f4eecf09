/** Decoding as parsing: for plain types the bytes accepted are exactly the encodings. */
module Canonical {
  import opened Bytes
  import opened Regions
  import opened Tapes
  import opened Bearer
  import opened Utf8
  import opened Values
  import opened RoundTrip
  import opened ValueLaws

  /** Plain types without single characters, whose decoder accepts more than one form. */
  predicate OneForm(s: Schema)
    decreases s, 0
  {
    match s
    case UIntT(w) => ValidWidth(w)
    case IntT(w) => ValidWidth(w)
    case CharT => false
    case OptionT(e) => OneForm(e)
    case ResultT(ok, err) => OneForm(ok) && OneForm(err)
    case ArrayT(_, e) => OneForm(e)
    case VecT(e) => OneForm(e)
    case MapT(_) => false
    case SetT(_) => false
    case StructT(fs) => OneFormFields(fs)
    case EnumT(w, vs) => ValidWidth(w) && forall i :: 0 <= i < |vs| ==> OneFormFields(vs[i].fields)
    case _ => true
  }

  predicate OneFormFields(fs: seq<Field>)
    decreases fs, 0
  {
    fs == [] || (OneFormField(fs[0]) && OneFormFields(fs[1..]))
  }

  predicate OneFormField(f: Field)
    decreases f, 0
  {
    f.skip.None? && OneForm(f.schema)
  }

  lemma {:induction false} OneFormFieldsIff(fs: seq<Field>)
    ensures OneFormFields(fs) <==> forall i :: 0 <= i < |fs| ==> fs[i].skip.None? && OneForm(fs[i].schema)
    decreases |fs|
  {
    if fs != [] {
      OneFormFieldsIff(fs[1..]);
      assert forall i :: 0 < i < |fs| ==> fs[i] == fs[1..][i - 1];
    }
  }

  /** Which types these are: numbers of 1 to 16 bytes, booleans, units and strings, and options,
      results, arrays, vectors, tuples, structs and enums of such types without skipped fields. */
  lemma OneFormIff(s: Schema)
    ensures OneForm(s) <==>
      match s
      case UIntT(w) => 1 <= w <= 16
      case IntT(w) => 1 <= w <= 16
      case BoolT => true
      case CharT => false
      case UnitT => true
      case OptionT(e) => OneForm(e)
      case ResultT(ok, err) => OneForm(ok) && OneForm(err)
      case ArrayT(_, e) => OneForm(e)
      case VecT(e) => OneForm(e)
      case StringT => true
      case MapT(_) => false
      case SetT(_) => false
      case StructT(fs) => forall i :: 0 <= i < |fs| ==> fs[i].skip.None? && OneForm(fs[i].schema)
      case EnumT(w, vs) =>
        1 <= w <= 16 && forall k, i :: 0 <= k < |vs| && 0 <= i < |vs[k].fields| ==>
          vs[k].fields[i].skip.None? && OneForm(vs[k].fields[i].schema)
  {
    match s {
      case StructT(fs) => OneFormFieldsIff(fs);
      case EnumT(w, vs) =>
        forall k | 0 <= k < |vs|
          ensures OneFormFields(vs[k].fields) <==>
            forall i :: 0 <= i < |vs[k].fields| ==>
              vs[k].fields[i].skip.None? && OneForm(vs[k].fields[i].schema)
        {
          OneFormFieldsIff(vs[k].fields);
        }
      case _ =>
    }
  }

  /** On a tape of a single region, `t'` is `t` behind the bytes of `ws`. */
  predicate Consumes(t: Tape, ws: seq<bytes>, t': Tape) {
    t.regions == [] && t' == Tape(t'.current, [], t.end) && t.current == Concat(ws) + t'.current
  }

  lemma ConsumesNothing(t: Tape)
    requires t.regions == []
    ensures Consumes(t, [], t)
  {
    assert t.current == [] + t.current;
  }

  lemma ConsumesBoth(t: Tape, a: seq<bytes>, t': Tape, b: seq<bytes>, t'': Tape)
    requires Consumes(t, a, t') && Consumes(t', b, t'')
    ensures Consumes(t, a + b, t'')
  {
    ConcatAppend(a, b);
    Associate(Concat(a), Concat(b), t''.current);
  }

  lemma FetchConsumes(t: Tape, n: nat)
    requires t.regions == [] && Fetch(t, n).Ok?
    ensures Consumes(t, [Fetch(t, n).value.value], Fetch(t, n).value.tape)
  {
    var w := Fetch(t, n).value.value;
    assert Concat([w]) == w + Concat([w][1..]) == w;
    assert t.current == t.current[..n] + t.current[n..];
  }

  lemma FetchIntConsumes(t: Tape, width: nat)
    requires t.regions == [] && FetchInt(t, width).Ok?
    ensures var d := FetchInt(t, width).value;
      d.value < Pow256(width) && Consumes(t, [ToLe(d.value, width)], d.tape)
  {
    FetchConsumes(t, width);
    ToFromLe(Fetch(t, width).value.value);
  }

  lemma FetchTagConsumes(t: Tape, b: byte)
    requires t.regions == [] && FetchInt(t, 1).Ok? && FetchInt(t, 1).value.value == b
    ensures Consumes(t, [[b]], FetchInt(t, 1).value.tape)
  {
    FetchIntConsumes(t, 1);
    assert ToLe(b, 1) == [b] + ToLe(0, 0);
  }

  lemma {:induction false} FetchBytesConsumes(n: nat, done: bytes, t: Tape) returns (b: bytes)
    requires t.regions == [] && |done| <= n && FetchBytes(n, done, t).Ok?
    ensures var d := FetchBytes(n, done, t).value;
      d.value == done + b && |d.value| == n && Consumes(t, Bytewise(b), d.tape)
    decreases n - |done|
  {
    if |done| == n {
      b := [];
      ConsumesNothing(t);
      assert done + [] == done;
    } else {
      var d := Fetch(t, 1).value;
      FetchConsumes(t, 1);
      var rest := FetchBytesConsumes(n, done + d.value, d.tape);
      b := d.value + rest;
      Associate(done, d.value, rest);
      assert d.value == [d.value[0]] && b[0] == d.value[0] && b[1..] == rest;
      ConsumesBoth(t, [d.value], d.tape, Bytewise(rest), FetchBytes(n, done, t).value.tape);
    }
  }

  lemma FetchStringConsumes(t: Tape)
    requires t.regions == [] && FetchString(t).Ok?
    ensures var d := FetchString(t).value;
      && Typed(StringT, d.value) && Countable(StringT, d.value)
      && Consumes(t, Writes(StringT, d.value), d.tape)
  {
    FetchIntConsumes(t, LENGTH_WIDTH);
    var n := FetchInt(t, LENGTH_WIDTH).value;
    var b := FetchBytesConsumes(n.value, [], n.tape);
    assert [] + b == b;
    ConsumesBoth(t, [ToLe(n.value, LENGTH_WIDTH)], n.tape, Bytewise(b), FetchString(t).value.tape);
  }

  /** `v` was decoded from `t` and the bytes before `t'` are its encoding. */
  predicate Parsed(s: Schema, t: Tape, v: Value, t': Tape) {
    Typed(s, v) && Countable(s, v) && Consumes(t, Writes(s, v), t')
  }

  lemma SignedIsTwosComplement(n: nat, width: nat)
    requires n < Pow256(width)
    ensures var x := Signed(n, width);
      0 <= 2 * x + Pow256(width) < 2 * Pow256(width) && TwosComplement(x, width) == n
  {
  }

  lemma ParsedNumber(s: Schema, t: Tape)
    requires (s.UIntT? || s.IntT? || s.BoolT?) && OneForm(s) && t.regions == [] && Decode(s, t).Ok?
    ensures Parsed(s, t, Decode(s, t).value.value, Decode(s, t).value.tape)
  {
    match s {
      case UIntT(w) => FetchIntConsumes(t, w);
      case IntT(w) =>
        FetchIntConsumes(t, w);
        SignedIsTwosComplement(FetchInt(t, w).value.value, w);
      case BoolT => FetchTagConsumes(t, if FetchInt(t, 1).value.value == 1 then 1 else 0);
    }
  }

  /** Whatever a plain type accepts on a single region is a value of the type, and the bytes taken are
      its encoding. */
  lemma {:induction false} AcceptedIsEncoded(s: Schema, t: Tape)
    requires OneForm(s) && t.regions == [] && Decode(s, t).Ok?
    ensures Parsed(s, t, Decode(s, t).value.value, Decode(s, t).value.tape)
    decreases s, 0, 1
  {
    match s {
      case UnitT => ConsumesNothing(t);
      case OptionT(_) => AcceptedOption(s, t);
      case ResultT(_, _) => AcceptedResult(s, t);
      case ArrayT(n, e) =>
        var items := AcceptedList(e, n, [], t);
        assert [] + items == items;
      case VecT(e) => AcceptedVec(e, t);
      case StringT => FetchStringConsumes(t);
      case StructT(fs) => AcceptedFields(fs, t);
      case EnumT(_, _) => AcceptedEnum(s, t);
      case _ => ParsedNumber(s, t);
    }
  }

  lemma {:induction false} AcceptedOption(s: Schema, t: Tape)
    requires s.OptionT? && OneForm(s) && t.regions == [] && Decode(s, t).Ok?
    ensures Parsed(s, t, Decode(s, t).value.value, Decode(s, t).value.tape)
    decreases s, 0, 0
  {
    var d := FetchInt(t, 1).value;
    FetchTagConsumes(t, d.value);
    if d.value == 1 {
      AcceptedIsEncoded(s.elem, d.tape);
      var x := Decode(s.elem, d.tape).value;
      ConsumesBoth(t, [[1]], d.tape, Writes(s.elem, x.value), x.tape);
    }
  }

  lemma {:induction false} AcceptedResult(s: Schema, t: Tape)
    requires s.ResultT? && OneForm(s) && t.regions == [] && Decode(s, t).Ok?
    ensures Parsed(s, t, Decode(s, t).value.value, Decode(s, t).value.tape)
    decreases s, 0, 0
  {
    var d := FetchInt(t, 1).value;
    var inner := if d.value == 1 then s.ok else s.err;
    FetchTagConsumes(t, d.value);
    AcceptedIsEncoded(inner, d.tape);
    var x := Decode(inner, d.tape).value;
    ConsumesBoth(t, [[d.value]], d.tape, Writes(inner, x.value), x.tape);
  }

  lemma {:induction false} AcceptedEnum(s: Schema, t: Tape)
    requires s.EnumT? && OneForm(s) && t.regions == [] && Decode(s, t).Ok?
    ensures Parsed(s, t, Decode(s, t).value.value, Decode(s, t).value.tape)
    decreases s, 0, 0
  {
    var d := FetchInt(t, s.tagWidth).value;
    var fs := s.variants[d.value].fields;
    FetchIntConsumes(t, s.tagWidth);
    AcceptedFields(fs, d.tape);
    var x := DecodeFields(fs, d.tape).value;
    ConsumesBoth(t, [ToLe(d.value, s.tagWidth)], d.tape, WritesFields(fs, x.value), x.tape);
  }

  lemma {:induction false} AcceptedVec(e: Schema, t: Tape)
    requires OneForm(e) && t.regions == [] && Decode(VecT(e), t).Ok?
    ensures Parsed(VecT(e), t, Decode(VecT(e), t).value.value, Decode(VecT(e), t).value.tape)
    decreases e, 2, 0
  {
    var d := FetchInt(t, LENGTH_WIDTH).value;
    FetchIntConsumes(t, LENGTH_WIDTH);
    var items := AcceptedList(e, d.value, [], d.tape);
    assert [] + items == items;
    ConsumesBoth(t, [ToLe(d.value, LENGTH_WIDTH)], d.tape, WritesList(e, items), Decode(VecT(e), t).value.tape);
  }

  lemma {:induction false} AcceptedList(e: Schema, n: nat, done: seq<Value>, t: Tape) returns (items: seq<Value>)
    requires OneForm(e) && t.regions == [] && |done| <= n && DecodeList(e, n, done, t).Ok?
    ensures var d := DecodeList(e, n, done, t).value;
      && d.value == done + items && |d.value| == n
      && TypedList(e, items) && CountableList(e, items) && Consumes(t, WritesList(e, items), d.tape)
    decreases e, 1, n - |done|
  {
    if |done| == n {
      items := [];
      ConsumesNothing(t);
      assert done + [] == done;
    } else {
      var d := Decode(e, t).value;
      AcceptedIsEncoded(e, t);
      var rest := AcceptedList(e, n, done + [d.value], d.tape);
      items := [d.value] + rest;
      Associate(done, [d.value], rest);
      assert items[0] == d.value && items[1..] == rest;
      ConsumesBoth(t, Writes(e, d.value), d.tape, WritesList(e, rest), DecodeList(e, n, done, t).value.tape);
    }
  }

  lemma {:induction false} AcceptedFields(fs: seq<Field>, t: Tape)
    requires OneFormFields(fs) && t.regions == [] && DecodeFields(fs, t).Ok?
    ensures var d := DecodeFields(fs, t).value;
      TypedFields(fs, d.value) && CountableFields(fs, d.value) && Consumes(t, WritesFields(fs, d.value), d.tape)
    decreases fs, 0
  {
    if fs == [] {
      ConsumesNothing(t);
    } else {
      var d := DecodeField(fs[0], t).value;
      AcceptedField(fs[0], t);
      AcceptedFields(fs[1..], d.tape);
      var rest, all := DecodeFields(fs[1..], d.tape).value, DecodeFields(fs, t).value;
      assert all.value[0] == d.value && all.value[1..] == rest.value;
      ConsumesBoth(t, WritesField(fs[0], d.value), d.tape, WritesFields(fs[1..], rest.value), all.tape);
    }
  }

  lemma {:induction false} AcceptedField(f: Field, t: Tape)
    requires OneFormField(f) && t.regions == [] && DecodeField(f, t).Ok?
    ensures var d := DecodeField(f, t).value;
      TypedField(f, d.value) && CountableField(f, d.value) && Consumes(t, WritesField(f, d.value), d.tape)
    decreases f, 0
  {
    AcceptedIsEncoded(f.schema, t);
  }

  lemma {:induction false} OneFormIsPlain(s: Schema)
    requires OneForm(s)
    ensures Plain(s)
    decreases s, 0
  {
    match s {
      case OptionT(e) => OneFormIsPlain(e);
      case ResultT(ok, err) =>
        OneFormIsPlain(ok);
        OneFormIsPlain(err);
      case ArrayT(_, e) => OneFormIsPlain(e);
      case VecT(e) => OneFormIsPlain(e);
      case StructT(fs) => OneFormFieldsArePlain(fs);
      case EnumT(_, vs) =>
        forall i | 0 <= i < |vs| ensures PlainFields(vs[i].fields) { OneFormFieldsArePlain(vs[i].fields); }
      case _ =>
    }
  }

  lemma {:induction false} OneFormFieldsArePlain(fs: seq<Field>)
    requires OneFormFields(fs)
    ensures PlainFields(fs)
    decreases fs, 0
  {
    if fs != [] {
      OneFormFieldIsPlain(fs[0]);
      OneFormFieldsArePlain(fs[1..]);
    }
  }

  lemma {:induction false} OneFormFieldIsPlain(f: Field)
    requires OneFormField(f)
    ensures PlainField(f)
    decreases f, 0
  {
    OneFormIsPlain(f.schema);
  }

  lemma EncodedIsDecoded(s: Schema, v: Value, rest: bytes, e: RegionError)
    requires OneForm(s) && Typed(s, v) && Countable(s, v)
    ensures Decode(s, Tape(Flat(s, v) + rest, [], e)) == Ok(Decoded(v, Tape(rest, [], e)))
  {
    var ws, t := Writes(s, v), Tape(Flat(s, v) + rest, [], e);
    OneFormIsPlain(s);
    PlainValuesAreKept(s, v);
    ConcatAppend(ws, [rest]);
    assert Concat([rest]) == rest + Concat([rest][1..]) == rest;
    FlatAligns(ws + [rest]);
    ValueReadsBack(s, v, t, [rest]);
    AcceptedIsEncoded(s, t);
    SameFront(Flat(s, v), rest, Decode(s, t).value.tape.current);
  }

  lemma DecodedIsEncoded(s: Schema, b: bytes, e: RegionError, v: Value, rest: bytes)
    requires OneForm(s) && Decode(s, Tape(b, [], e)) == Ok(Decoded(v, Tape(rest, [], e)))
    ensures Typed(s, v) && Countable(s, v) && b == Flat(s, v) + rest
  {
    AcceptedIsEncoded(s, Tape(b, [], e));
  }

  /** Decoding is the inverse of encoding in both directions: `v` is decoded from the front of `b`
      with `rest` left over if and only if `b` is the encoding of `v` followed by `rest`. */
  lemma DecodesIffEncoded(s: Schema, b: bytes, e: RegionError, v: Value, rest: bytes)
    requires OneForm(s)
    ensures Decode(s, Tape(b, [], e)) == Ok(Decoded(v, Tape(rest, [], e)))
        <==> Typed(s, v) && Countable(s, v) && b == Flat(s, v) + rest
  {
    if Decode(s, Tape(b, [], e)) == Ok(Decoded(v, Tape(rest, [], e))) {
      DecodedIsEncoded(s, b, e, v, rest);
    }
    if Typed(s, v) && Countable(s, v) && b == Flat(s, v) + rest {
      EncodedIsDecoded(s, v, rest, e);
    }
  }

  lemma SameFront(front: bytes, a: bytes, b: bytes)
    requires front + a == front + b
    ensures a == b
  {
    assert (front + a)[|front|..] == a && (front + b)[|front|..] == b;
  }

  // Single characters.

  /** A decoded character is a scalar value, and the bytes taken are its encoding, exactly under
      conditions on these bytes that the decoder does not check. */
  lemma CharIsEncodedIff(b: bytes, e: RegionError)
    requires FetchChar(Tape(b, [], e)).Ok?
    ensures b != [] && Continuation(b[0]).Some? && Continuation(b[0]).value < |b|
    ensures var d, n := FetchChar(Tape(b, [], e)).value, Continuation(b[0]).value;
      && d.value.Char? && d.tape == Tape(b[1 + n..], [], e)
      && (Typed(CharT, d.value) <==> n == 0 || InScalarRange(b[0], b[1..1 + n]))
      && (Typed(CharT, d.value) && EncodeChar(d.value.c) == b[..1 + n]
          <==> n == 0 || (InScalarRange(b[0], b[1..1 + n]) && IsShortest(b[0], b[1])))
  {
    var n := Continuation(b[0]).value;
    var remaining := b[1..][..n];
    assert remaining == b[1..1 + n] && b[1..][n..] == b[1 + n..];
    assert b[..1 + n] == [b[0]] + remaining;
    if n > 0 {
      DecodedCharIsScalarIff(b[0], remaining);
      if IsScalar(DecodeChar(b[0], remaining).value) {
        DecodedCharIsCanonicalIff(b[0], remaining);
      }
    }
  }

  // Strings.

  /** A complete byte vector is a string exactly if it is the encoding of scalar values, and an
      invalid pattern otherwise. */
  lemma StringsAreCharacters(t: Tape)
    ensures match FetchSlice(t)
      case Err(e) => Decode(StringT, t) == Err(e)
      case Ok(d) =>
        if exists cs: seq<nat> :: AreScalars(cs) && EncodeChars(cs) == d.value
        then Decode(StringT, t) == Ok(Decoded(Str(d.value), d.tape))
        else Decode(StringT, t) == Err(InvalidPattern)
  {
    if FetchSlice(t).Ok? {
      ValidUtf8Iff(FetchSlice(t).value.value);
    }
  }
}
