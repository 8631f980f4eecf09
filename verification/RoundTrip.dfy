/** Decoding undoes encoding, for every schema and wherever the region boundaries fall. */
module RoundTrip {
  import opened Bytes
  import opened Tapes
  import opened Bearer
  import opened Utf8
  import opened Values

  /** `d` succeeded with `value` and left exactly `more` to be read. */
  predicate Yields<T(==)>(d: Decoding<T>, value: T, more: seq<bytes>) {
    d.Ok? && d.value.value == value && OnTape(d.value.tape, more)
  }

  lemma FetchWrite(t: Tape, w: bytes, more: seq<bytes>)
    requires OnTape(t, [w] + more)
    ensures Yields(Fetch(t, |w|), w, more)
  {
    assert w + [] == w;
    ReadPiece(t, w, [], more);
    SkipEmptyWrite(Read(t, |w|).value.tape, more);
  }

  lemma FetchIntWrite(t: Tape, n: nat, width: nat, more: seq<bytes>)
    requires n < Pow256(width) && OnTape(t, [ToLe(n, width)] + more)
    ensures Yields(FetchInt(t, width), n, more)
  {
    FetchWrite(t, ToLe(n, width), more);
    FromToLe(n, width);
  }

  lemma FetchByteWrite(t: Tape, b: byte, more: seq<bytes>)
    requires OnTape(t, [[b]] + more)
    ensures Yields(FetchInt(t, 1), b, more)
  {
    assert [b] == ToLe(b, 1);
    PowersOf256();
    FetchIntWrite(t, b, 1, more);
  }

  /** A character is read back as one byte and then the others, from one write. */
  lemma CharReadsBack(t: Tape, c: nat, more: seq<bytes>)
    requires IsScalar(c) && OnTape(t, [EncodeChar(c)] + more)
    ensures Yields(FetchChar(t), Char(c), more)
  {
    var b := EncodeChar(c);
    CharRoundTrip(c);
    assert b == [b[0]] + b[1..];
    ReadPiece(t, [b[0]], b[1..], more);
    var t' := Read(t, 1).value.tape;
    if |b| == 1 {
      SkipEmptyWrite(t', more);
    } else {
      FetchWrite(t', b[1..], more);
    }
  }

  lemma {:induction false} BytesReadBack(t: Tape, done: bytes, b: bytes, more: seq<bytes>)
    requires OnTape(t, Bytewise(b) + more)
    ensures Yields(FetchBytes(|done| + |b|, done, t), done + b, more)
    decreases |b|
  {
    if b == [] {
      assert Bytewise(b) + more == more && done + b == done;
    } else {
      var later := Bytewise(b[1..]) + more;
      assert Bytewise(b) + more == [[b[0]]] + later;
      FetchWrite(t, [b[0]], later);
      BytesReadBack(Fetch(t, 1).value.tape, done + [b[0]], b[1..], more);
      assert done + [b[0]] + b[1..] == done + b;
    }
  }

  lemma NumberReadsBack(s: Schema, v: Value, t: Tape, more: seq<bytes>)
    requires s.UIntT? || s.IntT? || s.BoolT?
    requires Typed(s, v) && Countable(s, v) && OnTape(t, Writes(s, v) + more)
    ensures Yields(Decode(s, t), v, more)
  {
    match s {
      case UIntT(w) => FetchIntWrite(t, v.n, w, more);
      case IntT(w) => FetchIntWrite(t, TwosComplement(v.n, w), w, more);
      case BoolT => FetchByteWrite(t, if v.b then 1 else 0, more);
    }
  }

  lemma SliceReadsBack(b: bytes, t: Tape, more: seq<bytes>)
    requires |b| < Pow256(LENGTH_WIDTH) && OnTape(t, [ToLe(|b|, LENGTH_WIDTH)] + Bytewise(b) + more)
    ensures Yields(FetchSlice(t), b, more)
  {
    hide Aligned, Bytewise, ToLe, FromLe;
    Associate([ToLe(|b|, LENGTH_WIDTH)], Bytewise(b), more);
    FetchIntWrite(t, |b|, LENGTH_WIDTH, Bytewise(b) + more);
    BytesReadBack(FetchInt(t, LENGTH_WIDTH).value.tape, [], b, more);
    assert [] + b == b;
  }

  /** The flagship: a value that is next on the tape decodes to its meaning, and exactly the writes
      behind it are left. */
  lemma {:induction false} ValueReadsBack(s: Schema, v: Value, t: Tape, more: seq<bytes>)
    requires Typed(s, v) && Countable(s, v) && OnTape(t, Writes(s, v) + more)
    ensures Yields(Decode(s, t), Meaning(s, v), more)
    decreases s, 0, 1
  {
    match s {
      case OptionT(_) => OptionReadsBack(s, v, t, more);
      case ResultT(_, _) => ResultReadsBack(s, v, t, more);
      case CharT => CharReadsBack(t, v.c, more);
      case UnitT => assert [] + more == more;
      case ArrayT(_, e) =>
        ListReadsBack(e, [], v.items, t, more);
        assert [] + MeaningList(e, v.items) == MeaningList(e, v.items);
      case VecT(e) => CountedReadsBack(e, v.items, t, more);
      case StringT => SliceReadsBack(v.utf8, t, more);
      case MapT(e) => CountedReadsBack(e, v.items, t, more);
      case SetT(e) => CountedReadsBack(e, v.items, t, more);
      case StructT(fs) => FieldsReadBack(fs, v.fields, t, more);
      case EnumT(_, _) => EnumReadsBack(s, v, t, more);
      case _ => NumberReadsBack(s, v, t, more);
    }
  }

  lemma {:induction false} OptionReadsBack(s: Schema, v: Value, t: Tape, more: seq<bytes>)
    requires s.OptionT? && Typed(s, v) && Countable(s, v) && OnTape(t, Writes(s, v) + more)
    ensures Yields(Decode(s, t), Meaning(s, v), more)
    decreases s, 0, 0
  {
    if v.Absent? {
      FetchByteWrite(t, 0, more);
    } else {
      var later := Writes(s.elem, v.v) + more;
      assert Writes(s, v) + more == [[1]] + later;
      FetchByteWrite(t, 1, later);
      ValueReadsBack(s.elem, v.v, FetchInt(t, 1).value.tape, more);
    }
  }

  lemma {:induction false} ResultReadsBack(s: Schema, v: Value, t: Tape, more: seq<bytes>)
    requires s.ResultT? && Typed(s, v) && Countable(s, v) && OnTape(t, Writes(s, v) + more)
    ensures Yields(Decode(s, t), Meaning(s, v), more)
    decreases s, 0, 0
  {
    var inner, tag: byte := if v.Success? then s.ok else s.err, if v.Success? then 1 else 0;
    var later := Writes(inner, v.v) + more;
    assert Writes(s, v) + more == [[tag]] + later;
    FetchByteWrite(t, tag, later);
    ValueReadsBack(inner, v.v, FetchInt(t, 1).value.tape, more);
  }

  lemma {:induction false} EnumReadsBack(s: Schema, v: Value, t: Tape, more: seq<bytes>)
    requires s.EnumT? && Typed(s, v) && Countable(s, v) && OnTape(t, Writes(s, v) + more)
    ensures Yields(Decode(s, t), Meaning(s, v), more)
    decreases s, 0, 0
  {
    var fs := s.variants[v.tag].fields;
    var later := WritesFields(fs, v.fields) + more;
    assert Writes(s, v) + more == [ToLe(v.tag, s.tagWidth)] + later;
    FetchIntWrite(t, v.tag, s.tagWidth, later);
    FieldsReadBack(fs, v.fields, FetchInt(t, s.tagWidth).value.tape, more);
  }

  lemma {:induction false} CountedReadsBack(e: Schema, items: seq<Value>, t: Tape, more: seq<bytes>)
    requires |items| < Pow256(LENGTH_WIDTH) && TypedList(e, items) && CountableList(e, items)
    requires OnTape(t, [ToLe(|items|, LENGTH_WIDTH)] + WritesList(e, items) + more)
    ensures Yields(DecodeCounted(e, t), MeaningList(e, items), more)
    decreases e, 2, 0
  {
    var later := WritesList(e, items) + more;
    assert [ToLe(|items|, LENGTH_WIDTH)] + WritesList(e, items) + more == [ToLe(|items|, LENGTH_WIDTH)] + later;
    FetchIntWrite(t, |items|, LENGTH_WIDTH, later);
    ListReadsBack(e, [], items, FetchInt(t, LENGTH_WIDTH).value.tape, more);
    assert [] + MeaningList(e, items) == MeaningList(e, items);
  }

  lemma {:induction false} ListReadsBack(e: Schema, done: seq<Value>, items: seq<Value>, t: Tape, more: seq<bytes>)
    requires TypedList(e, items) && CountableList(e, items) && OnTape(t, WritesList(e, items) + more)
    ensures Yields(DecodeList(e, |done| + |items|, done, t), done + MeaningList(e, items), more)
    decreases e, 1, |items|
  {
    if items == [] {
      assert [] + more == more && done + [] == done;
    } else {
      var later := WritesList(e, items[1..]) + more;
      assert WritesList(e, items) + more == Writes(e, items[0]) + later;
      ValueReadsBack(e, items[0], t, later);
      var first, rest := Meaning(e, items[0]), MeaningList(e, items[1..]);
      ListReadsBack(e, done + [first], items[1..], Decode(e, t).value.tape, more);
      assert done + [first] + rest == done + ([first] + rest);
    }
  }

  lemma {:induction false} FieldsReadBack(fs: seq<Field>, vs: seq<Value>, t: Tape, more: seq<bytes>)
    requires TypedFields(fs, vs) && CountableFields(fs, vs) && OnTape(t, WritesFields(fs, vs) + more)
    ensures Yields(DecodeFields(fs, t), MeaningFields(fs, vs), more)
    decreases fs, 0
  {
    if fs == [] {
      assert [] + more == more;
    } else {
      var later := WritesFields(fs[1..], vs[1..]) + more;
      assert WritesFields(fs, vs) + more == WritesField(fs[0], vs[0]) + later;
      FieldReadsBack(fs[0], vs[0], t, later);
      FieldsReadBack(fs[1..], vs[1..], DecodeField(fs[0], t).value.tape, more);
    }
  }

  lemma {:induction false} FieldReadsBack(f: Field, v: Value, t: Tape, more: seq<bytes>)
    requires TypedField(f, v) && CountableField(f, v) && OnTape(t, WritesField(f, v) + more)
    ensures Yields(DecodeField(f, t), MeaningField(f, v), more)
    decreases f, 0
  {
    if f.skip.None? {
      ValueReadsBack(f.schema, v, t, more);
    } else {
      assert [] + more == more;
    }
  }

  // Values that are not countable do not come back.

  lemma ToLeTruncates(n: nat, width: nat)
    ensures FromLe(ToLe(n, width)) == n <==> n < Pow256(width)
  {
    ToFromLe(ToLe(n, width));
    if n < Pow256(width) {
      FromToLe(n, width);
    }
  }

  lemma {:induction false} DecodedListLength(e: Schema, n: nat, done: seq<Value>, t: Tape)
    requires |done| <= n
    ensures var d := DecodeList(e, n, done, t); d.Ok? ==> |d.value.value| == n
    decreases n - |done|
  {
    if |done| < n {
      var d := Decode(e, t);
      if d.Ok? {
        DecodedListLength(e, n, done + [d.value.value], d.value.tape);
      }
    }
  }

  /** A vector of countable items comes back exactly if its length is below 2^32: a longer one is
      written with its length cast to `u32`. */
  lemma VecReadsBackIffCountable(e: Schema, items: seq<Value>, t: Tape, more: seq<bytes>)
    requires TypedList(e, items) && CountableList(e, items)
    requires OnTape(t, Writes(VecT(e), List(items)) + more)
    ensures Yields(Decode(VecT(e), t), Meaning(VecT(e), List(items)), more) <==> |items| < Pow256(LENGTH_WIDTH)
  {
    if |items| < Pow256(LENGTH_WIDTH) {
      CountedReadsBack(e, items, t, more);
    } else {
      var count := ToLe(|items|, LENGTH_WIDTH);
      var later := WritesList(e, items) + more;
      assert Writes(VecT(e), List(items)) + more == [count] + later;
      FetchWrite(t, count, later);
      ToLeTruncates(|items|, LENGTH_WIDTH);
      DecodedListLength(e, FromLe(count), [], Fetch(t, LENGTH_WIDTH).value.tape);
    }
  }

  /** A derived enum's value with countable fields comes back exactly if its tag fits the tag's
      type. */
  lemma EnumReadsBackIffTagFits(s: Schema, v: Value, t: Tape, more: seq<bytes>)
    requires s.EnumT? && Typed(s, v) && CountableFields(s.variants[v.tag].fields, v.fields)
    requires OnTape(t, Writes(s, v) + more)
    ensures Yields(Decode(s, t), Meaning(s, v), more) <==> v.tag < Pow256(s.tagWidth)
  {
    if v.tag < Pow256(s.tagWidth) {
      EnumReadsBack(s, v, t, more);
    } else {
      var tag := ToLe(v.tag, s.tagWidth);
      var later := WritesFields(s.variants[v.tag].fields, v.fields) + more;
      assert Writes(s, v) + more == [tag] + later;
      FetchWrite(t, tag, later);
      ToLeTruncates(v.tag, s.tagWidth);
    }
  }
}
