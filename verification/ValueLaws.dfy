/** What the encoding of values guarantees apart from the stream: it is prefix-free, it keeps plain
    values, and it forgets only the order of maps and sets and the content of skipped fields. */
module ValueLaws {
  import opened Bytes
  import opened Regions
  import opened Tapes
  import opened Bearer
  import opened Values
  import opened RoundTrip

  /** The encoded bytes of a value, without their division into writes. */
  function Flat(s: Schema, v: Value): bytes
    requires Typed(s, v)
  {
    Concat(Writes(s, v))
  }

  /** No encoding is a proper prefix of another of the same type, and equal encodings mean the
      same. */
  lemma EncodingIsPrefixFree(s: Schema, v: Value, v': Value, tail: bytes)
    requires Typed(s, v) && Countable(s, v) && Typed(s, v') && Countable(s, v')
    requires Flat(s, v') == Flat(s, v) + tail
    ensures tail == [] && Meaning(s, v) == Meaning(s, v')
  {
    var t := Tape(Flat(s, v'), [], ReadFailure);
    FlatAligns(Writes(s, v'));
    assert Writes(s, v') + [] == Writes(s, v');
    ValueReadsBack(s, v', t, []);
    ConcatAppend(Writes(s, v), [tail]);
    assert Concat([tail]) == tail + Concat([]) == tail;
    FlatAligns(Writes(s, v) + [tail]);
    ValueReadsBack(s, v, t, [tail]);
    var left := Decode(s, t).value.tape;
    AlignedConserves(left.current, left.regions, []);
    AlignedConserves(left.current, left.regions, [tail]);
  }

  // The wire format.

  /** The tags: false, none and failure are 0, true, some and success are 1, and the content
      follows. */
  lemma TagBytes(s: Schema, v: Value)
    requires Typed(s, v)
    ensures s.BoolT? ==> Flat(s, v) == if v.b then [1] else [0]
    ensures s.OptionT? && v.Absent? ==> Flat(s, v) == [0]
    ensures s.OptionT? && v.Present? ==> Flat(s, v) == [1] + Flat(s.elem, v.v)
    ensures s.ResultT? && v.Success? ==> Flat(s, v) == [1] + Flat(s.ok, v.v)
    ensures s.ResultT? && v.Failure? ==> Flat(s, v) == [0] + Flat(s.err, v.v)
  {
    assert Concat([[0]]) == [0] + Concat([[0]][1..]) == [0];
    assert Concat([[1]]) == [1] + Concat([[1]][1..]) == [1];
    if v.Present? || v.Success? || v.Failure? {
      var inner := if s.OptionT? then Writes(s.elem, v.v)
                   else if s.ResultT? then (if v.Success? then Writes(s.ok, v.v) else Writes(s.err, v.v))
                   else [];
      ConcatAppend([[1]], inner);
      ConcatAppend([[0]], inner);
    }
  }

  /** Lengths and enum tags come first, in four bytes or the width of the tag, and the content
      follows. */
  lemma LengthsComeFirst(s: Schema, v: Value)
    requires Typed(s, v)
    ensures s.VecT? || s.MapT? || s.SetT? ==>
      Flat(s, v) == ToLe(|v.items|, 4) + Concat(WritesList(if s.VecT? || s.SetT? then s.elem else s.entry, v.items))
    ensures s.StringT? ==> Flat(s, v) == ToLe(|v.utf8|, 4) + v.utf8
    ensures s.EnumT? ==>
      Flat(s, v) == ToLe(v.tag, s.tagWidth) + Concat(WritesFields(s.variants[v.tag].fields, v.fields))
  {
    if s.StringT? {
      BytewiseConcat(v.utf8);
    }
  }

  lemma {:induction false} BytewiseConcat(b: bytes)
    ensures Concat(Bytewise(b)) == b
  {
    if b == [] {
      assert Concat([]) == [];
    } else {
      BytewiseConcat(b[1..]);
      assert b == [b[0]] + b[1..];
    }
  }

  // Bytes that no value is written as.

  /** A tag byte above 1, an enum tag without a variant and a leading byte that starts no character
      are invalid patterns. */
  lemma UnknownTagsAreInvalid(s: Schema, t: Tape)
    ensures (s.BoolT? || s.OptionT? || s.ResultT?) && t.current != [] && t.current[0] > 1 ==>
      Decode(s, t) == Err(InvalidPattern)
    ensures s.EnumT? && |t.current| >= s.tagWidth && FromLe(t.current[..s.tagWidth]) >= |s.variants| ==>
      Decode(s, t) == Err(InvalidPattern)
    ensures s.CharT? && t.current != [] && (0x80 <= t.current[0] < 0xC0 || t.current[0] >= 0xF8) ==>
      Decode(s, t) == Err(InvalidPattern)
  {
    if t.current != [] {
      var b := t.current[..1];
      assert b[1..] == [] && FromLe(b) == b[0] as int + 256 * FromLe(b[1..]);
    }
  }

  // The bytes of integers.

  /** Integers have 1 to 16 bytes, and every value their width and signedness allow is encoded. */
  lemma IntegersInRange(width: nat, n: int)
    ensures Typed(UIntT(width), Int(n)) <==> 1 <= width <= 16 && 0 <= n < Pow256(width)
    ensures Typed(IntT(width), Int(n)) <==> 1 <= width <= 16 && -(Pow256(width) as int) <= 2 * n < Pow256(width)
  {
  }

  lemma {:induction false} PowersDivide(i: nat, width: nat) returns (r: nat)
    requires i < width
    ensures Pow256(width) == Pow256(i) * (256 * r)
    decreases width
  {
    if i == width - 1 {
      r := 1;
    } else {
      var r' := PowersDivide(i, width - 1);
      r := 256 * r';
      assert 256 * (Pow256(i) * (256 * r')) == Pow256(i) * (256 * (256 * r'));
    }
  }

  lemma ShiftedQuotient(n: int, q: nat, k: int)
    requires q >= 1
    ensures (n + q * k) / q == n / q + k
  {
    var sum := n + q * k;
    assert q * (n / q + k) + n % q == sum by {
      assert q * (n / q + k) == q * (n / q) + q * k;
    }
    SameQuotient(q, n / q + k, n % q, sum / q, sum % q);
  }

  lemma SameRemainder(x: int, r: nat)
    ensures (x + 256 * r) % 256 == x % 256
  {
  }

  /** Adding 256^width changes no digit below it. */
  lemma DigitOfSum(n: int, i: nat, width: nat)
    requires i < width
    ensures (n + Pow256(width)) / Pow256(i) % 256 == n / Pow256(i) % 256
  {
    var r := PowersDivide(i, width);
    ShiftedQuotient(n, Pow256(i), 256 * r);
    SameRemainder(n / Pow256(i), r);
  }

  /** Byte `i` of an integer of either signedness is its digit of weight 256^i, the quotient being
      rounded down. */
  lemma IntegersAreLittleEndian(s: Schema, n: int, i: nat)
    requires (s.UIntT? || s.IntT?) && Typed(s, Int(n)) && i < s.width
    ensures var ws := Writes(s, Int(n)); |ws| == 1 && |ws[0]| == s.width && ws[0][i] == n / Pow256(i) % 256
  {
    if n >= 0 {
      ToLeDigits(n, s.width, i);
    } else {
      ToLeDigits(TwosComplement(n, s.width), s.width, i);
      DigitOfSum(n, i, s.width);
    }
  }

  // Plain types.

  /** Types without skipped fields, maps or sets. */
  predicate Plain(s: Schema)
    decreases s, 0
  {
    match s
    case OptionT(e) => Plain(e)
    case ResultT(ok, err) => Plain(ok) && Plain(err)
    case ArrayT(_, e) => Plain(e)
    case VecT(e) => Plain(e)
    case MapT(_) => false
    case SetT(_) => false
    case StructT(fs) => PlainFields(fs)
    case EnumT(_, vs) => forall i :: 0 <= i < |vs| ==> PlainFields(vs[i].fields)
    case _ => true
  }

  predicate PlainFields(fs: seq<Field>)
    decreases fs, 0
  {
    fs == [] || (PlainField(fs[0]) && PlainFields(fs[1..]))
  }

  predicate PlainField(f: Field)
    decreases f, 0
  {
    f.skip.None? && Plain(f.schema)
  }

  /** A value of a plain type means itself, so decoding returns it unchanged. */
  lemma {:induction false} PlainValuesAreKept(s: Schema, v: Value)
    requires Typed(s, v) && Plain(s)
    ensures Meaning(s, v) == v
    decreases s, 0, 0
  {
    match s {
      case OptionT(e) => if v.Present? { PlainValuesAreKept(e, v.v); }
      case ResultT(ok, err) => PlainValuesAreKept(if v.Success? then ok else err, v.v);
      case ArrayT(_, e) => PlainListsAreKept(e, v.items);
      case VecT(e) => PlainListsAreKept(e, v.items);
      case StructT(fs) => PlainFieldsAreKept(fs, v.fields);
      case EnumT(_, vs) => PlainFieldsAreKept(vs[v.tag].fields, v.fields);
      case _ =>
    }
  }

  lemma {:induction false} PlainListsAreKept(e: Schema, items: seq<Value>)
    requires TypedList(e, items) && Plain(e)
    ensures MeaningList(e, items) == items
    decreases e, 1, |items|
  {
    if items != [] {
      PlainValuesAreKept(e, items[0]);
      PlainListsAreKept(e, items[1..]);
    }
  }

  lemma {:induction false} PlainFieldsAreKept(fs: seq<Field>, vs: seq<Value>)
    requires TypedFields(fs, vs) && PlainFields(fs)
    ensures MeaningFields(fs, vs) == vs
    decreases fs, 0
  {
    if fs != [] {
      PlainFieldIsKept(fs[0], vs[0]);
      PlainFieldsAreKept(fs[1..], vs[1..]);
    }
  }

  lemma {:induction false} PlainFieldIsKept(f: Field, v: Value)
    requires TypedField(f, v) && PlainField(f)
    ensures MeaningField(f, v) == v
    decreases f, 0
  {
    PlainValuesAreKept(f.schema, v);
  }

  // Derived types with skipped fields.

  /** Decoding replaces exactly the skipped fields, each by its default. */
  lemma {:induction false} SkippedFieldsAreReplaced(fs: seq<Field>, vs: seq<Value>, i: nat)
    requires TypedFields(fs, vs) && i < |fs|
    ensures TypedField(fs[i], vs[i])
    ensures MeaningFields(fs, vs)[i] == match fs[i].skip
      case Some(default) => default
      case None => Meaning(fs[i].schema, vs[i])
    decreases |fs|
  {
    if i > 0 {
      SkippedFieldsAreReplaced(fs[1..], vs[1..], i - 1);
    }
  }

  lemma {:induction false} SkippedFieldsAreNotWritten(fs: seq<Field>, vs: seq<Value>, ws: seq<Value>)
    requires TypedFields(fs, vs) && |ws| == |fs|
    requires forall i :: 0 <= i < |fs| && fs[i].skip.None? ==> vs[i] == ws[i]
    ensures TypedFields(fs, ws) && WritesFields(fs, ws) == WritesFields(fs, vs)
    decreases |fs|
  {
    if fs != [] {
      assert fs[0].skip.None? ==> vs[0] == ws[0];
      forall i | 0 <= i < |fs| - 1 && fs[1..][i].skip.None?
        ensures vs[1..][i] == ws[1..][i]
      {
        assert fs[i + 1].skip.None?;
      }
      SkippedFieldsAreNotWritten(fs[1..], vs[1..], ws[1..]);
    }
  }

  // Maps and sets.

  predicate ArePairs(pairs: seq<Value>) {
    forall i :: 0 <= i < |pairs| ==> pairs[i].Record? && |pairs[i].fields| == 2
  }

  /** The value of the last pair with key `k`. */
  function LastFor(pairs: seq<Value>, k: Value): Option<Value>
    requires ArePairs(pairs)
    decreases |pairs|
  {
    if pairs == [] then Option.None
    else
      var last := pairs[|pairs| - 1];
      if last.fields[0] == k then Option.Some(last.fields[1]) else LastFor(pairs[..|pairs| - 1], k)
  }

  /** Whatever pairs are decoded, the map keeps the last value of each key and nothing else. */
  lemma {:induction false} MapKeepsLastValues(pairs: seq<Value>, k: Value)
    requires ArePairs(pairs)
    ensures var m := InsertAll(map[], pairs);
      (if k in m then Option.Some(m[k]) else Option.None) == LastFor(pairs, k)
    decreases |pairs|
  {
    if pairs != [] {
      var front, last := pairs[..|pairs| - 1], pairs[|pairs| - 1];
      assert pairs == front + [last];
      InsertAllSnoc(map[], front, last);
      MapKeepsLastValues(front, k);
    }
  }

  lemma EntriesArePairs(e: Schema, items: seq<Value>)
    requires IsEntry(e) && TypedList(e, items)
    ensures ArePairs(MeaningList(e, items))
  {
    forall i | 0 <= i < |items|
      ensures MeaningList(e, items)[i].Record? && |MeaningList(e, items)[i].fields| == 2
    {
      MeaningOfItem(e, items, i);
    }
  }

  predicate DistinctKeys(pairs: seq<Value>)
    requires ArePairs(pairs)
  {
    forall i, j :: 0 <= i < j < |pairs| ==> pairs[i].fields[0] != pairs[j].fields[0]
  }

  lemma {:induction false} LastForIsMembership(pairs: seq<Value>, k: Value, v: Value)
    requires ArePairs(pairs) && DistinctKeys(pairs)
    ensures LastFor(pairs, k) == Option.Some(v) <==> Record([k, v]) in pairs
    decreases |pairs|
  {
    if pairs != [] {
      var front, last := pairs[..|pairs| - 1], pairs[|pairs| - 1];
      assert pairs == front + [last];
      assert last == Record([last.fields[0], last.fields[1]]);
      LastForIsMembership(front, k, v);
    }
  }

  lemma {:induction false} MeaningOfItem(e: Schema, items: seq<Value>, i: nat)
    requires TypedList(e, items) && i < |items|
    ensures Typed(e, items[i]) && MeaningList(e, items)[i] == Meaning(e, items[i])
    decreases |items|
  {
    if i > 0 {
      MeaningOfItem(e, items[1..], i - 1);
    }
  }

  lemma MeaningsOfSameItems(e: Schema, xs: seq<Value>, ys: seq<Value>, v: Value)
    requires TypedList(e, xs) && TypedList(e, ys) && (forall x :: x in xs ==> x in ys)
    requires v in MeaningList(e, xs)
    ensures v in MeaningList(e, ys)
  {
    var i :| 0 <= i < |xs| && MeaningList(e, xs)[i] == v;
    MeaningOfItem(e, xs, i);
    assert xs[i] in ys;
    var j :| 0 <= j < |ys| && ys[j] == xs[i];
    MeaningOfItem(e, ys, j);
    assert MeaningList(e, ys)[j] == v;
  }

  /** A set decodes to the same set in whatever order its elements were written. */
  lemma SetOrderIsForgotten(e: Schema, xs: seq<Value>, ys: seq<Value>)
    requires Typed(SetT(e), List(xs)) && Typed(SetT(e), List(ys))
    requires forall x :: x in xs <==> x in ys
    ensures Meaning(SetT(e), List(xs)) == Meaning(SetT(e), List(ys))
  {
    forall v ensures v in MeaningList(e, xs) <==> v in MeaningList(e, ys) {
      if v in MeaningList(e, xs) { MeaningsOfSameItems(e, xs, ys, v); }
      if v in MeaningList(e, ys) { MeaningsOfSameItems(e, ys, xs, v); }
    }
  }

  /** A map decodes to the same map in whatever order its entries were written. */
  lemma MapOrderIsForgotten(e: Schema, xs: seq<Value>, ys: seq<Value>)
    requires Typed(MapT(e), List(xs)) && Typed(MapT(e), List(ys))
    requires forall x :: x in xs <==> x in ys
    requires ArePairs(MeaningList(e, xs)) ==> DistinctKeys(MeaningList(e, xs))
    requires ArePairs(MeaningList(e, ys)) ==> DistinctKeys(MeaningList(e, ys))
    ensures Meaning(MapT(e), List(xs)) == Meaning(MapT(e), List(ys))
  {
    var ps, qs := MeaningList(e, xs), MeaningList(e, ys);
    EntriesArePairs(e, xs);
    EntriesArePairs(e, ys);
    var m, m' := InsertAll(map[], ps), InsertAll(map[], qs);
    forall k
      ensures (if k in m then Option.Some(m[k]) else Option.None)
           == (if k in m' then Option.Some(m'[k]) else Option.None)
    {
      MapKeepsLastValues(ps, k);
      MapKeepsLastValues(qs, k);
      forall v ensures LastFor(ps, k) == Option.Some(v) <==> LastFor(qs, k) == Option.Some(v) {
        LastForIsMembership(ps, k, v);
        LastForIsMembership(qs, k, v);
        if Record([k, v]) in ps { MeaningsOfSameItems(e, xs, ys, Record([k, v])); }
        if Record([k, v]) in qs { MeaningsOfSameItems(e, ys, xs, Record([k, v])); }
      }
      match LastFor(ps, k) {
        case Some(v) => assert LastFor(qs, k) == Option.Some(v);
        case None => if LastFor(qs, k).Some? { assert LastFor(ps, k) == LastFor(qs, k); }
      }
    }
    SameLookupsSameMap(m, m');
  }

  lemma SameLookupsSameMap(m: map<Value, Value>, m': map<Value, Value>)
    requires forall k :: (if k in m then Option.Some(m[k]) else Option.None)
                      == (if k in m' then Option.Some(m'[k]) else Option.None)
    ensures m == m'
  {
    forall k ensures k in m <==> k in m' { }
  }
}
