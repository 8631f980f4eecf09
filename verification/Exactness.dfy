/** The exact condition under which a value comes back: all its lengths and tags survive their casts. */
module Exactness {
  import opened Bytes
  import opened Tapes
  import opened Bearer
  import opened Values
  import opened RoundTrip
  import opened ValueLaws

  // What decoding can return, whatever the tape holds.

  /** Decoded values whose lengths and sizes are below 2^32 and whose tags are in their type's range,
      at every depth. Nothing is said of skipped fields. */
  ghost predicate Compact(s: Schema, v: Value)
    decreases s, 0
  {
    match s
    case OptionT(e) => v.Present? ==> Compact(e, v.v)
    case ResultT(ok, err) => (v.Success? ==> Compact(ok, v.v)) && (v.Failure? ==> Compact(err, v.v))
    case ArrayT(_, e) => v.List? ==> CompactItems(e, v.items)
    case VecT(e) => v.List? ==> |v.items| < Pow256(LENGTH_WIDTH) && CompactItems(e, v.items)
    case StringT => v.Str? ==> |v.utf8| < Pow256(LENGTH_WIDTH)
    case MapT(e) => v.Dict? ==> |v.m| < Pow256(LENGTH_WIDTH) && CompactEntries(e, v.m)
    case SetT(e) => v.Elems? ==> |v.s| < Pow256(LENGTH_WIDTH) && forall x :: x in v.s ==> Compact(e, x)
    case StructT(fs) => v.Record? ==> CompactFields(fs, v.fields)
    case EnumT(w, vs) =>
      v.Variant? ==> v.tag < Pow256(w) && (v.tag < |vs| ==> CompactFields(vs[v.tag].fields, v.fields))
    case _ => true
  }

  ghost predicate CompactItems(e: Schema, items: seq<Value>)
    decreases e, 1
  {
    forall i :: 0 <= i < |items| ==> Compact(e, items[i])
  }

  ghost predicate CompactEntries(e: Schema, m: map<Value, Value>)
    decreases e, 1
  {
    forall k :: k in m ==> Compact(e, Record([k, m[k]]))
  }

  ghost predicate CompactFields(fs: seq<Field>, vs: seq<Value>)
    decreases fs, 0
  {
    |fs| == |vs| && (fs != [] ==> CompactField(fs[0], vs[0]) && CompactFields(fs[1..], vs[1..]))
  }

  ghost predicate CompactField(f: Field, v: Value)
    decreases f, 0
  {
    f.skip.None? ==> Compact(f.schema, v)
  }

  lemma FetchedIntInRange(t: Tape, width: nat)
    ensures FetchInt(t, width).Ok? ==> FetchInt(t, width).value.value < Pow256(width)
  {
    if Fetch(t, width).Ok? {
      ToFromLe(Fetch(t, width).value.value);
    }
  }

  /** Whatever is decoded, from any tape, is compact. */
  lemma {:induction false} DecodedIsCompact(s: Schema, t: Tape)
    ensures Decode(s, t).Ok? ==> Compact(s, Decode(s, t).value.value)
    decreases s, 0, 0
  {
    match s {
      case OptionT(e) =>
        if FetchInt(t, 1).Ok? { DecodedIsCompact(e, FetchInt(t, 1).value.tape); }
      case ResultT(ok, err) =>
        if FetchInt(t, 1).Ok? {
          DecodedIsCompact(ok, FetchInt(t, 1).value.tape);
          DecodedIsCompact(err, FetchInt(t, 1).value.tape);
        }
      case ArrayT(n, e) => DecodedListIsCompact(e, n, [], t);
      case VecT(e) => CountedIsCompact(e, t);
      case StringT => FetchedStringIsShort(t);
      case MapT(e) =>
        CountedIsCompact(e, t);
        if DecodeCounted(e, t).Ok? { InsertedIsCompact(e, map[], DecodeCounted(e, t).value.value); }
      case SetT(e) =>
        CountedIsCompact(e, t);
        if DecodeCounted(e, t).Ok? { SetIsNoLarger(DecodeCounted(e, t).value.value); }
      case StructT(fs) => DecodedFieldsAreCompact(fs, t);
      case EnumT(w, vs) =>
        FetchedIntInRange(t, w);
        if FetchInt(t, w).Ok? && FetchInt(t, w).value.value < |vs| {
          DecodedFieldsAreCompact(vs[FetchInt(t, w).value.value].fields, FetchInt(t, w).value.tape);
        }
      case _ =>
    }
  }

  lemma {:induction false} CountedIsCompact(e: Schema, t: Tape)
    ensures var d := DecodeCounted(e, t);
      d.Ok? ==> |d.value.value| < Pow256(LENGTH_WIDTH) && CompactItems(e, d.value.value)
    decreases e, 2, 0
  {
    FetchedIntInRange(t, LENGTH_WIDTH);
    if FetchInt(t, LENGTH_WIDTH).Ok? {
      DecodedListIsCompact(e, FetchInt(t, LENGTH_WIDTH).value.value, [], FetchInt(t, LENGTH_WIDTH).value.tape);
    }
  }

  lemma {:induction false} DecodedListIsCompact(e: Schema, n: nat, done: seq<Value>, t: Tape)
    requires |done| <= n && CompactItems(e, done)
    ensures var d := DecodeList(e, n, done, t); d.Ok? ==> |d.value.value| == n && CompactItems(e, d.value.value)
    decreases e, 1, n - |done|
  {
    if |done| < n {
      DecodedIsCompact(e, t);
      if Decode(e, t).Ok? {
        DecodedListIsCompact(e, n, done + [Decode(e, t).value.value], Decode(e, t).value.tape);
      }
    }
  }

  lemma {:induction false} DecodedFieldsAreCompact(fs: seq<Field>, t: Tape)
    ensures DecodeFields(fs, t).Ok? ==> CompactFields(fs, DecodeFields(fs, t).value.value)
    decreases fs, 0
  {
    if fs != [] {
      DecodedFieldIsCompact(fs[0], t);
      if DecodeField(fs[0], t).Ok? {
        DecodedFieldsAreCompact(fs[1..], DecodeField(fs[0], t).value.tape);
      }
    }
  }

  lemma {:induction false} DecodedFieldIsCompact(f: Field, t: Tape)
    ensures DecodeField(f, t).Ok? ==> CompactField(f, DecodeField(f, t).value.value)
    decreases f, 0
  {
    if f.skip.None? { DecodedIsCompact(f.schema, t); }
  }

  lemma {:induction false} FetchedBytesLength(n: nat, done: bytes, t: Tape)
    requires |done| <= n
    ensures FetchBytes(n, done, t).Ok? ==> |FetchBytes(n, done, t).value.value| == n
    decreases n - |done|
  {
    if |done| < n && Fetch(t, 1).Ok? {
      FetchedBytesLength(n, done + Fetch(t, 1).value.value, Fetch(t, 1).value.tape);
    }
  }

  lemma FetchedStringIsShort(t: Tape)
    ensures var d := FetchString(t);
      d.Ok? ==> d.value.value.Str? && |d.value.value.utf8| < Pow256(LENGTH_WIDTH)
  {
    FetchedIntInRange(t, LENGTH_WIDTH);
    if FetchInt(t, LENGTH_WIDTH).Ok? {
      FetchedBytesLength(FetchInt(t, LENGTH_WIDTH).value.value, [], FetchInt(t, LENGTH_WIDTH).value.tape);
    }
  }

  lemma {:induction false} InsertedIsCompact(e: Schema, m: map<Value, Value>, pairs: seq<Value>)
    requires CompactEntries(e, m) && CompactItems(e, pairs)
    ensures CompactEntries(e, InsertAll(m, pairs)) && |InsertAll(m, pairs)| <= |m| + |pairs|
    decreases |pairs|
  {
    if pairs != [] {
      OneInsertedIsCompact(e, m, pairs[0]);
      InsertedIsCompact(e, Insert(m, pairs[0]), pairs[1..]);
    }
  }

  lemma OneInsertedIsCompact(e: Schema, m: map<Value, Value>, pair: Value)
    requires CompactEntries(e, m) && Compact(e, pair)
    ensures CompactEntries(e, Insert(m, pair)) && |Insert(m, pair)| <= |m| + 1
  {
    if pair.Record? && |pair.fields| == 2 {
      assert pair == Record([pair.fields[0], pair.fields[1]]);
      assert Insert(m, pair).Keys == m.Keys + {pair.fields[0]};
    }
  }

  lemma {:induction false} SetIsNoLarger(items: seq<Value>)
    ensures |ToSet(items)| <= |items|
  {
    if items == [] {
      assert ToSet(items) == {};
    } else {
      SetIsNoLarger(items[1..]);
      assert ToSet(items) == {items[0]} + ToSet(items[1..]);
    }
  }

  // What that says of the value that was encoded.

  /** The keys of every map and the elements of every set, at every depth, still differ from one
      another once their skipped fields have been replaced by defaults. */
  ghost predicate Distinct(s: Schema, v: Value)
    requires Typed(s, v)
    decreases s, 0
  {
    match s
    case OptionT(e) => v.Present? ==> Distinct(e, v.v)
    case ResultT(ok, err) => if v.Success? then Distinct(ok, v.v) else Distinct(err, v.v)
    case ArrayT(_, e) => DistinctList(e, v.items)
    case VecT(e) => DistinctList(e, v.items)
    case MapT(e) =>
      EntriesArePairs(e, v.items);
      DistinctList(e, v.items) && DistinctKeys(MeaningList(e, v.items))
    case SetT(e) => DistinctList(e, v.items) && AllDiffer(MeaningList(e, v.items))
    case StructT(fs) => DistinctFields(fs, v.fields)
    case EnumT(_, vs) => DistinctFields(vs[v.tag].fields, v.fields)
    case _ => true
  }

  predicate AllDiffer(items: seq<Value>) {
    forall i, j :: 0 <= i < j < |items| ==> items[i] != items[j]
  }

  ghost predicate DistinctList(e: Schema, items: seq<Value>)
    requires TypedList(e, items)
    decreases e, |items| + 1
  {
    items == [] || (Distinct(e, items[0]) && DistinctList(e, items[1..]))
  }

  ghost predicate DistinctFields(fs: seq<Field>, vs: seq<Value>)
    requires TypedFields(fs, vs)
    decreases fs, 0
  {
    fs == [] || (DistinctField(fs[0], vs[0]) && DistinctFields(fs[1..], vs[1..]))
  }

  ghost predicate DistinctField(f: Field, v: Value)
    requires TypedField(f, v)
    decreases f, 0
  {
    f.skip.None? ==> Distinct(f.schema, v)
  }

  // Without skipped fields keys and elements that differ mean different things.

  lemma {:induction false} PlainIsDistinct(s: Schema, v: Value)
    requires Typed(s, v) && Plain(s)
    ensures Distinct(s, v)
    decreases s, 0, 0
  {
    match s {
      case OptionT(e) => if v.Present? { PlainIsDistinct(e, v.v); }
      case ResultT(ok, err) => PlainIsDistinct(if v.Success? then ok else err, v.v);
      case ArrayT(_, e) => PlainListIsDistinct(e, v.items);
      case VecT(e) => PlainListIsDistinct(e, v.items);
      case StructT(fs) => PlainFieldsAreDistinct(fs, v.fields);
      case EnumT(_, vs) => PlainFieldsAreDistinct(vs[v.tag].fields, v.fields);
      case _ =>
    }
  }

  lemma {:induction false} PlainListIsDistinct(e: Schema, items: seq<Value>)
    requires TypedList(e, items) && Plain(e)
    ensures DistinctList(e, items)
    decreases e, 1, |items|
  {
    if items != [] {
      PlainIsDistinct(e, items[0]);
      PlainListIsDistinct(e, items[1..]);
    }
  }

  lemma {:induction false} PlainFieldsAreDistinct(fs: seq<Field>, vs: seq<Value>)
    requires TypedFields(fs, vs) && PlainFields(fs)
    ensures DistinctFields(fs, vs)
    decreases fs, 0
  {
    if fs != [] {
      PlainFieldIsDistinct(fs[0], vs[0]);
      PlainFieldsAreDistinct(fs[1..], vs[1..]);
    }
  }

  lemma {:induction false} PlainFieldIsDistinct(f: Field, v: Value)
    requires TypedField(f, v) && PlainField(f)
    ensures DistinctField(f, v)
    decreases f, 0
  {
    PlainIsDistinct(f.schema, v);
  }

  /** Sets of plain elements meet the condition exactly if the elements differ. */
  lemma PlainSetIsDistinctIff(e: Schema, items: seq<Value>)
    requires TypedList(e, items) && Plain(e)
    ensures Distinct(SetT(e), List(items)) <==> AllDiffer(items)
  {
    PlainListsAreKept(e, items);
    PlainListIsDistinct(e, items);
  }

  /** Maps with plain entries meet it exactly if the keys differ. */
  lemma PlainMapIsDistinctIff(e: Schema, items: seq<Value>)
    requires TypedList(e, items) && Plain(e) && IsEntry(e)
    ensures ArePairs(items) && (Distinct(MapT(e), List(items)) <==> DistinctKeys(items))
  {
    PlainListsAreKept(e, items);
    EntriesArePairs(e, items);
    PlainListIsDistinct(e, items);
  }

  lemma {:induction false} NoPairNoValue(pairs: seq<Value>, k: Value)
    requires ArePairs(pairs) && forall i :: 0 <= i < |pairs| ==> pairs[i].fields[0] != k
    ensures LastFor(pairs, k) == Option.None
    decreases |pairs|
  {
    if pairs != [] { NoPairNoValue(pairs[..|pairs| - 1], k); }
  }

  lemma {:induction false} DistinctPairsSurvive(pairs: seq<Value>)
    requires ArePairs(pairs) && DistinctKeys(pairs)
    ensures var m := InsertAll(map[], pairs);
      && |m| == |pairs|
      && forall i :: 0 <= i < |pairs| ==> pairs[i].fields[0] in m && m[pairs[i].fields[0]] == pairs[i].fields[1]
    decreases |pairs|
  {
    if pairs == [] {
      assert InsertAll(map[], pairs) == map[];
    } else {
      var front, last := pairs[..|pairs| - 1], pairs[|pairs| - 1];
      var k := last.fields[0];
      assert pairs == front + [last];
      InsertAllSnoc(map[], front, last);
      DistinctPairsSurvive(front);
      var m := InsertAll(map[], front);
      NoPairNoValue(front, k);
      MapKeepsLastValues(front, k);
      assert m[k := last.fields[1]].Keys == m.Keys + {k};
    }
  }

  lemma {:induction false} DistinctItemsSurvive(items: seq<Value>)
    requires AllDiffer(items)
    ensures |ToSet(items)| == |items|
  {
    if items == [] {
      assert ToSet(items) == {};
    } else {
      DistinctItemsSurvive(items[1..]);
      assert items[0] !in ToSet(items[1..]);
      assert ToSet(items) == {items[0]} + ToSet(items[1..]);
    }
  }

  /** A value whose meaning is compact is countable. */
  lemma {:induction false} CompactMeansCountable(s: Schema, v: Value)
    requires Typed(s, v) && Distinct(s, v) && Compact(s, Meaning(s, v))
    ensures Countable(s, v)
    decreases s, 0, 0
  {
    match s {
      case OptionT(e) => if v.Present? { CompactMeansCountable(e, v.v); }
      case ResultT(ok, err) => CompactMeansCountable(if v.Success? then ok else err, v.v);
      case ArrayT(_, e) => CompactItemsMeanCountable(e, v.items);
      case VecT(e) => CompactItemsMeanCountable(e, v.items);
      case MapT(e) =>
        var pairs := MeaningList(e, v.items);
        EntriesArePairs(e, v.items);
        DistinctPairsSurvive(pairs);
        forall i | 0 <= i < |pairs| ensures Compact(e, pairs[i]) {
          assert pairs[i] == Record([pairs[i].fields[0], pairs[i].fields[1]]);
        }
        CompactItemsMeanCountable(e, v.items);
      case SetT(e) =>
        var items := MeaningList(e, v.items);
        DistinctItemsSurvive(items);
        assert forall i :: 0 <= i < |items| ==> items[i] in ToSet(items);
        CompactItemsMeanCountable(e, v.items);
      case StructT(fs) => CompactFieldsMeanCountable(fs, v.fields);
      case EnumT(_, vs) => CompactFieldsMeanCountable(vs[v.tag].fields, v.fields);
      case _ =>
    }
  }

  lemma {:induction false} CompactItemsMeanCountable(e: Schema, items: seq<Value>)
    requires TypedList(e, items) && DistinctList(e, items) && CompactItems(e, MeaningList(e, items))
    ensures CountableList(e, items)
    decreases e, 1, |items|
  {
    if items != [] {
      var meanings := MeaningList(e, items);
      assert meanings[0] == Meaning(e, items[0]) && meanings[1..] == MeaningList(e, items[1..]);
      CompactMeansCountable(e, items[0]);
      CompactItemsMeanCountable(e, items[1..]);
    }
  }

  lemma {:induction false} CompactFieldsMeanCountable(fs: seq<Field>, vs: seq<Value>)
    requires TypedFields(fs, vs) && DistinctFields(fs, vs) && CompactFields(fs, MeaningFields(fs, vs))
    ensures CountableFields(fs, vs)
    decreases fs, 0
  {
    if fs != [] {
      var meanings := MeaningFields(fs, vs);
      assert meanings[0] == MeaningField(fs[0], vs[0]) && meanings[1..] == MeaningFields(fs[1..], vs[1..]);
      CompactFieldMeansCountable(fs[0], vs[0]);
      CompactFieldsMeanCountable(fs[1..], vs[1..]);
    }
  }

  lemma {:induction false} CompactFieldMeansCountable(f: Field, v: Value)
    requires TypedField(f, v) && DistinctField(f, v) && CompactField(f, MeaningField(f, v))
    ensures CountableField(f, v)
    decreases f, 0
  {
    if f.skip.None? { CompactMeansCountable(f.schema, v); }
  }

  /** No bytes whatever decode to a value with a length or a tag beyond its type. */
  lemma UncountableIsNeverDecoded(s: Schema, v: Value, t: Tape)
    requires Typed(s, v) && Distinct(s, v) && !Countable(s, v)
    ensures Decode(s, t).Ok? ==> Decode(s, t).value.value != Meaning(s, v)
  {
    DecodedIsCompact(s, t);
    if Decode(s, t).Ok? && Decode(s, t).value.value == Meaning(s, v) {
      CompactMeansCountable(s, v);
    }
  }

  /** For every schema: a value that is next on the tape decodes to its meaning, and exactly the
      writes behind it are left, if and only if all its lengths and tags survive their casts. */
  lemma ValueReadsBackIff(s: Schema, v: Value, t: Tape, more: seq<bytes>)
    requires Typed(s, v) && Distinct(s, v) && OnTape(t, Writes(s, v) + more)
    ensures Yields(Decode(s, t), Meaning(s, v), more) <==> Countable(s, v)
  {
    if Countable(s, v) {
      ValueReadsBack(s, v, t, more);
    } else {
      UncountableIsNeverDecoded(s, v, t);
    }
  }
}
