/** Who drops what when decoding fails half-way: the guards of arrays, vectors, boxed slices, tuples
    and derived structs, over slots of which each may be initialised and dropped only once. */
module Ownership {
  datatype Status = Uninit | Live | Dropped

  /** What guards the parts of a composite value while it is decoded: `ArrayDecodingGuard`, the same
      or the length of a `Vec` where a length prefix is decoded first, `TupleDecodingGuard`, or the
      `LocalDropGuard` of a derived struct. */
  datatype Guard = ByArray | ByPrefix | ByTuple | ByStruct

  /** The shape of a value: its leaves are what decoding initialises one by one. A unit is an empty
      tuple; a vector has as many parts as its length prefix says. */
  datatype Shape = Leaf | Node(guard: Guard, parts: seq<Part>)

  datatype Part = Part(shape: Shape, skip: bool)

  /** Only fields of derived structs can be skipped. */
  predicate WellFormed(s: Shape)
    decreases s, 0
  {
    match s
    case Leaf => true
    case Node(g, parts) =>
      forall i :: 0 <= i < |parts| ==> (parts[i].skip ==> g == ByStruct) && WellFormedPart(parts[i])
  }

  predicate WellFormedPart(p: Part)
    decreases p, 0
  {
    WellFormed(p.shape)
  }

  function Size(s: Shape): nat
    decreases s, 0
  {
    match s
    case Leaf => 1
    case Node(_, parts) => Sizes(parts)
  }

  function PartSize(p: Part): nat
    decreases p, 0
  {
    Size(p.shape)
  }

  /** The number of leaves of all parts together; `Sizes(parts[..k])` is where part `k` starts. */
  function Sizes(parts: seq<Part>): nat
    decreases parts, 0
  {
    if parts == [] then 0 else Sizes(parts[..|parts| - 1]) + PartSize(parts[|parts| - 1])
  }

  lemma NextPart(parts: seq<Part>, k: nat)
    requires k < |parts|
    ensures Sizes(parts[..k + 1]) == Sizes(parts[..k]) + Size(parts[k].shape)
  {
    assert parts[..k + 1][..k] == parts[..k];
  }

  lemma {:induction false} SizesMonotone(parts: seq<Part>, j: nat, k: nat)
    requires j <= k <= |parts|
    ensures Sizes(parts[..j]) <= Sizes(parts[..k])
    decreases k
  {
    if j < k {
      NextPart(parts, k - 1);
      SizesMonotone(parts, j, k - 1);
    }
  }

  // The fields each drop guard selects.

  function Range(n: nat): seq<nat> {
    seq(n, i => i)
  }

  function Reversed(s: seq<nat>): seq<nat> {
    seq(|s|, i requires 0 <= i < |s| => s[|s| - 1 - i])
  }

  /** The arm that `tuple_drop_guard` generates for `count` of `n` fields: the reversed field list
      without its first `n - count`. */
  function TupleArm(n: nat, count: nat): seq<nat>
    requires count <= n
  {
    Reversed(Range(n))[n - count..]
  }

  /** The arm drops the fields below `count`, each once, last one first. */
  lemma TupleArmCountsDown(n: nat, count: nat)
    requires count <= n
    ensures |TupleArm(n, count)| == count
    ensures forall i :: 0 <= i < count ==> TupleArm(n, count)[i] == count - 1 - i
  {
  }

  // Memory. A leaf is initialised only when it is not, and dropped only when it is live.

  method Initialise(slots: array<Status>, i: nat)
    requires i < slots.Length && slots[i] == Uninit
    modifies slots
    ensures slots[..] == old(slots[..])[i := Live]
  {
    slots[i] := Live;
  }

  method DropLeaf(slots: array<Status>, i: nat)
    requires i < slots.Length && slots[i] == Live
    modifies slots
    ensures slots[..] == old(slots[..])[i := Dropped]
  {
    slots[i] := Dropped;
  }

  /** `drop_in_place` of a complete value. */
  method DropValue(slots: array<Status>, at: nat, s: Shape)
    requires at + Size(s) <= slots.Length
    requires forall i :: at <= i < at + Size(s) ==> slots[i] == Live
    modifies slots
    ensures forall i :: 0 <= i < slots.Length ==>
      slots[i] == if at <= i < at + Size(s) then Dropped else old(slots[i])
    decreases s
  {
    match s
    case Leaf => DropLeaf(slots, at);
    case Node(_, parts) =>
      assert parts[..|parts|] == parts;
      for k := 0 to |parts|
        invariant forall i :: 0 <= i < slots.Length ==>
          slots[i] == if at <= i < at + Sizes(parts[..k]) then Dropped else old(slots[i])
      {
        NextPart(parts, k);
        SizesMonotone(parts, k + 1, |parts|);
        DropValue(slots, at + Sizes(parts[..k]), parts[k].shape);
      }
  }

  /** Whether leaf `i` of these parts belongs to a skipped one. */
  predicate InSkippedPart(parts: seq<Part>, i: nat)
    requires i < Sizes(parts)
    decreases |parts|
  {
    var front := parts[..|parts| - 1];
    if i < Sizes(front) then InSkippedPart(front, i) else parts[|parts| - 1].skip
  }

  /** What a guard leaves of a leaf it guards. */
  function Released(parts: seq<Part>, i: nat): Status
    requires i < Sizes(parts)
  {
    if InSkippedPart(parts, i) then Live else Dropped
  }

  lemma ReleasedNext(parts: seq<Part>, k: nat, i: nat)
    requires k < |parts| && i < Sizes(parts[..k + 1])
    ensures Released(parts[..k + 1], i) ==
      if i < Sizes(parts[..k]) then Released(parts[..k], i) else if parts[k].skip then Live else Dropped
  {
    assert parts[..k + 1][..k] == parts[..k];
  }

  /** The guard of a length or of a struct drops the first `count` parts in order; the struct's
      leaves out skipped fields. No guard drops a complete value: `count` is below the number of
      parts, which is the arm the generated code calls unreachable. */
  method DropInOrder(slots: array<Status>, at: nat, parts: seq<Part>, count: nat)
    requires count < |parts| && at + Sizes(parts[..count]) <= slots.Length
    requires forall i :: at <= i < at + Sizes(parts[..count]) ==> slots[i] == Live
    modifies slots
    ensures forall i :: 0 <= i < slots.Length ==>
      slots[i] == if at <= i < at + Sizes(parts[..count]) then Released(parts[..count], i - at) else old(slots[i])
  {
    for k := 0 to count
      invariant Sizes(parts[..k]) <= Sizes(parts[..count])
      invariant forall i :: 0 <= i < slots.Length ==>
        slots[i] == if at <= i < at + Sizes(parts[..k]) then Released(parts[..k], i - at) else old(slots[i])
    {
      NextPart(parts, k);
      SizesMonotone(parts, k + 1, count);
      if !parts[k].skip {
        DropValue(slots, at + Sizes(parts[..k]), parts[k].shape);
      }
      forall i | 0 <= i < Sizes(parts[..k + 1])
        ensures Released(parts[..k + 1], i) ==
          if i < Sizes(parts[..k]) then Released(parts[..k], i) else if parts[k].skip then Live else Dropped
      {
        ReleasedNext(parts, k, i);
      }
    }
  }

  /** The guard of a tuple drops the fields its generated arm lists. */
  method DropByArm(slots: array<Status>, at: nat, parts: seq<Part>, count: nat)
    requires count < |parts| && at + Sizes(parts[..count]) <= slots.Length
    requires forall i :: at <= i < at + Sizes(parts[..count]) ==> slots[i] == Live
    modifies slots
    ensures forall i :: 0 <= i < slots.Length ==>
      slots[i] == if at <= i < at + Sizes(parts[..count]) then Dropped else old(slots[i])
  {
    var arm := TupleArm(|parts|, count);
    for j := 0 to |arm|
      invariant Sizes(parts[..count - j]) <= Sizes(parts[..count])
      invariant forall i :: 0 <= i < slots.Length ==>
        slots[i] == if at + Sizes(parts[..count - j]) <= i < at + Sizes(parts[..count]) then Dropped else old(slots[i])
    {
      var k := arm[j];
      NextPart(parts, k);
      DropValue(slots, at + Sizes(parts[..k]), parts[k].shape);
    }
    assert parts[..0] == [];
  }

  // How far decoding gets. Each leaf and each length prefix takes one elementary decode.

  function PrefixSteps(g: Guard): nat {
    if g == ByPrefix then 1 else 0
  }

  /** The number of elementary decodes of a value. */
  function Steps(s: Shape): nat
    decreases s, 0
  {
    match s
    case Leaf => 1
    case Node(g, parts) => PrefixSteps(g) + StepsOf(parts)
  }

  function PartSteps(p: Part): nat
    decreases p, 0
  {
    if p.skip then 0 else Steps(p.shape)
  }

  function StepsOf(parts: seq<Part>): nat
    decreases parts, 0
  {
    if parts == [] then 0 else StepsOf(parts[..|parts| - 1]) + PartSteps(parts[|parts| - 1])
  }

  lemma NextSteps(parts: seq<Part>, k: nat)
    requires k < |parts|
    ensures StepsOf(parts[..k + 1]) == StepsOf(parts[..k]) + PartSteps(parts[k])
  {
    assert parts[..k + 1][..k] == parts[..k];
  }

  lemma {:induction false} StepsMonotone(parts: seq<Part>, j: nat, k: nat)
    requires j <= k <= |parts|
    ensures StepsOf(parts[..j]) <= StepsOf(parts[..k])
    decreases k
  {
    if j < k {
      NextSteps(parts, k - 1);
      StepsMonotone(parts, j, k - 1);
    }
  }

  function Untouched(n: nat): (m: seq<Status>)
    ensures |m| == n
  {
    seq(n, i => Uninit)
  }

  function AllReleased(parts: seq<Part>): (m: seq<Status>)
    ensures |m| == Sizes(parts)
  {
    seq(Sizes(parts), i requires 0 <= i < Sizes(parts) => Released(parts, i))
  }

  /** The slots of a value whose decoding fails right after `n` elementary decodes. */
  function FailState(s: Shape, n: nat): (m: seq<Status>)
    requires n < Steps(s)
    ensures |m| == Size(s)
    decreases s, 0
  {
    match s
    case Leaf => [Uninit]
    case Node(g, parts) =>
      if n < PrefixSteps(g) then Untouched(Sizes(parts)) else FailParts(parts, n - PrefixSteps(g))
  }

  function FailParts(parts: seq<Part>, n: nat): (m: seq<Status>)
    requires n < StepsOf(parts)
    ensures |m| == Sizes(parts)
    decreases parts, 0
  {
    var front, last := parts[..|parts| - 1], parts[|parts| - 1];
    if n < StepsOf(front) then FailParts(front, n) + Untouched(PartSize(last))
    else AllReleased(front) + FailPart(last, n - StepsOf(front))
  }

  function FailPart(p: Part, n: nat): (m: seq<Status>)
    requires n < PartSteps(p)
    ensures |m| == PartSize(p)
    decreases p, 0
  {
    FailState(p.shape, n)
  }

  /** The failing elementary decode, number `n` of these parts, belongs to part `k`. */
  predicate FailsIn(parts: seq<Part>, k: nat, n: nat) {
    k < |parts| && StepsOf(parts[..k]) <= n < StepsOf(parts[..k]) + PartSteps(parts[k])
  }

  lemma FailsInBounds(parts: seq<Part>, k: nat, n: nat)
    requires FailsIn(parts, k, n)
    ensures n < StepsOf(parts) && Sizes(parts[..k]) + PartSize(parts[k]) <= Sizes(parts)
  {
    NextSteps(parts, k);
    StepsMonotone(parts, k + 1, |parts|);
    NextPart(parts, k);
    SizesMonotone(parts, k + 1, |parts|);
    assert parts[..|parts|] == parts;
  }

  lemma {:induction false} FailingPart(parts: seq<Part>, n: nat) returns (k: nat)
    requires n < StepsOf(parts)
    ensures FailsIn(parts, k, n)
    decreases |parts|
  {
    var front := parts[..|parts| - 1];
    if n < StepsOf(front) {
      k := FailingPart(front, n);
      assert parts[..k] == front[..k];
    } else {
      k := |parts| - 1;
    }
  }

  /** The parts before the failing one have been released by the guard, those behind never begun. */
  lemma {:induction false} FailPartsAt(parts: seq<Part>, k: nat, n: nat)
    requires FailsIn(parts, k, n)
    ensures n < StepsOf(parts) && Sizes(parts[..k]) + PartSize(parts[k]) <= Sizes(parts)
    ensures forall i :: 0 <= i < Sizes(parts) ==>
      var lo, failed := Sizes(parts[..k]), FailPart(parts[k], n - StepsOf(parts[..k]));
      FailParts(parts, n)[i] == if i < lo then Released(parts[..k], i)
                                else if i < lo + |failed| then failed[i - lo] else Uninit
    decreases |parts|
  {
    FailsInBounds(parts, k, n);
    var front := parts[..|parts| - 1];
    if k < |parts| - 1 {
      assert front[..k] == parts[..k];
      FailPartsAt(front, k, n);
    }
  }

  /** Decoding from a source that fails right after `budget` elementary decodes, or that has this
      number left. Success leaves every leaf live, failure the state foretold. */
  method Decode(slots: array<Status>, at: nat, s: Shape, budget: nat) returns (ok: bool, left: nat)
    requires WellFormed(s) && at + Size(s) <= slots.Length
    requires forall i :: at <= i < at + Size(s) ==> slots[i] == Uninit
    modifies slots
    ensures ok <==> budget >= Steps(s)
    ensures ok ==> left == budget - Steps(s) && forall i :: at <= i < at + Size(s) ==> slots[i] == Live
    ensures !ok ==> slots[at..at + Size(s)] == FailState(s, budget)
    ensures forall i :: 0 <= i < slots.Length && !(at <= i < at + Size(s)) ==> slots[i] == old(slots[i])
    decreases s, 1
  {
    match s
    case Leaf =>
      if budget == 0 { return false, 0; }
      Initialise(slots, at);
      ok, left := true, budget - 1;
    case Node(guard, parts) =>
      if guard == ByPrefix && budget == 0 { return false, 0; }
      ok, left := DecodeParts(slots, at, guard, parts, budget - PrefixSteps(guard));
  }

  method DecodeParts(slots: array<Status>, at: nat, guard: Guard, parts: seq<Part>, budget: nat)
    returns (ok: bool, left: nat)
    requires WellFormed(Node(guard, parts)) && at + Sizes(parts) <= slots.Length
    requires forall i :: at <= i < at + Sizes(parts) ==> slots[i] == Uninit
    modifies slots
    ensures ok <==> budget >= StepsOf(parts)
    ensures ok ==> left == budget - StepsOf(parts) && forall i :: at <= i < at + Sizes(parts) ==> slots[i] == Live
    ensures !ok ==> slots[at..at + Sizes(parts)] == FailParts(parts, budget)
    ensures forall i :: 0 <= i < slots.Length && !(at <= i < at + Sizes(parts)) ==> slots[i] == old(slots[i])
    decreases parts, 1
  {
    assert parts[..|parts|] == parts;
    left := budget;
    for count := 0 to |parts|
      invariant Sizes(parts[..count]) <= Sizes(parts)
      invariant StepsOf(parts[..count]) <= budget && left == budget - StepsOf(parts[..count])
      invariant forall i :: 0 <= i < slots.Length ==>
        slots[i] == if at <= i < at + Sizes(parts[..count]) then Live else old(slots[i])
    {
      NextPart(parts, count);
      NextSteps(parts, count);
      SizesMonotone(parts, count + 1, |parts|);
      var lo := at + Sizes(parts[..count]);
      ok, left := DecodePart(slots, lo, parts[count], left);
      if !ok {
        FailsInBounds(parts, count, budget);
        DropGuarded(slots, at, guard, parts, count, budget);
        return;
      }
    }
    ok := true;
  }

  /** The drop of a guard when part `count` has failed. */
  method DropGuarded(slots: array<Status>, at: nat, guard: Guard, parts: seq<Part>, count: nat, ghost n: nat)
    requires WellFormed(Node(guard, parts)) && FailsIn(parts, count, n) && at + Sizes(parts) <= slots.Length
    requires Sizes(parts[..count]) + PartSize(parts[count]) <= Sizes(parts)
    requires forall i :: at <= i < at + Sizes(parts[..count]) ==> slots[i] == Live
    requires FailPart(parts[count], n - StepsOf(parts[..count]))
      == slots[at + Sizes(parts[..count])..at + Sizes(parts[..count]) + PartSize(parts[count])]
    requires forall i :: at + Sizes(parts[..count]) + PartSize(parts[count]) <= i < at + Sizes(parts) ==>
      slots[i] == Uninit
    modifies slots
    ensures n < StepsOf(parts) && slots[at..at + Sizes(parts)] == FailParts(parts, n)
    ensures forall i :: 0 <= i < slots.Length && !(at <= i < at + Sizes(parts)) ==> slots[i] == old(slots[i])
  {
    hide FailParts, FailPart, StepsOf, Sizes, Released, PartSize;
    ghost var lo := Sizes(parts[..count]);
    ghost var hi := lo + PartSize(parts[count]);
    ghost var failed := slots[at + lo..at + hi];
    if guard == ByTuple {
      NothingSkipped(parts[..count]);
      DropByArm(slots, at, parts, count);
    } else {
      DropInOrder(slots, at, parts, count);
    }
    ghost var m := slots[at..at + Sizes(parts)];
    forall i | 0 <= i < |m|
      ensures m[i] == if i < lo then Released(parts[..count], i) else if i < hi then failed[i - lo] else Uninit
    {
      assert m[i] == slots[at + i];
    }
    Assembled(parts, count, n, m);
  }

  lemma Assembled(parts: seq<Part>, k: nat, n: nat, m: seq<Status>)
    requires FailsIn(parts, k, n) && |m| == Sizes(parts)
    requires forall i :: 0 <= i < |m| ==>
      var lo, failed := Sizes(parts[..k]), FailPart(parts[k], n - StepsOf(parts[..k]));
      m[i] == if i < lo then Released(parts[..k], i) else if i < lo + |failed| then failed[i - lo] else Uninit
    ensures n < StepsOf(parts) && m == FailParts(parts, n)
  {
    FailPartsAt(parts, k, n);
  }

  lemma {:induction false} NothingSkipped(parts: seq<Part>)
    requires forall i :: 0 <= i < |parts| ==> !parts[i].skip
    ensures forall i :: 0 <= i < Sizes(parts) ==> Released(parts, i) == Dropped
    decreases |parts|
  {
    forall j | 0 <= j < |parts| ensures parts[j].skip ==> PartSize(parts[j]) == 0 { }
    EmptySkips(parts);
  }

  /** A skipped field gets its default; any other part is decoded. */
  method DecodePart(slots: array<Status>, at: nat, p: Part, budget: nat) returns (ok: bool, left: nat)
    requires WellFormedPart(p) && at + PartSize(p) <= slots.Length
    requires forall i :: at <= i < at + PartSize(p) ==> slots[i] == Uninit
    modifies slots
    ensures ok <==> budget >= PartSteps(p)
    ensures ok ==> left == budget - PartSteps(p) && forall i :: at <= i < at + PartSize(p) ==> slots[i] == Live
    ensures !ok ==> slots[at..at + PartSize(p)] == FailPart(p, budget)
    ensures forall i :: 0 <= i < slots.Length && !(at <= i < at + PartSize(p)) ==> slots[i] == old(slots[i])
    decreases p, 0
  {
    if p.skip {
      for i := 0 to PartSize(p)
        invariant forall j :: 0 <= j < slots.Length ==>
          slots[j] == if at <= j < at + i then Live else old(slots[j])
      {
        Initialise(slots, at + i);
      }
      return true, budget;
    }
    ok, left := Decode(slots, at, p.shape, budget);
  }

  // The failed states by themselves.

  /** The slots of a value whose decoding failed, told without counting decodes. */
  ghost predicate Abandoned(s: Shape, m: seq<Status>)
    decreases s, 0
  {
    match s
    case Leaf => m == [Uninit]
    case Node(g, parts) => (g == ByPrefix && m == Untouched(Sizes(parts))) || AbandonedParts(parts, m)
  }

  ghost predicate AbandonedParts(parts: seq<Part>, m: seq<Status>)
    decreases parts, 2
  {
    |m| == Sizes(parts) && exists k: nat :: k < |parts| && !parts[k].skip && AbandonedAt(parts, k, m)
  }

  /** Part `k` failed: the parts before it were released by the guard, those behind never begun. */
  ghost predicate AbandonedAt(parts: seq<Part>, k: nat, m: seq<Status>)
    requires k < |parts|
    decreases parts, 1
  {
    var lo, hi := Sizes(parts[..k]), Sizes(parts[..k]) + PartSize(parts[k]);
    && hi <= |m|
    && (forall i :: 0 <= i < lo ==> m[i] == Released(parts[..k], i))
    && AbandonedPart(parts[k], m[lo..hi])
    && (forall i :: hi <= i < |m| ==> m[i] == Uninit)
  }

  ghost predicate AbandonedPart(p: Part, m: seq<Status>)
    decreases p, 0
  {
    Abandoned(p.shape, m)
  }

  /** Every run that fails ends in such a state. */
  lemma {:induction false} FailStateIsAbandoned(s: Shape, n: nat)
    requires n < Steps(s)
    ensures Abandoned(s, FailState(s, n))
    decreases s, 0
  {
    match s
    case Leaf =>
    case Node(g, parts) => if n >= PrefixSteps(g) { FailPartsAreAbandoned(parts, n - PrefixSteps(g)); }
  }

  lemma {:induction false} FailPartsAreAbandoned(parts: seq<Part>, n: nat)
    requires n < StepsOf(parts)
    ensures AbandonedParts(parts, FailParts(parts, n))
    decreases parts, 1
  {
    var k := FailingPart(parts, n);
    var m := FailParts(parts, n);
    FailPartsAt(parts, k, n);
    var lo, failed := Sizes(parts[..k]), FailPart(parts[k], n - StepsOf(parts[..k]));
    PartFailStateIsAbandoned(parts[k], n - StepsOf(parts[..k]));
    assert forall i :: 0 <= i < |failed| ==> m[lo + i] == failed[i];
    assert m[lo..lo + PartSize(parts[k])] == failed;
    assert AbandonedAt(parts, k, m);
  }

  lemma {:induction false} PartFailStateIsAbandoned(p: Part, n: nat)
    requires n < PartSteps(p)
    ensures AbandonedPart(p, FailPart(p, n))
    decreases p, 0
  {
    FailStateIsAbandoned(p.shape, n);
  }

  /** Every such state is the end of some run. */
  lemma {:induction false} AbandonedIsFailState(s: Shape, m: seq<Status>) returns (n: nat)
    requires Abandoned(s, m)
    ensures n < Steps(s) && m == FailState(s, n)
    decreases s, 0
  {
    match s
    case Leaf => n := 0;
    case Node(g, parts) =>
      if g == ByPrefix && m == Untouched(Sizes(parts)) {
        n := 0;
      } else {
        n := AbandonedAreFailParts(parts, m);
        n := PrefixSteps(g) + n;
      }
  }

  lemma {:induction false} AbandonedAreFailParts(parts: seq<Part>, m: seq<Status>) returns (n: nat)
    requires AbandonedParts(parts, m)
    ensures n < StepsOf(parts) && m == FailParts(parts, n)
    decreases parts, 1
  {
    var k: nat :| k < |parts| && !parts[k].skip && AbandonedAt(parts, k, m);
    var lo, hi := Sizes(parts[..k]), Sizes(parts[..k]) + PartSize(parts[k]);
    var n' := AbandonedPartIsFailState(parts[k], m[lo..hi]);
    n := StepsOf(parts[..k]) + n';
    FailPartsAt(parts, k, n);
    forall i | lo <= i < hi ensures m[i] == FailPart(parts[k], n')[i - lo] {
      assert m[i] == m[lo..hi][i - lo];
    }
  }

  lemma {:induction false} AbandonedPartIsFailState(p: Part, m: seq<Status>) returns (n: nat)
    requires !p.skip && AbandonedPart(p, m)
    ensures n < PartSteps(p) && m == FailPart(p, n)
    decreases p, 0
  {
    n := AbandonedIsFailState(p.shape, m);
  }

  /** The states that failure can leave behind are exactly the abandoned ones. */
  lemma AbandonedIff(s: Shape, m: seq<Status>)
    ensures Abandoned(s, m) <==> exists n: nat :: n < Steps(s) && m == FailState(s, n)
  {
    if Abandoned(s, m) {
      var n := AbandonedIsFailState(s, m);
    }
    forall n: nat | n < Steps(s) && m == FailState(s, n) ensures Abandoned(s, m) {
      FailStateIsAbandoned(s, n);
    }
  }

  // What failure leaves behind.

  /** The number of leaves that are initialised, by decoding or with a default, before the failure. */
  function Begun(s: Shape, n: nat): nat
    requires n < Steps(s)
    decreases s, 0
  {
    match s
    case Leaf => 0
    case Node(g, parts) => if n < PrefixSteps(g) then 0 else BegunParts(parts, n - PrefixSteps(g))
  }

  function BegunParts(parts: seq<Part>, n: nat): nat
    requires n < StepsOf(parts)
    decreases parts, 0
  {
    var front, last := parts[..|parts| - 1], parts[|parts| - 1];
    if n < StepsOf(front) then BegunParts(front, n) else Sizes(front) + BegunPart(last, n - StepsOf(front))
  }

  function BegunPart(p: Part, n: nat): nat
    requires n < PartSteps(p)
    decreases p, 0
  {
    Begun(p.shape, n)
  }

  /** In every failed state exactly the leaves begun have been touched. */
  lemma {:induction false} BegunAreTouched(s: Shape, n: nat)
    requires n < Steps(s)
    ensures Begun(s, n) <= Size(s)
    ensures forall i :: 0 <= i < Size(s) ==> (FailState(s, n)[i] != Uninit <==> i < Begun(s, n))
    decreases s, 0
  {
    match s
    case Leaf =>
    case Node(g, parts) => if n >= PrefixSteps(g) { BegunPartsAreTouched(parts, n - PrefixSteps(g)); }
  }

  lemma {:induction false} BegunPartsAreTouched(parts: seq<Part>, n: nat)
    requires n < StepsOf(parts)
    ensures BegunParts(parts, n) <= Sizes(parts)
    ensures forall i :: 0 <= i < Sizes(parts) ==> (FailParts(parts, n)[i] != Uninit <==> i < BegunParts(parts, n))
    decreases parts, 0
  {
    var front, last := parts[..|parts| - 1], parts[|parts| - 1];
    if n < StepsOf(front) {
      BegunPartsAreTouched(front, n);
    } else {
      BegunPartIsTouched(last, n - StepsOf(front));
    }
  }

  lemma {:induction false} BegunPartIsTouched(p: Part, n: nat)
    requires n < PartSteps(p)
    ensures BegunPart(p, n) <= PartSize(p)
    ensures forall i :: 0 <= i < PartSize(p) ==> (FailPart(p, n)[i] != Uninit <==> i < BegunPart(p, n))
    decreases p, 0
  {
    BegunAreTouched(p.shape, n);
  }

  /** No field whose decoding can fail comes after a skipped field that holds anything. */
  predicate LeakFree(s: Shape)
    decreases s, 0
  {
    match s
    case Leaf => true
    case Node(_, parts) =>
      forall k :: 0 <= k < |parts| && PartSteps(parts[k]) > 0 ==>
        LeakFreePart(parts[k]) && forall j :: 0 <= j < k ==> parts[j].skip ==> PartSize(parts[j]) == 0
  }

  predicate LeakFreePart(p: Part)
    decreases p, 0
  {
    LeakFree(p.shape)
  }

  lemma {:induction false} EmptySkips(parts: seq<Part>)
    requires forall j :: 0 <= j < |parts| ==> parts[j].skip ==> PartSize(parts[j]) == 0
    ensures forall i :: 0 <= i < Sizes(parts) ==> Released(parts, i) == Dropped
    decreases |parts|
  {
    if parts != [] {
      EmptySkips(parts[..|parts| - 1]);
      forall i | 0 <= i < Sizes(parts) ensures Released(parts, i) == Dropped {
        if i < Sizes(parts[..|parts| - 1]) {
          assert Released(parts[..|parts| - 1], i) == Dropped;
        }
      }
    }
  }

  lemma {:induction false} NothingStaysLive(s: Shape, n: nat)
    requires LeakFree(s) && n < Steps(s)
    ensures Live !in FailState(s, n)
    decreases s, 0
  {
    match s
    case Leaf =>
    case Node(g, parts) =>
      if n >= PrefixSteps(g) {
        var n' := n - PrefixSteps(g);
        var k := FailingPart(parts, n');
        FailPartsAt(parts, k, n');
        EmptySkips(parts[..k]);
        NothingStaysLiveInPart(parts[k], n' - StepsOf(parts[..k]));
      }
  }

  lemma {:induction false} NothingStaysLiveInPart(p: Part, n: nat)
    requires LeakFreePart(p) && n < PartSteps(p)
    ensures Live !in FailPart(p, n)
    decreases p, 0
  {
    NothingStaysLive(p.shape, n);
  }

  /** When a leak-free type fails to decode, exactly the leaves initialised so far have been dropped
      and the others were never touched. */
  lemma FailureDropsPrefix(s: Shape, n: nat)
    requires LeakFree(s) && n < Steps(s)
    ensures forall i :: 0 <= i < Size(s) ==> FailState(s, n)[i] == if i < Begun(s, n) then Dropped else Uninit
  {
    BegunAreTouched(s, n);
    NothingStaysLive(s, n);
  }

  // Every other type can leak.

  lemma {:induction false} LeafOfSkippedPart(parts: seq<Part>, j: nat)
    requires j < |parts| && parts[j].skip && PartSize(parts[j]) > 0
    ensures Sizes(parts[..j]) < Sizes(parts) && Released(parts, Sizes(parts[..j])) == Live
    decreases |parts|
  {
    var front := parts[..|parts| - 1];
    NextPart(parts, j);
    SizesMonotone(parts, j + 1, |parts|);
    assert parts[..|parts|] == parts;
    if j < |parts| - 1 {
      assert front[..j] == parts[..j];
      LeafOfSkippedPart(front, j);
    }
  }

  /** A type that is not leak-free has a run that leaves a leaf live. */
  lemma {:induction false} SomeFailureLeaks(s: Shape) returns (n: nat)
    requires !LeakFree(s)
    ensures n < Steps(s) && Live in FailState(s, n)
    decreases s, 0
  {
    var parts := s.parts;
    var k: nat :| k < |parts| && PartSteps(parts[k]) > 0
      && !(LeakFreePart(parts[k]) && forall j :: 0 <= j < k ==> parts[j].skip ==> PartSize(parts[j]) == 0);
    if !LeakFreePart(parts[k]) {
      var n' := SomePartFailureLeaks(parts[k]);
      n := PrefixSteps(s.guard) + StepsOf(parts[..k]) + n';
      LeakOfPart(parts, k, n');
    } else {
      var j: nat :| j < k && parts[j].skip && PartSize(parts[j]) != 0;
      n := PrefixSteps(s.guard) + StepsOf(parts[..k]);
      LeakOfDefault(parts, j, k);
    }
  }

  /** A leak in a part is one of the whole. */
  lemma LeakOfPart(parts: seq<Part>, k: nat, n: nat)
    requires k < |parts| && n < PartSteps(parts[k]) && Live in FailPart(parts[k], n)
    ensures StepsOf(parts[..k]) + n < StepsOf(parts) && Live in FailParts(parts, StepsOf(parts[..k]) + n)
  {
    FailPartsAt(parts, k, StepsOf(parts[..k]) + n);
    var i: nat :| i < PartSize(parts[k]) && FailPart(parts[k], n)[i] == Live;
    assert FailParts(parts, StepsOf(parts[..k]) + n)[Sizes(parts[..k]) + i] == Live;
  }

  /** When the first decode of part `k` fails, the default of an earlier part `j` is not dropped. */
  lemma LeakOfDefault(parts: seq<Part>, j: nat, k: nat)
    requires j < k < |parts| && PartSteps(parts[k]) > 0 && parts[j].skip && PartSize(parts[j]) != 0
    ensures StepsOf(parts[..k]) < StepsOf(parts) && Live in FailParts(parts, StepsOf(parts[..k]))
  {
    FailPartsAt(parts, k, StepsOf(parts[..k]));
    assert parts[..k][..j] == parts[..j] && parts[..k][j] == parts[j];
    LeafOfSkippedPart(parts[..k], j);
    assert FailParts(parts, StepsOf(parts[..k]))[Sizes(parts[..j])] == Live;
  }

  lemma {:induction false} SomePartFailureLeaks(p: Part) returns (n: nat)
    requires PartSteps(p) > 0 && !LeakFreePart(p)
    ensures n < PartSteps(p) && Live in FailPart(p, n)
    decreases p, 0
  {
    n := SomeFailureLeaks(p.shape);
  }

  /** No failing run leaves a live leaf behind exactly if the type is leak-free; in particular if
      nothing in it is skipped. */
  lemma FailureLeaksNothingIff(s: Shape)
    ensures (forall n: nat :: n < Steps(s) ==> Live !in FailState(s, n)) <==> LeakFree(s)
  {
    if LeakFree(s) {
      forall n: nat | n < Steps(s) ensures Live !in FailState(s, n) {
        NothingStaysLive(s, n);
      }
    } else {
      var n := SomeFailureLeaks(s);
    }
  }

  predicate NothingSkippedIn(s: Shape)
    decreases s, 0
  {
    match s
    case Leaf => true
    case Node(_, parts) => forall k :: 0 <= k < |parts| ==> !parts[k].skip && NothingSkippedInPart(parts[k])
  }

  predicate NothingSkippedInPart(p: Part)
    decreases p, 0
  {
    NothingSkippedIn(p.shape)
  }

  lemma {:induction false} UnskippedIsLeakFree(s: Shape)
    requires NothingSkippedIn(s)
    ensures LeakFree(s)
    decreases s, 0
  {
    match s
    case Leaf =>
    case Node(_, parts) =>
      forall k | 0 <= k < |parts| ensures LeakFreePart(parts[k]) {
        UnskippedPartIsLeakFree(parts[k]);
      }
  }

  lemma {:induction false} UnskippedPartIsLeakFree(p: Part)
    requires NothingSkippedInPart(p)
    ensures LeakFreePart(p)
    decreases p, 0
  {
    UnskippedIsLeakFree(p.shape);
  }
}
