/** Where the code does not do what one would wish: an input for each condition found. */
module Counterexamples {
  import opened Bytes
  import opened Lz4
  import opened Regions
  import opened Tapes
  import opened Bearer
  import opened Utf8
  import opened Values
  import opened Ownership

  // Compressed sizes.

  const FULL: bytes := seq(REGION_SIZE, i => 0)

  /** A full region that does not compress: its size field wraps around, and the whole stream yields
      nothing but an error. */
  lemma FullRegionIsLost(next: nat, other: nat)
    ensures PADDING.Lawful() && Writable([FULL]) && !Fits(PADDING, [], FULL)
    ensures PullAll(PADDING, None, [], Written(PADDING, None, [FULL]), next, other) == Pullable([], MalformedRegion)
  {
    PaddingIsLawful();
    OneRegion(PADDING, None, FULL);
    FullPacketIsRefused(next);
  }

  lemma OneRegion(p: Platform, seed: Option<nat>, w: bytes)
    requires 0 < |w| <= REGION_SIZE
    ensures Written(p, seed, [w]) == Packet(p, seed, [], w)
  {
    var s := EncState([], [], []);
    assert [w][1..] == [] && [] + w == w;
    assert WriteAll(p, seed, s, [w]) == WriteAll(p, seed, WriteStep(p, seed, s, w), []) == EncState([], w, []);
    assert [] + Packet(p, seed, [], w) == Packet(p, seed, [], w);
  }

  lemma FullPacketIsRefused(cap: nat)
    ensures PullRegion(PADDING, None, [], Packet(PADDING, None, [], FULL), cap) == Err(MalformedRegion)
  {
    PaddingIsLawful();
    var packet := Packet(PADDING, None, [], FULL);
    PacketHeader(PADDING, None, [], FULL, []);
    assert packet + [] == packet;
    assert RegionHeader.FromBytes(packet) == RegionHeader(15, REGION_SIZE, 0);
    assert |packet[HEADER_SIZE..HEADER_SIZE + 15]| == 15;
  }

  // Announced sizes.

  /** A packet of the shifting platform that announces `n` bytes, whatever it holds. */
  function Announcing(n: nat, dict: bytes, raw: bytes): bytes
    requires n < 65536 && |raw| < 65536
  {
    RegionHeader(|raw|, n, 0).IntoBytes() + Shift(Key(dict), raw)
  }

  lemma AnnouncingHeader(n: nat, dict: bytes, raw: bytes, rest: bytes)
    requires n < 65536 && 0 < |raw| < 65536
    ensures var src, size := Announcing(n, dict, raw) + rest, HEADER_SIZE + |raw|;
      && RegionHeader.FromBytes(src) == RegionHeader(|raw|, n, 0)
      && |src| == size + |rest| && src[size..] == rest
      && src[HEADER_SIZE..size] == Shift(Key(dict), raw)
  {
    var header, body := RegionHeader(|raw|, n, 0), Shift(Key(dict), raw);
    PowersOf256();
    HeaderRoundTrip(header, body + rest);
    Associate(header.IntoBytes(), body, rest);
  }

  lemma ShiftedBack(dict: bytes, raw: bytes)
    ensures SHIFTING.inflate(dict, Shift(Key(dict), raw)) == Some(raw)
  {
    assert Shift(-Key(dict), Shift(Key(dict), raw)) == raw;
  }

  /** One byte in a packet that announces none: a new buffer without capacity refuses it, a used one
      takes it. */
  lemma UsedBufferTakesMore()
    ensures var src := Announcing(0, [], [7]);
      && PullAll(SHIFTING, None, [], src, 0, 0) == Pullable([], MalformedRegion)
      && PullAll(SHIFTING, None, [], src, 1, 0) == Pullable([[7]], ReadFailure)
      && !NeverOutgrows(SHIFTING, None, [], src, 0, 0)
  {
    var src := Announcing(0, [], [7]);
    AnnouncingHeader(0, [], [7], []);
    ShiftedBack([], [7]);
    assert src + [] == src;
    assert PullAll(SHIFTING, None, [7], [], 0, 1) == Pullable([], ReadFailure);
    assert [[7]] + [] == [[7]];
  }

  /** Three packets of two, one and two bytes that announce two, one and one. The third outgrows its
      own header, but goes to the buffer for which the first announced enough: no buffer shows it. */
  lemma OutgrowingCanStayHidden()
    ensures var last := Announcing(1, [1], [1, 1]);
      var src := Announcing(2, [], [1, 1]) + (Announcing(1, [1, 1], [1]) + (last + []));
      NeverOutgrows(SHIFTING, None, [], src, 0, 0) && Outgrows(SHIFTING, [1], last + [], 0)
  {
    var last := Announcing(1, [1], [1, 1]) + [];
    AnnouncingHeader(1, [1], [1, 1], []);
    ShiftedBack([1], [1, 1]);
    assert NeverOutgrows(SHIFTING, None, [1, 1], [], 1, 2);
    PacketPassed(1, [1], [1, 1], [], 2, 1);
    PacketPassed(1, [1, 1], [1], last, 0, 2);
    PacketPassed(2, [], [1, 1], Announcing(1, [1, 1], [1]) + last, 0, 0);
  }

  lemma PacketPassed(n: nat, dict: bytes, raw: bytes, rest: bytes, next: nat, other: nat)
    requires n < 65536 && 0 < |raw| < 65536 && |raw| <= Larger(next, n)
    requires NeverOutgrows(SHIFTING, None, raw, rest, other, Larger(next, n))
    ensures NeverOutgrows(SHIFTING, None, dict, Announcing(n, dict, raw) + rest, next, other)
  {
    AnnouncingHeader(n, dict, raw, rest);
    ShiftedBack(dict, raw);
    ShiftingIsLawful();
    var src := Announcing(n, dict, raw) + rest;
    assert PullRegion(SHIFTING, None, dict, src, next)
        == Ok(Pulled(raw, HEADER_SIZE + |raw|, SHIFTING.ReservedCap(0, next, n)));
  }

  // Lengths and tags.

  /** 2^32 units, whose length is written as zero, come back as none. */
  lemma LongVectorComesBackEmpty(e: RegionError)
    ensures var v := List(seq(0x1_0000_0000, i => Unit));
      && Typed(VecT(UnitT), v) && !Countable(VecT(UnitT), v)
      && Writes(VecT(UnitT), v) == [[0, 0, 0, 0]]
      && Values.Decode(VecT(UnitT), Tape([0, 0, 0, 0], [], e)) == Ok(Decoded(List([]), Tape([], [], e)))
  {
    var items := seq(0x1_0000_0000, i => Unit);
    UnitsWriteNothing(items);
    PowersOf256();
    FourZeros();
    var t := Tape([0, 0, 0, 0], [], e);
    assert t.current[..4] == [0, 0, 0, 0] && t.current[4..] == [];
    assert Read(t, LENGTH_WIDTH) == Ok(Reading([0, 0, 0, 0], Tape([], [], e)));
    assert [[0, 0, 0, 0]] + [] == [[0, 0, 0, 0]];
  }

  lemma {:induction false} UnitsWriteNothing(items: seq<Value>)
    requires forall i :: 0 <= i < |items| ==> items[i] == Unit
    ensures TypedList(UnitT, items) && WritesList(UnitT, items) == []
  {
    if items != [] { UnitsWriteNothing(items[1..]); }
  }

  lemma FourZeros()
    ensures ToLe(0x1_0000_0000, 4) == [0, 0, 0, 0] && FromLe([0, 0, 0, 0]) == 0
  {
    assert ToLe(0x100, 1) == [0];
    assert ToLe(0x1_0000, 2) == [0, 0];
    assert ToLe(0x100_0000, 3) == [0, 0, 0];
    assert ToLe(0, 4) == [0, 0, 0, 0] by {
      assert ToLe(0, 1) == [0] && ToLe(0, 2) == [0, 0] && ToLe(0, 3) == [0, 0, 0];
    }
    FromToLe(0, 4);
  }

  const CROWDED: Schema := EnumT(1, seq(257, i => VariantShape([])))

  /** The last of 257 variants under a one-byte tag comes back as the first. */
  lemma LastVariantComesBackAsFirst(e: RegionError)
    ensures var v := Variant(256, []);
      && Typed(CROWDED, v) && !Countable(CROWDED, v) && Writes(CROWDED, v) == [[0]]
      && Values.Decode(CROWDED, Tape([0], [], e)) == Ok(Decoded(Variant(0, []), Tape([], [], e)))
  {
    PowersOf256();
    assert ToLe(256, 1) == [0] + ToLe(1, 0) == [0];
    assert [[0]] + [] == [[0]];
    assert FromLe([0]) == 0 + 256 * FromLe([]);
    assert Read(Tape([0], [], e), 1) == Ok(Reading([0], Tape([], [], e)));
  }

  // Characters.

  /** A surrogate, a number above all code points, and a zero in two bytes. */
  lemma MalformedCharsAreAccepted(e: RegionError)
    ensures FetchChar(Tape([0xED, 0xA0, 0x80], [], e)) == Ok(Decoded(Char(0xD800), Tape([], [], e)))
    ensures FetchChar(Tape([0xF7, 0xBF, 0xBF, 0xBF], [], e)) == Ok(Decoded(Char(0x1FFFFF), Tape([], [], e)))
    ensures FetchChar(Tape([0xC0, 0x80], [], e)) == Ok(Decoded(Char(0), Tape([], [], e)))
    ensures !IsScalar(0xD800) && !IsScalar(0x1FFFFF) && EncodeChar(0) == [0]
  {
    assert [0xED] + [0xA0, 0x80] == [0xED, 0xA0, 0x80];
    assert [0xF7] + [0xBF, 0xBF, 0xBF] == [0xF7, 0xBF, 0xBF, 0xBF];
    assert [0xC0] + [0x80] == [0xC0, 0x80];
    CharIsRead([0xED], [0xA0, 0x80], e);
    CharIsRead([0xF7], [0xBF, 0xBF, 0xBF], e);
    CharIsRead([0xC0], [0x80], e);
    MalformedNumbers();
  }

  lemma MalformedNumbers()
    ensures DecodeChar(0xED, [0xA0, 0x80]) == Some(0xD800)
    ensures DecodeChar(0xF7, [0xBF, 0xBF, 0xBF]) == Some(0x1FFFFF)
    ensures DecodeChar(0xC0, [0x80]) == Some(0)
  {
    AssembledByPlace(0xED, 0xA0, 0x80, 0x80);
    AssembledByPlace(0xF7, 0xBF, 0xBF, 0xBF);
    AssembledByPlace(0xC0, 0x80, 0x80, 0x80);
  }

  lemma CharIsRead(leading: bytes, remaining: bytes, e: RegionError)
    requires |leading| == 1 && Continuation(leading[0]) == Some(|remaining|) && |remaining| > 0
    ensures FetchChar(Tape(leading + remaining, [], e)) ==
      match DecodeChar(leading[0], remaining)
      case None => Err(InvalidPattern)
      case Some(c) => Ok(Decoded(Char(c), Tape([], [], e)))
  {
    var b := leading + remaining;
    assert b[..1] == leading && b[1..] == remaining;
    assert remaining[..|remaining|] == remaining && remaining[|remaining|..] == [];
  }

  // Leaks.

  /** A skipped field and one that fails to decode: the default of the first is never dropped. With
      an empty array in place of the second nothing can fail, and nothing leaks. */
  lemma SkippedFieldLeaks()
    ensures var s := Node(ByStruct, [Part(Leaf, true), Part(Leaf, false)]);
      Steps(s) == 1 && FailState(s, 0) == [Live, Uninit] && !LeakFree(s)
    ensures var s := Node(ByStruct, [Part(Leaf, true), Part(Node(ByArray, []), false)]);
      Steps(s) == 0 && LeakFree(s)
  {
    var kept, empty := Part(Leaf, false), Part(Node(ByArray, []), false);
    var skipped := [Part(Leaf, true)];
    assert skipped[..0] == [] && Sizes(skipped) == 1 && StepsOf(skipped) == 0;
    var parts, parts' := skipped + [kept], skipped + [empty];
    assert parts[..1] == skipped && parts'[..1] == skipped;
    assert parts == [Part(Leaf, true), kept] && parts' == [Part(Leaf, true), empty];
    assert PartSteps(kept) == 1 && PartSteps(empty) == 0;
    assert StepsOf(parts) == 1 && StepsOf(parts') == 0;
    assert AllReleased(skipped) == [Live];
    assert FailParts(parts, 0) == [Live] + FailPart(kept, 0);
    assert PartSteps(parts[1]) > 0 && parts[0].skip && PartSize(parts[0]) == 1;
  }
}
