/** The region format and the encoder as a machine on values: header, framing, greedy writes. */
module Regions {
  import opened Bytes
  import opened Lz4

  const REGION_SIZE: nat := 65535
  const HEADER_SIZE: nat := 12

  datatype RegionError =
    | ReadFailure
    | InvalidSizeHint
    | MalformedRegion
    | InvalidHash
    | OutOfBounds

  datatype RegionHeader = RegionHeader(compressedSize: nat, allocSize: nat, hash: nat) {
    /** The field widths: two 16-bit sizes and a 64-bit hash. */
    predicate InRange() {
      compressedSize < Pow256(2) && allocSize < Pow256(2) && hash < Pow256(8)
    }

    function IntoBytes(): (b: bytes)
      ensures |b| == HEADER_SIZE
    {
      ToLe(compressedSize, 2) + ToLe(allocSize, 2) + ToLe(hash, 8)
    }

    static function FromBytes(b: bytes): RegionHeader
      requires |b| >= HEADER_SIZE
    {
      RegionHeader(FromLe(b[..2]), FromLe(b[2..4]), FromLe(b[4..12]))
    }
  }

  lemma HeaderRoundTrip(h: RegionHeader, body: bytes)
    requires h.InRange()
    ensures RegionHeader.FromBytes(h.IntoBytes() + body) == h
  {
    var b := h.IntoBytes() + body;
    assert b[..2] == ToLe(h.compressedSize, 2);
    assert b[2..4] == ToLe(h.allocSize, 2);
    assert b[4..12] == ToLe(h.hash, 8);
    FromToLe(h.compressedSize, 2);
    FromToLe(h.allocSize, 2);
    FromToLe(h.hash, 8);
  }

  lemma HeaderBytesRoundTrip(b: bytes)
    requires |b| >= HEADER_SIZE
    ensures RegionHeader.FromBytes(b).InRange()
    ensures RegionHeader.FromBytes(b).IntoBytes() == b[..HEADER_SIZE]
  {
    ToFromLe(b[..2]);
    ToFromLe(b[2..4]);
    ToFromLe(b[4..12]);
    assert b[..2] + b[2..4] + b[4..12] == b[..12];
  }

  /** The layout of the specification: compressed size, raw size and hash, each least significant
      byte first. */
  lemma HeaderLayout(h: RegionHeader)
    requires h.InRange()
    ensures var b := h.IntoBytes();
      && b[0] as int + 256 * b[1] as int == h.compressedSize
      && b[2] as int + 256 * b[3] as int == h.allocSize
      && FromLe(b[4..]) == h.hash
  {
    var b := h.IntoBytes();
    PowersOf256();
    assert ToLe(h.compressedSize, 2) == [h.compressedSize % 256] + ToLe(h.compressedSize / 256, 1);
    assert ToLe(h.allocSize, 2) == [h.allocSize % 256] + ToLe(h.allocSize / 256, 1);
    assert b[4..] == ToLe(h.hash, 8);
    FromToLe(h.hash, 8);
  }

  lemma HeaderIsTheFirstBytes(src: bytes)
    requires |src| >= HEADER_SIZE
    ensures RegionHeader.FromBytes(src[..HEADER_SIZE]) == RegionHeader.FromBytes(src)
  {
    var head := src[..HEADER_SIZE];
    assert head[..2] == src[..2] && head[2..4] == src[2..4] && head[4..12] == src[4..12];
  }

  /** One encoded region. The sizes are stored `as u16`, so they wrap at 65536. */
  function Packet(p: Platform, seed: Option<nat>, dict: bytes, raw: bytes): bytes {
    var body := p.deflate(dict, raw);
    RegionHeader(|body| % 65536, |raw| % 65536, p.Hash(seed, raw)).IntoBytes() + body
  }

  /** Under a seed the hash field of a region is XXH64 of its raw bytes, without one it is zero. */
  lemma PacketNamesHash(p: Platform, s: nat, dict: bytes, raw: bytes)
    requires p.Lawful()
    ensures FromLe(Packet(p, Some(s), dict, raw)[4..12]) == p.xxh64(s, raw)
    ensures FromLe(Packet(p, None, dict, raw)[4..12]) == 0
  {
    PowersOf256();
    FromToLe(p.xxh64(s, raw), 8);
    FromToLe(0, 8);
    assert Packet(p, Some(s), dict, raw)[4..12] == ToLe(p.xxh64(s, raw), 8);
    assert Packet(p, None, dict, raw)[4..12] == ToLe(0, 8);
  }

  /** A region stream: each region is compressed with its predecessor as dictionary. */
  function Framing(p: Platform, seed: Option<nat>, dict: bytes, regions: seq<bytes>): bytes
    decreases |regions|
  {
    if regions == [] then []
    else Packet(p, seed, dict, regions[0]) + Framing(p, seed, regions[0], regions[1..])
  }

  function LastOr(dict: bytes, regions: seq<bytes>): bytes {
    if regions == [] then dict else regions[|regions| - 1]
  }

  lemma {:induction false} FramingAppend(p: Platform, seed: Option<nat>, dict: bytes, a: seq<bytes>, b: seq<bytes>)
    ensures Framing(p, seed, dict, a + b)
         == Framing(p, seed, dict, a) + Framing(p, seed, LastOr(dict, a), b)
    decreases |a|
  {
    if a == [] {
      assert a + b == b;
    } else {
      assert (a + b)[1..] == a[1..] + b;
      FramingAppend(p, seed, a[0], a[1..], b);
    }
  }

  // The encoder as a machine. `dict` is what the compressor remembers, `pending` the bytes gathered
  // for the next region, `out` the destination and `standby` what the other side of the buffer pair
  // holds: nothing, unless the buffer comes from a decoder.

  datatype EncState = EncState(dict: bytes, pending: bytes, out: bytes, standby: bytes := [])

  function Emit(p: Platform, seed: Option<nat>, s: EncState): EncState {
    if s.pending == [] then s
    else EncState(s.pending, [], s.out + Packet(p, seed, s.dict, s.pending), s.standby)
  }

  /** When the bytes do not fit they go behind whatever the other side holds. */
  function WriteStep(p: Platform, seed: Option<nat>, s: EncState, w: bytes): EncState {
    if REGION_SIZE - |s.pending| < |w| then
      var s' := Emit(p, seed, s);
      EncState(s'.dict, s'.standby + w, s'.out, s'.pending)
    else s.(pending := s.pending + w)
  }

  function WriteAll(p: Platform, seed: Option<nat>, s: EncState, ws: seq<bytes>): EncState
    decreases |ws|
  {
    if ws == [] then s else WriteAll(p, seed, WriteStep(p, seed, s, ws[0]), ws[1..])
  }

  lemma {:induction false} WriteAllAppend(p: Platform, seed: Option<nat>, s: EncState, a: seq<bytes>, b: seq<bytes>)
    ensures WriteAll(p, seed, s, a + b) == WriteAll(p, seed, WriteAll(p, seed, s, a), b)
    decreases |a|
  {
    if a == [] {
      assert a + b == b;
    } else {
      assert (a + b)[1..] == a[1..] + b;
      WriteAllAppend(p, seed, WriteStep(p, seed, s, a[0]), a[1..], b);
    }
  }

  lemma WriteAllSnoc(p: Platform, seed: Option<nat>, s: EncState, a: seq<bytes>, w: bytes)
    ensures WriteAll(p, seed, s, a + [w]) == WriteStep(p, seed, WriteAll(p, seed, s, a), w)
  {
    WriteAllAppend(p, seed, s, a, [w]);
    assert [w][1..] == [];
  }

  // Greedy grouping on its own, without compression or a destination.

  /** `closed` are the regions completed while writing, `open` the bytes still gathered. */
  datatype Grouping = Grouping(closed: seq<bytes>, open: bytes)

  function Group(pending: bytes, ws: seq<bytes>, standby: bytes := []): Grouping
    decreases |ws|
  {
    if ws == [] then Grouping([], pending)
    else if pending != [] && |pending| + |ws[0]| > REGION_SIZE then
      var g := Group(standby + ws[0], ws[1..]);
      Grouping([pending] + g.closed, g.open)
    else
      Group(pending + ws[0], ws[1..], standby)
  }

  /** The regions of a stream that is written and then flushed. */
  function GroupRegions(pending: bytes, ws: seq<bytes>, standby: bytes := []): seq<bytes> {
    var g := Group(pending, ws, standby);
    g.closed + (if g.open == [] then [] else [g.open])
  }

  predicate Writable(ws: seq<bytes>) {
    forall i :: 0 <= i < |ws| ==> |ws[i]| <= REGION_SIZE
  }

  lemma FramingCons(p: Platform, seed: Option<nat>, dict: bytes, r: bytes, rs: seq<bytes>)
    ensures Framing(p, seed, dict, [r] + rs) == Packet(p, seed, dict, r) + Framing(p, seed, r, rs)
  {
    assert ([r] + rs)[1..] == rs;
  }

  lemma FramingSnoc(p: Platform, seed: Option<nat>, dict: bytes, rs: seq<bytes>, r: bytes)
    ensures Framing(p, seed, dict, rs + [r]) == Framing(p, seed, dict, rs) + Packet(p, seed, LastOr(dict, rs), r)
  {
    FramingAppend(p, seed, dict, rs, [r]);
    assert [r] == [r] + [];
    FramingCons(p, seed, LastOr(dict, rs), r, []);
    var packet := Packet(p, seed, LastOr(dict, rs), r);
    assert packet + [] == packet;
  }

  /** The state a run reaches, told by the grouping alone. */
  function Reached(p: Platform, seed: Option<nat>, s: EncState, g: Grouping): EncState {
    EncState(LastOr(s.dict, g.closed), g.open, s.out + Framing(p, seed, s.dict, g.closed),
             if g.closed == [] then s.standby else [])
  }

  lemma ReachedAfterEmit(p: Platform, seed: Option<nat>, s: EncState, w: bytes, g: Grouping)
    requires s.pending != []
    ensures Reached(p, seed, EncState(s.pending, w, s.out + Packet(p, seed, s.dict, s.pending)), g)
         == Reached(p, seed, s, Grouping([s.pending] + g.closed, g.open))
  {
    FramingCons(p, seed, s.dict, s.pending, g.closed);
    var pk := Packet(p, seed, s.dict, s.pending);
    Associate(s.out, pk, Framing(p, seed, s.pending, g.closed));
  }

  /** At every step of a run the destination holds the framing of the regions closed so far, the
      compressor remembers the last of them, and the open region holds the rest of what was
      written. */
  lemma {:induction false} WriteAllRefinesGrouping(p: Platform, seed: Option<nat>, s: EncState, ws: seq<bytes>)
    requires Writable(ws)
    ensures WriteAll(p, seed, s, ws) == Reached(p, seed, s, Group(s.pending, ws, s.standby))
    decreases |ws|
  {
    if ws == [] {
      assert s.out + [] == s.out;
    } else {
      var s' := WriteStep(p, seed, s, ws[0]);
      WriteAllRefinesGrouping(p, seed, s', ws[1..]);
      if s.pending != [] && |s.pending| + |ws[0]| > REGION_SIZE {
        ReachedAfterEmit(p, seed, s, s.standby + ws[0], Group(s.standby + ws[0], ws[1..]));
      }
    }
  }

  /** Refinement: after any run of writes and a final flush, the destination is its old content
      followed by the framing of the greedy grouping of the writes. */
  lemma FlushedRunIsFraming(p: Platform, seed: Option<nat>, s: EncState, ws: seq<bytes>)
    requires Writable(ws)
    ensures Emit(p, seed, WriteAll(p, seed, s, ws)).out
         == s.out + Framing(p, seed, s.dict, GroupRegions(s.pending, ws, s.standby))
  {
    WriteAllRefinesGrouping(p, seed, s, ws);
    var g := Group(s.pending, ws, s.standby);
    if g.open != [] {
      FramingSnoc(p, seed, s.dict, g.closed, g.open);
      Associate(s.out, Framing(p, seed, s.dict, g.closed), Packet(p, seed, LastOr(s.dict, g.closed), g.open));
    } else {
      assert g.closed + [] == g.closed;
    }
  }

  /** Nothing is lost, invented or reordered: closed regions and open bytes together are exactly
      what was pending plus what was written. */
  lemma {:induction false} GroupingConserves(pending: bytes, ws: seq<bytes>)
    ensures Concat(Group(pending, ws).closed) + Group(pending, ws).open == pending + Concat(ws)
    decreases |ws|
  {
    if ws == [] {
      assert [] + pending == pending + [];
    } else if pending != [] && |pending| + |ws[0]| > REGION_SIZE {
      assert [] + ws[0] == ws[0];
      GroupingConserves(ws[0], ws[1..]);
      var g := Group(ws[0], ws[1..]);
      assert ([pending] + g.closed)[1..] == g.closed;
    } else {
      GroupingConserves(pending + ws[0], ws[1..]);
    }
  }

  /** Bytes on the other side of the buffer come in with the first switch, and never otherwise. */
  lemma {:induction false} StandbyComesIn(pending: bytes, ws: seq<bytes>, standby: bytes)
    ensures var g, h := Group(pending, ws, standby), Group(pending, ws);
      && (g.closed == [] <==> h.closed == [])
      && |Concat(g.closed)| + |g.open|
         == |pending| + |Concat(ws)| + (if g.closed == [] then 0 else |standby|)
    decreases |ws|
  {
    if ws == [] {
    } else if pending != [] && |pending| + |ws[0]| > REGION_SIZE {
      GroupingConserves(standby + ws[0], ws[1..]);
      var g := Group(standby + ws[0], ws[1..]);
      assert |Concat(g.closed) + g.open| == |standby + ws[0] + Concat(ws[1..])|;
      assert ([pending] + g.closed)[1..] == g.closed;
    } else {
      StandbyComesIn(pending + ws[0], ws[1..], standby);
    }
  }
}
