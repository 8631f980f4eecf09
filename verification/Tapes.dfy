/** The decoder as a machine on values: pulling regions out of arbitrary bytes, and reads that
    never cross a region. */
module Tapes {
  import opened Bytes
  import opened Lz4
  import opened Regions

  /** A region taken from the source: its raw bytes, the source bytes it used and the capacity its
      buffer then has. */
  datatype Pulled = Pulled(raw: bytes, used: nat, cap: nat)

  /** One pull into a buffer of capacity `cap`, the previous region being `dict`. The decompressor
      may fill the whole spare capacity, which can be more than the announced size. */
  function PullRegion(p: Platform, seed: Option<nat>, dict: bytes, src: bytes, cap: nat): Result<Pulled, RegionError> {
    if |src| < HEADER_SIZE then Err(ReadFailure)
    else
      var header := RegionHeader.FromBytes(src);
      var size := HEADER_SIZE + header.compressedSize;
      if |src| < size then Err(InvalidSizeHint)
      else
        var cap' := p.ReservedCap(0, cap, header.allocSize);
        match p.inflate(dict, src[HEADER_SIZE..size])
        case None => Err(MalformedRegion)
        case Some(raw) =>
          if |raw| == 0 || |raw| > cap' then Err(MalformedRegion)
          else if p.Hash(seed, raw) != header.hash then Err(InvalidHash)
          else Ok(Pulled(raw, size, cap'))
  }

  /** Everything that can be pulled before the first error, and that error. */
  datatype Pullable = Pullable(regions: seq<bytes>, end: RegionError)

  /** `next` is the capacity of the buffer filled first and `other` that of the other one; the two
      take turns. */
  function PullAll(p: Platform, seed: Option<nat>, dict: bytes, src: bytes, next: nat, other: nat): Pullable
    decreases |src|
  {
    match PullRegion(p, seed, dict, src, next)
    case Err(e) => Pullable([], e)
    case Ok(r) =>
      var rest := PullAll(p, seed, r.raw, src[r.used..], other, r.cap);
      Pullable([r.raw] + rest.regions, rest.end)
  }

  /** What a decoder can still deliver: the unread bytes of the current region, the regions that
      can be pulled after it, and the error that waits behind them. */
  datatype Tape = Tape(current: bytes, regions: seq<bytes>, end: RegionError)

  datatype Reading = Reading(data: bytes, tape: Tape)

  function Take(t: Tape, n: nat): Result<Reading, RegionError> {
    if n <= |t.current| then Ok(Reading(t.current[..n], t.(current := t.current[n..])))
    else Err(OutOfBounds)
  }

  /** A read: when the current region has too few bytes left they are dropped and the next region
      is pulled. */
  function Read(t: Tape, n: nat): Result<Reading, RegionError> {
    if n <= |t.current| then Take(t, n)
    else if t.regions == [] then Err(t.end)
    else Take(Tape(t.regions[0], t.regions[1..], t.end), n)
  }

  // When a packet can be read back.

  predicate Fits(p: Platform, dict: bytes, raw: bytes) {
    |p.deflate(dict, raw)| <= 65535
  }

  lemma PacketHeader(p: Platform, seed: Option<nat>, dict: bytes, raw: bytes, rest: bytes)
    requires p.Lawful() && 0 < |raw| <= REGION_SIZE
    ensures var src := Packet(p, seed, dict, raw) + rest;
      var body := p.deflate(dict, raw);
      && |src| == HEADER_SIZE + |body| + |rest|
      && RegionHeader.FromBytes(src) == RegionHeader(|body| % 65536, |raw|, p.Hash(seed, raw))
      && src[HEADER_SIZE..] == body + rest
  {
    var body := p.deflate(dict, raw);
    var header := RegionHeader(|body| % 65536, |raw| % 65536, p.Hash(seed, raw));
    PowersOf256();
    HeaderRoundTrip(header, body + rest);
    assert header.IntoBytes() + body + rest == header.IntoBytes() + (body + rest);
  }

  /** A pull from a source that starts with a header and `body`. */
  lemma PullAfterHeader(p: Platform, seed: Option<nat>, dict: bytes, raw: bytes, src: bytes, rest: bytes, cap: nat)
    requires p.Lawful() && 0 < |raw| <= REGION_SIZE
    requires var body := p.deflate(dict, raw);
      && |src| == HEADER_SIZE + |body| + |rest|
      && RegionHeader.FromBytes(src) == RegionHeader(|body| % 65536, |raw|, p.Hash(seed, raw))
      && src[HEADER_SIZE..] == body + rest
    ensures var r := PullRegion(p, seed, dict, src, cap);
      var size := HEADER_SIZE + |p.deflate(dict, raw)|;
      if Fits(p, dict, raw) then r == Ok(Pulled(raw, size, p.ReservedCap(0, cap, |raw|)))
      else r.Ok? ==> r.value.used < size
  {
    var body := p.deflate(dict, raw);
    if Fits(p, dict, raw) {
      assert src[HEADER_SIZE..HEADER_SIZE + |body|] == src[HEADER_SIZE..][..|body|] == body;
    }
  }

  /** Exactly the packets whose compressed body fits the 16-bit size field are pulled back with
      the source left right behind them. */
  lemma PacketPullsBackIffFits(p: Platform, seed: Option<nat>, dict: bytes, raw: bytes, rest: bytes, cap: nat)
    requires p.Lawful() && 0 < |raw| <= REGION_SIZE
    ensures var packet := Packet(p, seed, dict, raw);
      var r := PullRegion(p, seed, dict, packet + rest, cap);
      (r.Ok? && r.value.raw == raw && r.value.used == |packet|) <==> Fits(p, dict, raw)
  {
    PacketHeader(p, seed, dict, raw, rest);
    PullAfterHeader(p, seed, dict, raw, Packet(p, seed, dict, raw) + rest, rest, cap);
  }

  predicate AllFit(p: Platform, dict: bytes, rs: seq<bytes>)
    decreases |rs|
  {
    rs != [] ==> 0 < |rs[0]| <= REGION_SIZE && Fits(p, dict, rs[0]) && AllFit(p, rs[0], rs[1..])
  }

  /** A framed stream pulls back into exactly its regions, whatever capacities the buffers have. */
  lemma {:induction false} FramingPullsBack(
      p: Platform, seed: Option<nat>, dict: bytes, rs: seq<bytes>, next: nat, other: nat)
    requires p.Lawful() && AllFit(p, dict, rs)
    ensures PullAll(p, seed, dict, Framing(p, seed, dict, rs), next, other) == Pullable(rs, ReadFailure)
    decreases |rs|
  {
    if rs != [] {
      var rest := Framing(p, seed, rs[0], rs[1..]);
      var packet := Packet(p, seed, dict, rs[0]);
      PacketPullsBackIffFits(p, seed, dict, rs[0], rest, next);
      assert (packet + rest)[|packet|..] == rest;
      FramingPullsBack(p, seed, rs[0], rs[1..], other, PullRegion(p, seed, dict, packet + rest, next).value.cap);
      assert [rs[0]] + rs[1..] == rs;
    }
  }

  /** Regions no longer than `SAFE_REGION_SIZE` always fit. */
  lemma {:induction false} SafeRegionsFit(p: Platform, dict: bytes, rs: seq<bytes>)
    requires p.Lawful() && forall i :: 0 <= i < |rs| ==> 0 < |rs[i]| <= SAFE_REGION_SIZE
    ensures AllFit(p, dict, rs)
    decreases |rs|
  {
    if rs != [] {
      BoundFitsSixteenBits(|rs[0]|);
      SafeRegionsFit(p, rs[0], rs[1..]);
    }
  }

  // Arbitrary bytes.

  /** Where the packet at `at` ends: behind its 12 header bytes, of which the first two are the
      compressed size, and its body. */
  function PacketEnd(src: bytes, at: nat): nat
    requires at + 12 <= |src|
  {
    at + 12 + src[at] as int + 256 * src[at + 1] as int
  }

  /** The integer in the hash field of the packet at `at` is XXH64 of `raw` under the seed, and zero
      without a seed. */
  predicate NamesHash(p: Platform, seed: Option<nat>, src: bytes, at: nat, raw: bytes)
    requires at + 12 <= |src|
  {
    FromLe(src[at + 4..at + 12]) == match seed case None => 0 case Some(s) => p.xxh64(s, raw)
  }

  /** There is a whole packet at `at`, it inflates under `dict` to `raw`, and its hash is the one
      its header names. */
  predicate HoldsRegion(p: Platform, seed: Option<nat>, src: bytes, at: nat, dict: bytes, raw: bytes) {
    && at + 12 <= |src| && PacketEnd(src, at) <= |src|
    && p.inflate(dict, src[at + 12..PacketEnd(src, at)]) == Some(raw)
    && raw != []
    && NamesHash(p, seed, src, at, raw)
  }

  /** The bytes from `at` on are refused with `e`, told by the bytes: too few for a header, too few
      for the body, a body that does not inflate to something within the capacity, or a hash that
      is not the one named. A body can only be too long if it is longer than announced. */
  predicate Refused(p: Platform, seed: Option<nat>, src: bytes, at: nat, dict: bytes, e: RegionError) {
    && at <= |src|
    && if |src| < at + 12 then e == ReadFailure
       else if |src| < PacketEnd(src, at) then e == InvalidSizeHint
       else
         var inflated := p.inflate(dict, src[at + 12..PacketEnd(src, at)]);
         var announced := src[at + 2] as int + 256 * src[at + 3] as int;
         match e
         case MalformedRegion => inflated == None || inflated == Some([]) || |inflated.value| > announced
         case InvalidHash =>
           inflated.Some? && inflated.value != [] && !NamesHash(p, seed, src, at, inflated.value)
         case _ => false
  }

  /** From `at` to `stop`, `src` consists of packets that hold `regions`, each chained to the one
      before it. Every packet ends 12 + compressed size behind its beginning, so that `stop` is `at`
      and the sum of these. */
  predicate Consecutive(p: Platform, seed: Option<nat>, src: bytes, at: nat, stop: nat, dict: bytes,
                        regions: seq<bytes>)
    decreases |regions|
  {
    if regions == [] then at == stop <= |src|
    else
      && HoldsRegion(p, seed, src, at, dict, regions[0])
      && Consecutive(p, seed, src, PacketEnd(src, at), stop, regions[0], regions[1..])
  }

  /** `all` is what `src` holds from its front on: consecutive verified packets, and behind them, at
      `stop`, something that is refused for the reason `all.end`. */
  predicate Genuine(p: Platform, seed: Option<nat>, src: bytes, dict: bytes, all: Pullable, stop: nat) {
    && Consecutive(p, seed, src, 0, stop, dict, all.regions)
    && Refused(p, seed, src, stop, LastOr(dict, all.regions), all.end)
  }

  lemma {:induction false} ConsecutiveSnoc(p: Platform, seed: Option<nat>, src: bytes, at: nat, stop: nat,
                                           dict: bytes, regions: seq<bytes>, raw: bytes)
    requires Consecutive(p, seed, src, at, stop, dict, regions)
    requires HoldsRegion(p, seed, src, stop, LastOr(dict, regions), raw)
    ensures Consecutive(p, seed, src, at, PacketEnd(src, stop), dict, regions + [raw])
    decreases |regions|
  {
    var all := regions + [raw];
    if regions == [] {
      assert all[0] == raw && all[1..] == [];
    } else {
      ConsecutiveSnoc(p, seed, src, PacketEnd(src, at), stop, regions[0], regions[1..], raw);
      assert all[0] == regions[0] && all[1..] == regions[1..] + [raw];
    }
  }

  /** The header of the packet at `at`, byte by byte. */
  lemma HeaderAt(src: bytes, at: nat)
    requires at + 12 <= |src|
    ensures var h := RegionHeader.FromBytes(src[at..]);
      && at + HEADER_SIZE + h.compressedSize == PacketEnd(src, at)
      && h.allocSize == src[at + 2] as int + 256 * src[at + 3] as int
      && h.hash == FromLe(src[at + 4..at + 12])
  {
    var b := src[at..];
    assert b[..2] == [src[at], src[at + 1]] && b[2..4] == [src[at + 2], src[at + 3]];
    assert b[4..12] == src[at + 4..at + 12];
    TwoBytes(src[at], src[at + 1]);
    TwoBytes(src[at + 2], src[at + 3]);
  }

  lemma TwoBytes(a: byte, b: byte)
    ensures FromLe([a, b]) == a as int + 256 * b as int
  {
    assert [a, b][1..] == [b];
    assert FromLe([b]) == b as int + 256 * FromLe([b][1..]);
  }

  /** An accepted pull takes a packet whose bytes end where the source is left. */
  lemma PulledRegionIsHeld(p: Platform, seed: Option<nat>, dict: bytes, src: bytes, at: nat, cap: nat)
    requires at <= |src| && PullRegion(p, seed, dict, src[at..], cap).Ok?
    ensures var r := PullRegion(p, seed, dict, src[at..], cap).value;
      && HoldsRegion(p, seed, src, at, dict, r.raw) && PacketEnd(src, at) == at + r.used
      && src[at..][r.used..] == src[at + r.used..]
  {
    var r := PullRegion(p, seed, dict, src[at..], cap).value;
    HeaderAt(src, at);
    assert src[at..][HEADER_SIZE..r.used] == src[at + HEADER_SIZE..at + r.used];
  }

  /** A refused pull is refused for a reason that the bytes show. */
  lemma PullIsRefused(p: Platform, seed: Option<nat>, dict: bytes, src: bytes, at: nat, cap: nat)
    requires p.Lawful() && at <= |src| && PullRegion(p, seed, dict, src[at..], cap).Err?
    ensures Refused(p, seed, src, at, dict, PullRegion(p, seed, dict, src[at..], cap).error)
  {
    if at + 12 <= |src| {
      HeaderAt(src, at);
      var end := PacketEnd(src, at);
      if end <= |src| {
        assert src[at..][HEADER_SIZE..end - at] == src[at + HEADER_SIZE..end];
      }
    }
  }

  lemma ConsecutiveCons(p: Platform, seed: Option<nat>, src: bytes, at: nat, stop: nat, dict: bytes,
                        raw: bytes, regions: seq<bytes>)
    requires HoldsRegion(p, seed, src, at, dict, raw)
    requires Consecutive(p, seed, src, PacketEnd(src, at), stop, raw, regions)
    ensures Consecutive(p, seed, src, at, stop, dict, [raw] + regions)
    ensures LastOr(dict, [raw] + regions) == LastOr(raw, regions)
  {
    var all := [raw] + regions;
    assert all[0] == raw && all[1..] == regions;
  }

  /** What arbitrary bytes can yield: consecutive packets from the front of the source, each
      verified against its header and chained to its predecessor, up to a packet that is refused
      for the reason reported. */
  lemma PulledRegionsAreGenuine(p: Platform, seed: Option<nat>, dict: bytes, src: bytes, next: nat, other: nat)
    returns (stop: nat)
    requires p.Lawful()
    ensures Genuine(p, seed, src, dict, PullAll(p, seed, dict, src, next, other), stop)
  {
    assert src[0..] == src;
    stop := PullsFromHere(p, seed, dict, src, 0, next, other);
  }

  lemma PulledBefore(p: Platform, seed: Option<nat>, dict: bytes, src: bytes, at: nat, next: nat, other: nat)
    returns (r: Pulled, rest: Pullable)
    requires at <= |src| && PullRegion(p, seed, dict, src[at..], next).Ok?
    ensures HoldsRegion(p, seed, src, at, dict, r.raw)
    ensures rest == PullAll(p, seed, r.raw, src[PacketEnd(src, at)..], other, r.cap)
    ensures PullAll(p, seed, dict, src[at..], next, other) == Pullable([r.raw] + rest.regions, rest.end)
  {
    PulledRegionIsHeld(p, seed, dict, src, at, next);
    r := PullRegion(p, seed, dict, src[at..], next).value;
    rest := PullAll(p, seed, r.raw, src[at + r.used..], other, r.cap);
  }

  lemma {:induction false} PullsFromHere(
      p: Platform, seed: Option<nat>, dict: bytes, src: bytes, at: nat, next: nat, other: nat)
    returns (stop: nat)
    requires p.Lawful() && at <= |src|
    ensures var all := PullAll(p, seed, dict, src[at..], next, other);
      && Consecutive(p, seed, src, at, stop, dict, all.regions)
      && Refused(p, seed, src, stop, LastOr(dict, all.regions), all.end)
    decreases |src| - at
  {
    if PullRegion(p, seed, dict, src[at..], next).Err? {
      stop := at;
      PullIsRefused(p, seed, dict, src, at, next);
    } else {
      var r, rest := PulledBefore(p, seed, dict, src, at, next, other);
      stop := PullsFromHere(p, seed, r.raw, src, PacketEnd(src, at), other, r.cap);
      ConsecutiveCons(p, seed, src, at, stop, dict, r.raw, rest.regions);
    }
  }

  // The errors of a pull, told by the bytes.

  /** Packets written under one seed and read under another, or none: they are accepted exactly if
      both give the same hash, and refused for their hash otherwise. */
  lemma OtherSeedIsNoticedIff(p: Platform, seed: Option<nat>, seed': Option<nat>, dict: bytes, raw: bytes,
                              rest: bytes, cap: nat)
    requires p.Lawful() && 0 < |raw| <= REGION_SIZE && Fits(p, dict, raw)
    ensures var h := match seed case None => 0 case Some(s) => p.xxh64(s, raw);
      var h' := match seed' case None => 0 case Some(s) => p.xxh64(s, raw);
      var packet := Packet(p, seed, dict, raw);
      PullRegion(p, seed', dict, packet + rest, cap) ==
        if h == h' then Ok(Pulled(raw, |packet|, p.ReservedCap(0, cap, |raw|))) else Err(InvalidHash)
  {
    var src := Packet(p, seed, dict, raw) + rest;
    PacketHeader(p, seed, dict, raw, rest);
    PacketNamesHash(p, if seed.Some? then seed.value else 0, dict, raw);
    HeaderAt(src, 0);
    assert src[0..] == src;
    assert src[4..12] == Packet(p, seed, dict, raw)[4..12];
    PullAfterHeader(p, seed, dict, raw, src, rest, cap);
    var r := PullRegion(p, seed', dict, src, cap);
    if r.Ok? {
      PulledRegionIsHeld(p, seed', dict, src, 0, cap);
    } else {
      PullIsRefused(p, seed', dict, src, 0, cap);
    }
  }

  /** A packet cut short is refused for want of a header, or for its size. */
  lemma CutPacketIsRefused(p: Platform, seed: Option<nat>, seed': Option<nat>, dict: bytes, raw: bytes,
                           k: nat, cap: nat)
    requires p.Lawful() && 0 < |raw| <= REGION_SIZE && Fits(p, dict, raw)
    requires k < |Packet(p, seed, dict, raw)|
    ensures PullRegion(p, seed', dict, Packet(p, seed, dict, raw)[..k], cap)
         == Err(if k < 12 then ReadFailure else InvalidSizeHint)
  {
    if k >= 12 {
      var packet := Packet(p, seed, dict, raw);
      PacketHeader(p, seed, dict, raw, []);
      assert packet + [] == packet;
      HeaderIsTheFirstBytes(packet);
      HeaderIsTheFirstBytes(packet[..k]);
      assert packet[..k][..HEADER_SIZE] == packet[..HEADER_SIZE];
    }
  }

  lemma FramingPrefix(p: Platform, seed: Option<nat>, dict: bytes, rs: seq<bytes>, j: nat)
    requires rs != [] && j <= |rs| - 1
    ensures |Framing(p, seed, dict, rs[..j + 1])|
         == |Packet(p, seed, dict, rs[0])| + |Framing(p, seed, rs[0], rs[1..][..j])|
  {
    assert rs[..j + 1] == [rs[0]] + rs[1..][..j];
    FramingCons(p, seed, dict, rs[0], rs[1..][..j]);
  }

  lemma PullsOverPacket(p: Platform, seed: Option<nat>, dict: bytes, raw: bytes, rest: bytes, next: nat, other: nat)
    returns (cap: nat)
    requires p.Lawful() && 0 < |raw| <= REGION_SIZE && Fits(p, dict, raw)
    ensures var later := PullAll(p, seed, raw, rest, other, cap);
      PullAll(p, seed, dict, Packet(p, seed, dict, raw) + rest, next, other)
      == Pullable([raw] + later.regions, later.end)
  {
    var packet := Packet(p, seed, dict, raw);
    PacketPullsBackIffFits(p, seed, dict, raw, rest, next);
    assert (packet + rest)[|packet|..] == rest;
    cap := PullRegion(p, seed, dict, packet + rest, next).value.cap;
  }

  lemma NothingWhole(p: Platform, seed: Option<nat>, dict: bytes, raw: bytes, rest: bytes, k: nat, next: nat, other: nat)
    requires p.Lawful() && 0 < |raw| <= REGION_SIZE && Fits(p, dict, raw) && k < |Packet(p, seed, dict, raw)|
    ensures PullAll(p, seed, dict, (Packet(p, seed, dict, raw) + rest)[..k], next, other)
         == Pullable([], if k < 12 then ReadFailure else InvalidSizeHint)
  {
    CutPacketIsRefused(p, seed, seed, dict, raw, k, next);
    assert (Packet(p, seed, dict, raw) + rest)[..k] == Packet(p, seed, dict, raw)[..k];
  }

  /** The first `j` regions are whole within the first `k` bytes of the framing of `rs`, and no
      more. */
  predicate WholeWithin(p: Platform, seed: Option<nat>, dict: bytes, rs: seq<bytes>, k: nat, j: nat) {
    && j <= |rs| && |Framing(p, seed, dict, rs[..j])| <= k
    && (j < |rs| ==> k < |Framing(p, seed, dict, rs[..j + 1])|)
  }

  function CutShort(left: int): RegionError {
    if left < 12 then ReadFailure else InvalidSizeHint
  }

  lemma OneMoreWhole(p: Platform, seed: Option<nat>, dict: bytes, rs: seq<bytes>, k: nat, j: nat)
    requires rs != [] && |Packet(p, seed, dict, rs[0])| <= k
    requires WholeWithin(p, seed, rs[0], rs[1..], k - |Packet(p, seed, dict, rs[0])|, j)
    ensures WholeWithin(p, seed, dict, rs, k, j + 1) && rs[..j + 1] == [rs[0]] + rs[1..][..j]
    ensures |Framing(p, seed, dict, rs[..j + 1])|
         == |Packet(p, seed, dict, rs[0])| + |Framing(p, seed, rs[0], rs[1..][..j])|
  {
    hide Packet, Framing;
    FramingPrefix(p, seed, dict, rs, j);
    if j + 1 < |rs| { FramingPrefix(p, seed, dict, rs, j + 1); }
    assert rs[..j + 1] == [rs[0]] + rs[1..][..j];
  }

  /** A stream cut short at any point yields exactly the regions whose packets are complete, and then
      says whether the next packet lacks its header or its body. */
  lemma {:induction false} CutStreamYieldsWholeRegions(
      p: Platform, seed: Option<nat>, dict: bytes, rs: seq<bytes>, k: nat, next: nat, other: nat) returns (j: nat)
    requires p.Lawful() && AllFit(p, dict, rs) && k <= |Framing(p, seed, dict, rs)|
    ensures WholeWithin(p, seed, dict, rs, k, j)
    ensures PullAll(p, seed, dict, Framing(p, seed, dict, rs)[..k], next, other)
         == Pullable(rs[..j], CutShort(k - |Framing(p, seed, dict, rs[..j])|))
    decreases |rs|
  {
    NoRegions(p, seed, dict);
    if rs == [] {
      j := 0;
      assert PullAll(p, seed, dict, [], next, other) == Pullable([], ReadFailure);
    } else {
      var packet, rest := Packet(p, seed, dict, rs[0]), Framing(p, seed, rs[0], rs[1..]);
      var front := Framing(p, seed, dict, rs)[..k];
      FramingPrefix(p, seed, dict, rs, 0);
      NoRegions(p, seed, rs[0]);
      assert front == (packet + rest)[..k];
      assert Fits(p, dict, rs[0]) && AllFit(p, rs[0], rs[1..]) && 0 < |rs[0]| <= REGION_SIZE;
      hide PullAll, Packet, Framing, Fits, AllFit;
      if k < |packet| {
        j := 0;
        NothingWhole(p, seed, dict, rs[0], rest, k, next, other);
        assert rs[..0] == [] && rs[..1][0] == rs[0];
        assert PullAll(p, seed, dict, front, next, other) == Pullable(rs[..0], CutShort(k));
      } else {
        var cut := rest[..k - |packet|];
        assert front == packet + cut;
        var cap := PullsOverPacket(p, seed, dict, rs[0], cut, next, other);
        j := CutStreamYieldsWholeRegions(p, seed, rs[0], rs[1..], k - |packet|, other, cap);
        OneMoreWhole(p, seed, dict, rs, k, j);
        j := j + 1;
        assert PullAll(p, seed, dict, front, next, other)
            == Pullable(rs[..j], CutShort(k - |Framing(p, seed, dict, rs[..j])|));
      }
    }
  }

  lemma NoRegions(p: Platform, seed: Option<nat>, dict: bytes)
    ensures Framing(p, seed, dict, []) == []
  {
  }

  /** A whole packet whose body does not inflate, or inflates to nothing, is malformed whatever its
      hash. */
  lemma BadBodyIsMalformed(p: Platform, seed: Option<nat>, dict: bytes, src: bytes, cap: nat)
    requires |src| >= 12 && PacketEnd(src, 0) <= |src|
    requires var inflated := p.inflate(dict, src[12..PacketEnd(src, 0)]); inflated == None || inflated == Some([])
    ensures PullRegion(p, seed, dict, src, cap) == Err(MalformedRegion)
  {
    HeaderAt(src, 0);
    assert src[0..] == src;
  }

  // Does the history of a reused buffer show? Only through its capacity.

  /** A packet that inflates to more than its header announces and to more than `low` bytes. */
  predicate Outgrows(p: Platform, dict: bytes, src: bytes, low: nat) {
    && |src| >= HEADER_SIZE
    && var header := RegionHeader.FromBytes(src);
      var size := HEADER_SIZE + header.compressedSize;
      && |src| >= size
      && var raw := p.inflate(dict, src[HEADER_SIZE..size]);
        raw.Some? && |raw.value| > Larger(low, header.allocSize)
  }

  function Larger(a: nat, b: nat): nat {
    if a < b then b else a
  }

  predicate SameOutcome(a: Result<Pulled, RegionError>, b: Result<Pulled, RegionError>) {
    match (a, b)
    case (Ok(r), Ok(s)) => r.raw == s.raw && r.used == s.used
    case (Err(e), Err(f)) => e == f
    case _ => false
  }

  /** The outcome of a pull is independent of the capacity it starts with, all capacities from `low`
      on considered, exactly when the packet does not outgrow `low` and its announced size. */
  lemma PullIgnoresCapacityIff(p: Platform, seed: Option<nat>, dict: bytes, src: bytes, low: nat)
    requires p.Lawful()
    ensures (forall a, b :: a >= low && b >= low ==>
              SameOutcome(PullRegion(p, seed, dict, src, a), PullRegion(p, seed, dict, src, b)))
        <==> !Outgrows(p, dict, src, low)
  {
    if Outgrows(p, dict, src, low) {
      var a, b := CapacitiesTellApart(p, seed, dict, src, low);
      assert !SameOutcome(PullRegion(p, seed, dict, src, a), PullRegion(p, seed, dict, src, b));
    }
  }

  /** The capacity that is just announced, or known, refuses an outgrowing packet as malformed; one
      that holds all of it does not. */
  lemma CapacitiesTellApart(p: Platform, seed: Option<nat>, dict: bytes, src: bytes, low: nat)
    returns (a: nat, b: nat)
    requires Outgrows(p, dict, src, low)
    ensures low <= a < b && PullRegion(p, seed, dict, src, a) == Err(MalformedRegion)
    ensures PullRegion(p, seed, dict, src, b) != Err(MalformedRegion)
  {
    var header := RegionHeader.FromBytes(src);
    a := Larger(low, header.allocSize);
    b := |p.inflate(dict, src[HEADER_SIZE..HEADER_SIZE + header.compressedSize]).value|;
  }

  /** No packet inflates to more than the largest size announced so far, by its own header or an
      earlier one, for the buffer it goes to. `next` and `other` are these sizes of the buffer that
      is filled next and of the other one. */
  predicate NeverOutgrows(p: Platform, seed: Option<nat>, dict: bytes, src: bytes, next: nat, other: nat)
    decreases |src|
  {
    && !Outgrows(p, dict, src, next)
    && match PullRegion(p, seed, dict, src, next)
      case Err(_) => true
      case Ok(r) =>
        NeverOutgrows(p, seed, r.raw, src[r.used..], other, Larger(next, RegionHeader.FromBytes(src).allocSize))
  }

  /** A decoder over a reused buffer, whatever capacities it was left with, gets the same regions and
      the same error as one over a new buffer, exactly if the source never outgrows what it
      announces. */
  lemma BufferHistoryIsInvisibleIff(p: Platform, seed: Option<nat>, src: bytes)
    requires p.Lawful()
    ensures (forall a, a', b, b' :: PullAll(p, seed, [], src, a, a') == PullAll(p, seed, [], src, b, b'))
        <==> NeverOutgrows(p, seed, [], src, 0, 0)
  {
    if NeverOutgrows(p, seed, [], src, 0, 0) {
      forall a: nat, a': nat, b: nat, b': nat
        ensures PullAll(p, seed, [], src, a, a') == PullAll(p, seed, [], src, b, b')
      {
        LargeBuffersAgree(p, seed, [], src, 0, 0, a, a', b, b');
      }
    } else {
      var a, a', b, b' := BuffersTellApart(p, seed, [], src, 0, 0);
    }
  }

  lemma {:induction false} LargeBuffersAgree(p: Platform, seed: Option<nat>, dict: bytes, src: bytes,
      next: nat, other: nat, a: nat, a': nat, b: nat, b': nat)
    requires p.Lawful() && NeverOutgrows(p, seed, dict, src, next, other)
    requires a >= next && a' >= other && b >= next && b' >= other
    ensures PullAll(p, seed, dict, src, a, a') == PullAll(p, seed, dict, src, b, b')
    decreases |src|
  {
    PullIgnoresCapacityIff(p, seed, dict, src, next);
    var x, y := PullRegion(p, seed, dict, src, a), PullRegion(p, seed, dict, src, b);
    assert SameOutcome(x, y) && SameOutcome(x, PullRegion(p, seed, dict, src, next));
    if x.Ok? {
      LargeBuffersAgree(p, seed, x.value.raw, src[x.value.used..],
        other, Larger(next, RegionHeader.FromBytes(src).allocSize), a', x.value.cap, b', y.value.cap);
    }
  }

  lemma {:induction false} BuffersTellApart(p: Platform, seed: Option<nat>, dict: bytes, src: bytes,
      next: nat, other: nat) returns (a: nat, a': nat, b: nat, b': nat)
    requires p.Lawful() && !NeverOutgrows(p, seed, dict, src, next, other)
    ensures a >= next && a' >= other && b >= next && b' >= other
    ensures PullAll(p, seed, dict, src, a, a') != PullAll(p, seed, dict, src, b, b')
    decreases |src|
  {
    if Outgrows(p, dict, src, next) {
      a, b := CapacitiesTellApart(p, seed, dict, src, next);
      a', b' := other, other;
    } else {
      var r := PullRegion(p, seed, dict, src, next).value;
      var low := Larger(next, RegionHeader.FromBytes(src).allocSize);
      a', a, b', b := BuffersTellApart(p, seed, r.raw, src[r.used..], other, low);
      SameNext(p, seed, dict, src, a, a', next);
      SameNext(p, seed, dict, src, b, b', next);
      StillDiffer(r.raw, PullAll(p, seed, r.raw, src[r.used..], a', a), PullAll(p, seed, r.raw, src[r.used..], b', b));
    }
  }

  lemma StillDiffer(raw: bytes, x: Pullable, y: Pullable)
    requires x != y
    ensures Pullable([raw] + x.regions, x.end) != Pullable([raw] + y.regions, y.end)
  {
    assert ([raw] + x.regions)[1..] == x.regions && ([raw] + y.regions)[1..] == y.regions;
  }

  /** A buffer that holds the announced size already is not reallocated. */
  lemma SameNext(p: Platform, seed: Option<nat>, dict: bytes, src: bytes, a: nat, a': nat, low: nat)
    requires p.Lawful() && PullRegion(p, seed, dict, src, low).Ok? && !Outgrows(p, dict, src, low)
    requires a >= Larger(low, RegionHeader.FromBytes(src).allocSize)
    ensures var r := PullRegion(p, seed, dict, src, low).value;
      var rest := PullAll(p, seed, r.raw, src[r.used..], a', a);
      PullAll(p, seed, dict, src, a, a') == Pullable([r.raw] + rest.regions, rest.end)
  {
    PullIgnoresCapacityIff(p, seed, dict, src, low);
  }
}
