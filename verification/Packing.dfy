/** How well the greedy grouping packs, and how large a stream can become. */
module Packing {
  import opened Bytes
  import opened Lz4
  import opened Regions

  /** Regions are non-empty and within the size limit, and no two neighbours would have fitted
      into one region. */
  predicate Packed(rs: seq<bytes>) {
    && (forall i :: 0 <= i < |rs| ==> 0 < |rs[i]| <= REGION_SIZE)
    && (forall i :: 0 <= i < |rs| - 1 ==> |rs[i]| + |rs[i + 1]| > REGION_SIZE)
  }

  lemma {:induction false} GroupStartsWithPending(pending: bytes, ws: seq<bytes>)
    requires pending != []
    ensures var rs := GroupRegions(pending, ws); rs != [] && |pending| <= |rs[0]|
    decreases |ws|
  {
    if ws != [] && |pending| + |ws[0]| <= REGION_SIZE {
      GroupStartsWithPending(pending + ws[0], ws[1..]);
    }
  }

  lemma {:induction false} GreedyRegionsArePacked(pending: bytes, ws: seq<bytes>)
    requires |pending| <= REGION_SIZE && Writable(ws)
    ensures Packed(GroupRegions(pending, ws))
    decreases |ws|
  {
    if ws != [] {
      if pending != [] && |pending| + |ws[0]| > REGION_SIZE {
        assert [] + ws[0] == ws[0];
        GreedyRegionsArePacked(ws[0], ws[1..]);
        GroupStartsWithPending(ws[0], ws[1..]);
        assert GroupRegions(pending, ws) == [pending] + GroupRegions(ws[0], ws[1..]);
      } else {
        GreedyRegionsArePacked(pending + ws[0], ws[1..]);
      }
    }
  }

  lemma GreedyRegionsConserve(ws: seq<bytes>)
    ensures Concat(GroupRegions([], ws)) == Concat(ws)
  {
    GroupingConserves([], ws);
    var g := Group([], ws);
    if g.open == [] {
      assert g.closed + [] == g.closed && Concat(g.closed) + [] == Concat(g.closed);
    } else {
      ConcatAppend(g.closed, [g.open]);
      assert Concat([g.open]) == g.open + Concat([]) == g.open;
    }
    assert [] + Concat(ws) == Concat(ws);
  }

  /** A stream of `T` raw bytes has at most `2 * (T / 65536) + 1` regions. */
  lemma {:induction false} PackedRegionCount(rs: seq<bytes>)
    requires Packed(rs)
    ensures |rs| <= 2 * (|Concat(rs)| / 65536) + 1
    decreases |rs|
  {
    if |rs| >= 2 {
      var rest := rs[2..];
      assert rs[1..][1..] == rest;
      assert Concat(rs) == rs[0] + (rs[1] + Concat(rest));
      assert forall i :: 0 <= i < |rest| ==> rest[i] == rs[i + 2];
      PackedRegionCount(rest);
    }
  }

  // Greedy grouping against every other way to put whole writes into regions.

  /** The grouping that closes the open region before exactly those writes marked in `cuts`. */
  function GroupBy(pending: bytes, ws: seq<bytes>, cuts: seq<bool>): Grouping
    requires |cuts| == |ws|
    decreases |ws|
  {
    if ws == [] then Grouping([], pending)
    else if cuts[0] then
      var g := GroupBy(ws[0], ws[1..], cuts[1..]);
      Grouping([pending] + g.closed, g.open)
    else GroupBy(pending + ws[0], ws[1..], cuts[1..])
  }

  predicate Legal(g: Grouping) {
    |g.open| <= REGION_SIZE && forall i :: 0 <= i < |g.closed| ==> |g.closed[i]| <= REGION_SIZE
  }

  lemma {:induction false} OpenRegionOnlyGrows(pending: bytes, ws: seq<bytes>, cuts: seq<bool>)
    requires |cuts| == |ws| && Legal(GroupBy(pending, ws, cuts))
    ensures |pending| <= REGION_SIZE
    decreases |ws|
  {
    if ws != [] {
      if cuts[0] {
        var g := GroupBy(ws[0], ws[1..], cuts[1..]);
        assert ([pending] + g.closed)[0] == pending;
      } else {
        OpenRegionOnlyGrows(pending + ws[0], ws[1..], cuts[1..]);
      }
    }
  }

  lemma LegalTail(first: bytes, g: Grouping)
    requires Legal(Grouping([first] + g.closed, g.open))
    ensures Legal(g) && |first| <= REGION_SIZE
  {
    var all := [first] + g.closed;
    assert all[0] == first;
    assert forall i :: 0 <= i < |g.closed| ==> g.closed[i] == all[i + 1];
  }

  /** A greedy run that is `ahead` regions in front of another legal run, or level with it with no
      more bytes gathered, stays so to the end. */
  lemma {:induction false} GreedyStaysAhead(mine: bytes, other: bytes, ahead: nat, ws: seq<bytes>, cuts: seq<bool>)
    requires Writable(ws) && |cuts| == |ws| && |mine| <= REGION_SIZE
    requires ahead > 0 || |mine| <= |other|
    requires Legal(GroupBy(other, ws, cuts))
    ensures var g, h := Group(mine, ws), GroupBy(other, ws, cuts);
      |g.closed| < ahead + |h.closed| || (|g.closed| == ahead + |h.closed| && |g.open| <= |h.open|)
    decreases |ws|
  {
    if ws != [] {
      var w, ws', cuts' := ws[0], ws[1..], cuts[1..];
      var closes := mine != [] && |mine| + |w| > REGION_SIZE;
      var mine' := if closes then w else mine + w;
      var other' := if cuts[0] then w else other + w;
      if cuts[0] {
        LegalTail(other, GroupBy(w, ws', cuts'));
      } else {
        OpenRegionOnlyGrows(other', ws', cuts');
      }
      var ahead' := ahead + (if cuts[0] then 1 else 0) - (if closes then 1 else 0);
      assert [] + w == w;
      GreedyStaysAhead(mine', other', ahead', ws', cuts');
    }
  }

  /** Greedy grouping makes the fewest regions of all groupings that never split a write. */
  lemma GreedyIsFewest(ws: seq<bytes>, cuts: seq<bool>)
    requires Writable(ws) && |cuts| == |ws|
    requires Legal(GroupBy([], ws, cuts))
    ensures var h := GroupBy([], ws, cuts);
      |GroupRegions([], ws)| <= |h.closed| + (if h.open == [] then 0 else 1)
  {
    GreedyStaysAhead([], [], 0, ws, cuts);
  }

  // Encoded size.

  lemma PacketSize(p: Platform, seed: Option<nat>, dict: bytes, raw: bytes)
    requires p.Lawful() && 0 < |raw| <= REGION_SIZE
    ensures HEADER_SIZE < |Packet(p, seed, dict, raw)| <= HEADER_SIZE + CompressBound(|raw|)
  {
  }

  /** However early the regions were switched, compression and headers cost at most one byte in
      255 and 28 bytes a region. */
  lemma {:induction false} FramingSize(p: Platform, seed: Option<nat>, dict: bytes, rs: seq<bytes>)
    requires p.Lawful() && forall i :: 0 <= i < |rs| ==> 0 < |rs[i]| <= REGION_SIZE
    ensures |Framing(p, seed, dict, rs)| <= |Concat(rs)| + |Concat(rs)| / 255 + 28 * |rs|
    decreases |rs|
  {
    if rs == [] {
      assert Framing(p, seed, dict, rs) == [];
    } else {
      PacketSize(p, seed, dict, rs[0]);
      FramingSize(p, seed, rs[0], rs[1..]);
    }
  }

  /** The size of a flushed stream, from the total size of the writes alone. */
  lemma StreamSize(p: Platform, seed: Option<nat>, ws: seq<bytes>)
    requires p.Lawful() && Writable(ws)
    ensures var total := |Concat(ws)|;
      |Framing(p, seed, [], GroupRegions([], ws))| <= total + total / 255 + 28 * (2 * (total / 65536) + 1)
  {
    var rs := GroupRegions([], ws);
    GreedyRegionsArePacked([], ws);
    GreedyRegionsConserve(ws);
    PackedRegionCount(rs);
    FramingSize(p, seed, [], rs);
  }

  /** `max_encoded_size`, with `div_ceil` written out. */
  function MaxEncodedSize(size: nat): nat {
    var full := size / REGION_SIZE;
    full * CompressBound(REGION_SIZE)
    + CompressBound(size - full * REGION_SIZE)
    + (size + REGION_SIZE - 1) / REGION_SIZE * HEADER_SIZE
  }

  /** Its value: 65808 bytes for every full region, one byte in 255 and 16 for what is left over, and
      12 for every header. */
  lemma MaxEncodedSizeValue(n: nat, last: nat)
    requires last < 65535
    ensures MaxEncodedSize(n * 65535 + last)
         == n * 65808 + (last + last / 255 + 16) + 12 * (n + if last == 0 then 0 else 1)
  {
    var size := n * 65535 + last;
    assert size / 65535 == n && size - n * 65535 == last;
    assert (size + 65534) / 65535 == n + if last == 0 then 0 else 1;
  }

  predicate AllButLastFull(rs: seq<bytes>) {
    && (forall i :: 0 <= i < |rs| ==> 0 < |rs[i]| <= REGION_SIZE)
    && (forall i :: 0 <= i < |rs| - 1 ==> |rs[i]| == REGION_SIZE)
  }

  /** Sizes of a stream whose regions are full except for a last one of `last` bytes. */
  lemma {:induction false} FullRegionsSize(p: Platform, seed: Option<nat>, dict: bytes, rs: seq<bytes>)
    requires p.Lawful() && AllButLastFull(rs) && rs != []
    ensures var last := |rs[|rs| - 1]|;
      && |Concat(rs)| == (|rs| - 1) * 65535 + last
      && |Framing(p, seed, dict, rs)| <= (|rs| - 1) * 65820 + CompressBound(last) + HEADER_SIZE
    decreases |rs|
  {
    PacketSize(p, seed, dict, rs[0]);
    if |rs| == 1 {
      assert rs == [rs[0]] && rs[1..] == [];
    } else {
      FullRegionsSize(p, seed, rs[0], rs[1..]);
    }
  }

  /** The region counts of `max_encoded_size` when `n` full regions precede one of `last` bytes. */
  lemma FullRegionArithmetic(n: nat, last: nat, total: nat)
    requires 0 < last <= 65535 && total == n * 65535 + last
    ensures (total + 65534) / 65535 == n + 1
    ensures total / 65535 == if last == 65535 then n + 1 else n
  {
  }

  /** `max_encoded_size` bounds every stream of full regions with one shorter region at the end. */
  lemma MaxEncodedSizeBoundsFullRegions(p: Platform, seed: Option<nat>, rs: seq<bytes>)
    requires p.Lawful() && AllButLastFull(rs)
    ensures |Framing(p, seed, [], rs)| <= MaxEncodedSize(|Concat(rs)|)
  {
    if rs != [] {
      FullRegionsSize(p, seed, [], rs);
      FullRegionsFit(|rs| - 1, |rs[|rs| - 1]|);
    }
  }

  lemma FullRegionsFit(n: nat, last: nat)
    requires 0 < last <= 65535
    ensures n * 65820 + CompressBound(last) + HEADER_SIZE <= MaxEncodedSize(n * 65535 + last)
  {
    FullRegionArithmetic(n, last, n * 65535 + last);
    assert CompressBound(REGION_SIZE) == 65808;
  }

  lemma {:induction false} SmallWritesFillRegions(pending: bytes, ws: seq<bytes>)
    requires |pending| <= REGION_SIZE && forall i :: 0 <= i < |ws| ==> |ws[i]| <= 1
    ensures AllButLastFull(GroupRegions(pending, ws))
    decreases |ws|
  {
    if ws != [] {
      if pending != [] && |pending| + |ws[0]| > REGION_SIZE {
        assert [] + ws[0] == ws[0];
        SmallWritesFillRegions(ws[0], ws[1..]);
        assert GroupRegions(pending, ws) == [pending] + GroupRegions(ws[0], ws[1..]);
      } else {
        SmallWritesFillRegions(pending + ws[0], ws[1..]);
      }
    }
  }

  /** `max_encoded_size` bounds every stream that was written byte by byte. */
  lemma BytewiseStreamSize(p: Platform, seed: Option<nat>, ws: seq<bytes>)
    requires p.Lawful() && forall i :: 0 <= i < |ws| ==> |ws[i]| <= 1
    ensures |Framing(p, seed, [], GroupRegions([], ws))| <= MaxEncodedSize(|Concat(ws)|)
  {
    SmallWritesFillRegions([], ws);
    GreedyRegionsConserve(ws);
    MaxEncodedSizeBoundsFullRegions(p, seed, GroupRegions([], ws));
  }
}
