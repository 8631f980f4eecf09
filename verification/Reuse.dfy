/** Encoders over region buffers that were used before: when does their output show it? */
module Reuse {
  import opened Bytes
  import opened Lz4
  import opened Regions
  import opened Tapes

  /** What a run of writes and a final flush make of the destination. */
  function Output(p: Platform, seed: Option<nat>, s: EncState, ws: seq<bytes>): bytes {
    Emit(p, seed, WriteAll(p, seed, s, ws)).out
  }

  lemma {:induction false} StandbyStaysOut(pending: bytes, ws: seq<bytes>, standby: bytes)
    requires Group(pending, ws).closed == []
    ensures Group(pending, ws, standby) == Group(pending, ws)
    decreases |ws|
  {
    if ws == [] {
      assert Group(pending, ws) == Grouping([], pending);
    } else {
      StandbyStaysOut(pending + ws[0], ws[1..], standby);
    }
  }

  lemma RegionBytes(g: Grouping)
    ensures |Concat(g.closed + (if g.open == [] then [] else [g.open]))| == |Concat(g.closed)| + |g.open|
  {
    ConcatAppend(g.closed, if g.open == [] then [] else [g.open]);
    assert [g.open][1..] == [];
  }

  lemma SameOutputSameRegions(p: Platform, seed: Option<nat>, out: bytes, rs: seq<bytes>, rs': seq<bytes>)
    requires p.Lawful() && AllFit(p, [], rs) && AllFit(p, [], rs')
    requires out + Framing(p, seed, [], rs) == out + Framing(p, seed, [], rs')
    ensures rs == rs'
  {
    var a, b := Framing(p, seed, [], rs), Framing(p, seed, [], rs');
    assert (out + a)[|out|..] == a && (out + b)[|out|..] == b;
    FramingPullsBack(p, seed, [], rs, 0, 0);
    FramingPullsBack(p, seed, [], rs', 0, 0);
  }

  /** Run by run: an encoder over a used buffer writes what one over a new buffer writes exactly if
      no bytes are pending in the buffer and its other side is empty or never comes to bear, the run
      switching no region before its flush. */
  lemma ReuseIsInvisibleIff(
      p: Platform, seed: Option<nat>, pending: bytes, standby: bytes, out: bytes, ws: seq<bytes>)
    requires p.Lawful() && Writable(ws)
    requires AllFit(p, [], GroupRegions(pending, ws, standby)) && AllFit(p, [], GroupRegions([], ws))
    ensures Output(p, seed, EncState([], pending, out, standby), ws) == Output(p, seed, EncState([], [], out), ws)
        <==> pending == [] && (standby == [] || Group([], ws).closed == [])
  {
    var s, s' := EncState([], pending, out, standby), EncState([], [], out);
    FlushedRunIsFraming(p, seed, s, ws);
    FlushedRunIsFraming(p, seed, s', ws);
    if Output(p, seed, s, ws) == Output(p, seed, s', ws) {
      SameOutputSameRegions(p, seed, out, GroupRegions(pending, ws, standby), GroupRegions([], ws));
      RegionBytes(Group(pending, ws, standby));
      RegionBytes(Group([], ws));
      StandbyComesIn(pending, ws, standby);
      StandbyComesIn([], ws, []);
    } else if pending == [] && Group([], ws).closed == [] {
      StandbyStaysOut([], ws, standby);
    }
  }

  /** On all runs together: only an empty buffer is as good as a new one. */
  lemma ReuseIsAlwaysInvisibleIff(p: Platform, seed: Option<nat>, pending: bytes, standby: bytes, out: bytes)
    requires p.Lawful() && |standby| + REGION_SIZE <= MAX_INPUT_SIZE
    ensures (forall ws :: Writable(ws) ==>
              Output(p, seed, EncState([], pending, out, standby), ws) == Output(p, seed, EncState([], [], out), ws))
        <==> pending == [] && standby == []
  {
    if pending != [] {
      PendingShows(p, seed, pending, standby, out);
    } else if standby != [] {
      StandbyShows(p, seed, standby, out);
    }
  }

  lemma PendingShows(p: Platform, seed: Option<nat>, pending: bytes, standby: bytes, out: bytes)
    requires pending != []
    ensures Writable([])
    ensures Output(p, seed, EncState([], pending, out, standby), []) != Output(p, seed, EncState([], [], out), [])
  {
    assert |Output(p, seed, EncState([], pending, out, standby), [])| > |out|;
  }

  lemma PacketsDiffer(p: Platform, seed: Option<nat>, dict: bytes, a: bytes, b: bytes)
    requires p.Lawful() && 0 < |a| <= MAX_INPUT_SIZE && 0 < |b| <= MAX_INPUT_SIZE && a != b
    ensures Packet(p, seed, dict, a) != Packet(p, seed, dict, b)
  {
    assert p.deflate(dict, a) != p.deflate(dict, b) by {
      assert p.inflate(dict, p.deflate(dict, a)) == Some(a);
    }
    assert Packet(p, seed, dict, a)[HEADER_SIZE..] == p.deflate(dict, a);
    assert Packet(p, seed, dict, b)[HEADER_SIZE..] == p.deflate(dict, b);
  }

  /** One byte and then as many as a region holds switch regions once, and the second region differs. */
  lemma StandbyShows(p: Platform, seed: Option<nat>, standby: bytes, out: bytes)
    requires p.Lawful() && standby != [] && |standby| + REGION_SIZE <= MAX_INPUT_SIZE
    ensures var ws := [[0], seq(REGION_SIZE, i => 0)];
      && Writable(ws)
      && Output(p, seed, EncState([], [], out, standby), ws) != Output(p, seed, EncState([], [], out), ws)
  {
    var w: bytes, v: bytes := [0], seq(REGION_SIZE, i => 0);
    var ws := [w, v];
    TwoRegions(p, seed, w, v, standby, out);
    TwoRegions(p, seed, w, v, [], out);
    var first := out + Packet(p, seed, [], w);
    assert [] + v == v;
    PacketsDiffer(p, seed, w, standby + v, v);
    assert (first + Packet(p, seed, w, standby + v))[|first|..] == Packet(p, seed, w, standby + v);
    assert (first + Packet(p, seed, w, v))[|first|..] == Packet(p, seed, w, v);
  }

  lemma TwoRegions(p: Platform, seed: Option<nat>, w: bytes, v: bytes, standby: bytes, out: bytes)
    requires 0 < |w| <= REGION_SIZE && |v| <= REGION_SIZE < |w| + |v|
    ensures Output(p, seed, EncState([], [], out, standby), [w, v])
         == out + Packet(p, seed, [], w) + Packet(p, seed, w, standby + v)
  {
    var s, s' := EncState([], [], out, standby), EncState([], w, out, standby);
    var s'' := EncState(w, standby + v, out + Packet(p, seed, [], w));
    assert [w, v][1..] == [v] && [v][1..] == [] && [] + w == w;
    assert WriteStep(p, seed, s, w) == s' && WriteStep(p, seed, s', v) == s'';
    assert WriteAll(p, seed, s'', []) == s'';
    assert WriteAll(p, seed, s', [v]) == WriteAll(p, seed, s'', [v][1..]);
    assert WriteAll(p, seed, s, [w, v]) == WriteAll(p, seed, s', [w, v][1..]);
  }
}
