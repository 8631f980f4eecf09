/** The law of the two bearers: what is written in pieces is read back in pieces, wherever the
    region boundaries fall. */
module Bearer {
  import opened Bytes
  import opened Lz4
  import opened Regions
  import opened Tapes

  /** The tape holds exactly the writes `ws`, none of them split over two regions. */
  predicate Aligned(current: bytes, regions: seq<bytes>, ws: seq<bytes>)
    decreases |ws| + |regions|
  {
    if ws != [] && ws[0] <= current then Aligned(current[|ws[0]|..], regions, ws[1..])
    else if current != [] || regions == [] then ws == [] && current == []
    else ws != [] && |ws[0]| <= |regions[0]| && Aligned(regions[0], regions[1..], ws)
  }

  predicate OnTape(t: Tape, ws: seq<bytes>) {
    Aligned(t.current, t.regions, ws)
  }

  /** Reading the first piece of the next write returns it and leaves the rest of that write, and
      all later writes, on the tape. */
  lemma ReadPiece(t: Tape, piece: bytes, rest: bytes, ws: seq<bytes>)
    requires OnTape(t, [piece + rest] + ws)
    ensures var r := Read(t, |piece|);
      r.Ok? && r.value.data == piece && OnTape(r.value.tape, [rest] + ws) && r.value.tape.end == t.end
  {
    var w := piece + rest;
    var all := [w] + ws;
    assert all[0] == w && all[1..] == ws;
    assert ([rest] + ws)[0] == rest && ([rest] + ws)[1..] == ws;
    if w <= t.current {
      PieceOfCurrent(t, piece, rest, ws);
    } else {
      assert t.current == [] && t.regions != [];
      var t' := Tape(t.regions[0], t.regions[1..], t.end);
      assert Aligned(t'.current, t'.regions, all);
      assert w <= t'.current;
      PieceOfCurrent(t', piece, rest, ws);
    }
  }

  lemma PieceOfCurrent(t: Tape, piece: bytes, rest: bytes, ws: seq<bytes>)
    requires piece + rest <= t.current && Aligned(t.current[|piece + rest|..], t.regions, ws)
    ensures t.current[..|piece|] == piece
    ensures Aligned(t.current[|piece|..], t.regions, [rest] + ws)
  {
    var tail := t.current[|piece|..];
    assert t.current[..|piece|] == piece;
    assert rest <= tail && tail[|rest|..] == t.current[|piece + rest|..];
    assert ([rest] + ws)[0] == rest && ([rest] + ws)[1..] == ws;
  }

  /** A tape that holds `ws` consists of exactly their bytes. */
  lemma {:induction false} AlignedConserves(current: bytes, regions: seq<bytes>, ws: seq<bytes>)
    requires Aligned(current, regions, ws)
    ensures current + Concat(regions) == Concat(ws)
    decreases |ws| + |regions|
  {
    if ws != [] && ws[0] <= current {
      AlignedConserves(current[|ws[0]|..], regions, ws[1..]);
      assert current == ws[0] + current[|ws[0]|..];
    } else if current == [] && regions != [] {
      AlignedConserves(regions[0], regions[1..], ws);
    }
  }

  /** Any writes lie on a tape of a single region that is just their bytes. */
  lemma {:induction false} FlatAligns(ws: seq<bytes>)
    ensures Aligned(Concat(ws), [], ws)
    decreases |ws|
  {
    if ws != [] {
      FlatAligns(ws[1..]);
      assert Concat(ws)[|ws[0]|..] == Concat(ws[1..]);
    }
  }

  // Reading a whole run.

  /** Reads one length after another and collects what they return. */
  function ReadAll(t: Tape, lens: seq<nat>): Result<(seq<bytes>, Tape), RegionError>
    decreases |lens|
  {
    if lens == [] then Ok(([], t))
    else match Read(t, lens[0])
      case Err(e) => Err(e)
      case Ok(r) => match ReadAll(r.tape, lens[1..])
        case Err(e) => Err(e)
        case Ok((data, t')) => Ok(([r.data] + data, t'))
  }

  function Lengths(pieces: seq<bytes>): seq<nat> {
    seq(|pieces|, i requires 0 <= i < |pieces| => |pieces[i]|)
  }

  lemma ReadAllCons(t: Tape, piece: bytes, pieces: seq<bytes>)
    ensures ReadAll(t, Lengths([piece] + pieces)) ==
      match Read(t, |piece|)
      case Err(e) => Err(e)
      case Ok(r) => match ReadAll(r.tape, Lengths(pieces))
        case Err(e) => Err(e)
        case Ok((data, t')) => Ok(([r.data] + data, t'))
  {
    var lens := Lengths([piece] + pieces);
    assert lens[0] == |piece| && lens[1..] == Lengths(pieces);
  }

  function Flatten(cuts: seq<seq<bytes>>): seq<bytes> {
    if cuts == [] then [] else cuts[0] + Flatten(cuts[1..])
  }

  function Joined(cuts: seq<seq<bytes>>): seq<bytes> {
    if cuts == [] then [] else [Concat(cuts[0])] + Joined(cuts[1..])
  }

  /** Round trip of the bearers on a tape: however each write is cut into consecutive reads, the
      reads return exactly those pieces, in order, and leave the later writes to be read. */
  lemma {:induction false} CutsReadBack(t: Tape, cuts: seq<seq<bytes>>, more: seq<bytes>)
    requires OnTape(t, Joined(cuts) + more)
    ensures var r := ReadAll(t, Lengths(Flatten(cuts)));
      r.Ok? && r.value.0 == Flatten(cuts) && OnTape(r.value.1, more)
    decreases |cuts|, if cuts == [] then 0 else |cuts[0]|
  {
    if cuts == [] {
      assert [] + more == more;
    } else if cuts[0] == [] {
      assert Joined(cuts) + more == [[]] + (Joined(cuts[1..]) + more);
      SkipEmptyWrite(t, Joined(cuts[1..]) + more);
      CutsReadBack(t, cuts[1..], more);
      assert Flatten(cuts) == Flatten(cuts[1..]);
    } else {
      var piece, cuts' := cuts[0][0], [cuts[0][1..]] + cuts[1..];
      var rest, later := Concat(cuts[0][1..]), Joined(cuts[1..]) + more;
      CutOff(cuts);
      Associate([piece + rest], Joined(cuts[1..]), more);
      Associate([rest], Joined(cuts[1..]), more);
      ReadPiece(t, piece, rest, later);
      CutsReadBack(Read(t, |piece|).value.tape, cuts', more);
      ReadAllCons(t, piece, Flatten(cuts'));
    }
  }

  /** Taking the first piece off the first write. */
  lemma CutOff(cuts: seq<seq<bytes>>)
    requires cuts != [] && cuts[0] != []
    ensures var piece, rest := cuts[0][0], Concat(cuts[0][1..]);
      var cuts' := [cuts[0][1..]] + cuts[1..];
      && Joined(cuts) == [piece + rest] + Joined(cuts[1..])
      && Joined(cuts') == [rest] + Joined(cuts[1..])
      && Flatten(cuts) == [piece] + Flatten(cuts')
  {
    var cuts' := [cuts[0][1..]] + cuts[1..];
    assert cuts'[1..] == cuts[1..];
    assert cuts[0] == [cuts[0][0]] + cuts[0][1..];
    Associate([cuts[0][0]], cuts[0][1..], Flatten(cuts[1..]));
  }

  lemma SkipEmptyWrite(t: Tape, ws: seq<bytes>)
    requires OnTape(t, [[]] + ws)
    ensures OnTape(t, ws)
  {
    var all := [[]] + ws;
    assert all[0] == [] && all[1..] == ws;
    assert t.current[0..] == t.current;
  }

  // Reads on arbitrary tapes.

  /** A position in a stream of regions. */
  datatype Place = Place(region: nat, offset: nat)

  /** `n` bytes at `a` end no later than `b`, or in an earlier region. */
  predicate EndsBefore(a: Place, n: nat, b: Place) {
    a.region < b.region || (a.region == b.region && a.offset + n <= b.offset)
  }

  predicate LiesAt(d: bytes, regions: seq<bytes>, a: Place) {
    && a.region < |regions| && a.offset + |d| <= |regions[a.region]|
    && regions[a.region][a.offset..a.offset + |d|] == d
  }

  /** Each piece is a contiguous part of a single region, and the pieces follow one another without
      overlapping. */
  predicate LieInOrder(pieces: seq<bytes>, regions: seq<bytes>, places: seq<Place>) {
    && |places| == |pieces|
    && (forall j :: 0 <= j < |pieces| ==> LiesAt(pieces[j], regions, places[j]))
    && (forall j, k :: 0 <= j < k < |pieces| ==> EndsBefore(places[j], |pieces[j]|, places[k]))
  }

  /** Where a run of reads finds its pieces when the current region is unread from `at` on. */
  function Places(t: Tape, lens: seq<nat>, at: Place): seq<Place>
    decreases |lens|
  {
    if lens == [] || Read(t, lens[0]).Err? then []
    else
      var here := if lens[0] <= |t.current| then at else Place(at.region + 1, 0);
      [here] + Places(Read(t, lens[0]).value.tape, lens[1..], here.(offset := here.offset + lens[0]))
  }

  /** `regions` continue at `at` with what the tape holds. */
  predicate Continues(regions: seq<bytes>, at: Place, t: Tape) {
    && at.region < |regions| && at.offset <= |regions[at.region]|
    && regions[at.region][at.offset..] == t.current
    && regions[at.region + 1..] == t.regions
  }

  lemma ReadFindsPiece(regions: seq<bytes>, at: Place, t: Tape, n: nat)
    requires Continues(regions, at, t) && Read(t, n).Ok?
    ensures var here := if n <= |t.current| then at else Place(at.region + 1, 0);
      && LiesAt(Read(t, n).value.data, regions, here)
      && Continues(regions, here.(offset := here.offset + n), Read(t, n).value.tape)
  {
    var here := if n <= |t.current| then at else Place(at.region + 1, 0);
    var region := regions[here.region];
    assert t.regions != [] ==> t.regions[0] == regions[at.region + 1] && t.regions[1..] == regions[at.region + 2..];
    assert region[here.offset..][..n] == region[here.offset..here.offset + n];
    assert region[here.offset..][n..] == region[here.offset + n..];
  }

  lemma LieInOrderCons(d: bytes, here: Place, regions: seq<bytes>, pieces: seq<bytes>, places: seq<Place>)
    requires LiesAt(d, regions, here) && LieInOrder(pieces, regions, places)
    requires forall k :: 0 <= k < |places| ==> EndsBefore(here, |d|, places[k])
    ensures LieInOrder([d] + pieces, regions, [here] + places)
  {
  }

  lemma {:induction false} PlacesFollow(t: Tape, lens: seq<nat>, at: Place, k: nat)
    requires k < |Places(t, lens, at)|
    ensures EndsBefore(at, 0, Places(t, lens, at)[k])
    decreases |lens|
  {
    var here := if lens[0] <= |t.current| then at else Place(at.region + 1, 0);
    if k > 0 {
      PlacesFollow(Read(t, lens[0]).value.tape, lens[1..], here.(offset := here.offset + lens[0]), k - 1);
    }
  }

  lemma FirstRead(t: Tape, lens: seq<nat>, at: Place) returns (d: bytes, t': Tape, here: Place)
    requires lens != [] && ReadAll(t, lens).Ok?
    ensures here == if lens[0] <= |t.current| then at else Place(at.region + 1, 0)
    ensures |d| == lens[0] && Read(t, lens[0]) == Ok(Reading(d, t')) && ReadAll(t', lens[1..]).Ok?
    ensures ReadAll(t, lens).value.0 == [d] + ReadAll(t', lens[1..]).value.0
    ensures Places(t, lens, at) == [here] + Places(t', lens[1..], here.(offset := here.offset + |d|))
  {
    here := if lens[0] <= |t.current| then at else Place(at.region + 1, 0);
    d, t' := Read(t, lens[0]).value.data, Read(t, lens[0]).value.tape;
  }

  /** No read ever mixes two regions or goes back: the pieces that a run of reads returns, on any
      tape, are parts of single regions in the order of the stream. */
  lemma {:induction false} ReadsStayWithinRegions(regions: seq<bytes>, at: Place, t: Tape, lens: seq<nat>)
    requires Continues(regions, at, t) && ReadAll(t, lens).Ok?
    ensures LieInOrder(ReadAll(t, lens).value.0, regions, Places(t, lens, at))
    decreases |lens|
  {
    if lens == [] {
      assert ReadAll(t, lens).value.0 == [];
    } else {
      var d, t', here := FirstRead(t, lens, at);
      var next := here.(offset := here.offset + |d|);
      ReadFindsPiece(regions, at, t, lens[0]);
      ReadsStayWithinRegions(regions, next, t', lens[1..]);
      var places := Places(t', lens[1..], next);
      forall k | 0 <= k < |places| ensures EndsBefore(here, |d|, places[k]) {
        PlacesFollow(t', lens[1..], next, k);
      }
      LieInOrderCons(d, here, regions, ReadAll(t', lens[1..]).value.0, places);
    }
  }

  // Greedy grouping puts the writes on the tape.

  /** The regions of a run, opened with `pending`, hold exactly its writes. */
  lemma {:induction false} GroupingAligns(pending: bytes, ws: seq<bytes>)
    requires |pending| <= REGION_SIZE && Writable(ws)
    ensures var rs := GroupRegions(pending, ws);
      && (pending == [] ==> Aligned([], rs, ws))
      && (pending != [] ==> rs != [] && pending <= rs[0] && Aligned(rs[0][|pending|..], rs[1..], ws))
    decreases |ws|
  {
    var rs := GroupRegions(pending, ws);
    if ws == [] {
      assert pending != [] ==> rs == [pending] && rs[1..] == [];
    } else {
      var w, later := ws[0], ws[1..];
      if pending != [] && |pending| + |w| > REGION_SIZE {
        assert [] + w == w;
        var rs' := GroupRegions(w, later);
        assert rs == [pending] + rs';
        assert rs[1..] == rs';
        GroupingAligns(w, later);
        assert Aligned([], rs', ws);
      } else {
        GroupingAligns(pending + w, later);
        if pending == [] {
          assert [] + w == w;
        } else {
          assert w <= rs[0][|pending|..];
          assert rs[0][|pending|..][|w|..] == rs[0][|pending + w|..];
        }
      }
    }
  }

  /** Pulling the first region ahead of the first read, as building a decoder does, loses
      nothing. */
  lemma {:induction false} FirstRegionLoaded(rs: seq<bytes>, ws: seq<bytes>)
    requires rs != [] && Aligned([], rs, ws)
    ensures Aligned(rs[0], rs[1..], ws)
    decreases |ws|
  {
    if ws[0] == [] {
      FirstRegionLoaded(rs, ws[1..]);
      assert rs[0][0..] == rs[0];
    }
  }

  lemma {:induction false} NothingWritten(pending: bytes, ws: seq<bytes>)
    ensures GroupRegions(pending, ws) == [] <==> pending == [] && Concat(ws) == []
    decreases |ws|
  {
    if ws == [] {
    } else if pending != [] && |pending| + |ws[0]| > REGION_SIZE {
      assert [] + ws[0] == ws[0];
    } else {
      NothingWritten(pending + ws[0], ws[1..]);
    }
  }

  /** What a decoder with buffers of the given capacities makes of a source: the first region is
      pulled at once. */
  function Opened(p: Platform, seed: Option<nat>, src: bytes, next: nat, other: nat): Result<Tape, RegionError> {
    var all := PullAll(p, seed, [], src, next, other);
    if all.regions == [] then Err(all.end)
    else Ok(Tape(all.regions[0], all.regions[1..], all.end))
  }

  /** What a run of writes and a final flush leave in an empty destination. */
  function Written(p: Platform, seed: Option<nat>, ws: seq<bytes>): bytes {
    Emit(p, seed, WriteAll(p, seed, EncState([], [], []), ws)).out
  }

  /** A flushed stream opens into a tape that holds its writes if and only if at least one byte
      was written; otherwise opening reports that there is nothing to read. */
  lemma StreamOpensIffWritten(p: Platform, seed: Option<nat>, ws: seq<bytes>, next: nat, other: nat)
    requires p.Lawful() && Writable(ws) && AllFit(p, [], GroupRegions([], ws))
    ensures var r := Opened(p, seed, Written(p, seed, ws), next, other);
      && (r.Ok? <==> Concat(ws) != [])
      && (r.Ok? ==> OnTape(r.value, ws) && r.value.end == ReadFailure)
      && (r.Err? ==> r.error == ReadFailure)
  {
    hide Emit, WriteAll, Framing, PullAll, AllFit, Group;
    var rs := GroupRegions([], ws);
    FlushedRunIsFraming(p, seed, EncState([], [], []), ws);
    var framing := Framing(p, seed, [], rs);
    assert [] + framing == framing;
    FramingPullsBack(p, seed, [], rs, next, other);
    NothingWritten([], ws);
    GroupingAligns([], ws);
    if rs != [] {
      FirstRegionLoaded(rs, ws);
    }
  }

  /** A read fails exactly if neither the current region nor the next one has enough bytes; it is out
      of bounds if there is a next one, and otherwise has the error that ended the pulls. */
  lemma ReadFailsIff(t: Tape, n: nat)
    ensures Read(t, n).Err? <==> n > |t.current| && (t.regions == [] || n > |t.regions[0]|)
    ensures Read(t, n).Err? ==> Read(t, n).error == if t.regions == [] then t.end else OutOfBounds
  {
  }

  lemma {:induction false} EndIsKept(t: Tape, lens: seq<nat>)
    ensures ReadAll(t, lens).Ok? ==> ReadAll(t, lens).value.1.end == t.end
    decreases |lens|
  {
    if lens != [] && Read(t, lens[0]).Ok? {
      EndIsKept(Read(t, lens[0]).value.tape, lens[1..]);
    }
  }

  /** Round trip of the bearers: reading a flushed stream, each write cut into reads at will,
      returns all the pieces that were written and leaves nothing; reading on is a read failure. */
  lemma BearersRoundTrip(p: Platform, seed: Option<nat>, cuts: seq<seq<bytes>>, next: nat, other: nat)
    requires p.Lawful() && Writable(Joined(cuts)) && Concat(Joined(cuts)) != []
    requires AllFit(p, [], GroupRegions([], Joined(cuts)))
    ensures var tape := Opened(p, seed, Written(p, seed, Joined(cuts)), next, other);
      && tape.Ok?
      && var r := ReadAll(tape.value, Lengths(Flatten(cuts)));
        && r.Ok? && r.value.0 == Flatten(cuts) && OnTape(r.value.1, [])
        && forall n :: n > 0 ==> Read(r.value.1, n) == Err(ReadFailure)
  {
    StreamOpensIffWritten(p, seed, Joined(cuts), next, other);
    assert Joined(cuts) + [] == Joined(cuts);
    var tape := Opened(p, seed, Written(p, seed, Joined(cuts)), next, other).value;
    CutsReadBack(tape, cuts, []);
    EndIsKept(tape, Lengths(Flatten(cuts)));
  }

  /** Whatever bytes a decoder is built on, the pieces it returns up to its first error are, in
      order, parts of the regions at the front of the source: consecutive packets whose hashes
      matched, each inflated with its predecessor as dictionary. */
  lemma ReturnedBytesAreVerified(p: Platform, seed: Option<nat>, src: bytes, next: nat, other: nat, lens: seq<nat>)
    returns (stop: nat)
    requires p.Lawful()
    requires var tape := Opened(p, seed, src, next, other); tape.Ok? && ReadAll(tape.value, lens).Ok?
    ensures var all, tape := PullAll(p, seed, [], src, next, other), Opened(p, seed, src, next, other).value;
      && Genuine(p, seed, src, [], all, stop)
      && LieInOrder(ReadAll(tape, lens).value.0, all.regions, Places(tape, lens, Place(0, 0)))
  {
    var all, tape := PullAll(p, seed, [], src, next, other), Opened(p, seed, src, next, other).value;
    stop := PulledRegionsAreGenuine(p, seed, [], src, next, other);
    assert all.regions[0][0..] == all.regions[0];
    ReadsStayWithinRegions(all.regions, Place(0, 0), tape, lens);
  }
}
