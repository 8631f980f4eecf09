/** The decoding bearer: regions pulled from the source into the buffer that does not hold the
    previous region, reads served from the current one. */
module Decoder {
  import opened Bytes
  import opened Lz4
  import opened Regions
  import opened Memory
  import opened Tapes
  import opened Bearer

  /** The `Reader` over a byte slice: `rest` is the slice not yet advanced over. */
  class SliceReader {
    var rest: bytes

    constructor (src: bytes)
      ensures rest == src
    {
      rest := src;
    }

    function ReadBorrow(n: nat): (r: Option<bytes>)
      reads this
      ensures r == if n <= |rest| then Some(rest[..n]) else None
    {
      if n <= |rest| then Some(rest[..n]) else None
    }

    method Advance(n: nat)
      requires n <= |rest|
      modifies this
      ensures rest == old(rest)[n..]
    {
      rest := rest[n..];
    }
  }

  /** The read pipeline: decompresses the next region of the source into a buffer. */
  class Pull {
    const p: Platform
    const seed: Option<nat>
    const stream: DecompressStream
    const source: SliceReader

    constructor (p: Platform, source: SliceReader, seed: Option<nat>)
      ensures this.p == p && this.source == source && this.seed == seed
      ensures fresh(stream) && stream.Intact() && stream.last == null && stream.window == []
    {
      this.p := p;
      this.source := source;
      this.seed := seed;
      stream := new DecompressStream();
    }

    method Pass(buf: ByteVec) returns (r: Result<(), RegionError>)
      requires p.Lawful() && stream.Intact() && buf.Valid() && stream.last != buf.data
      modifies buf, buf.data, stream, source
      ensures buf.data == old(buf.data) || fresh(buf.data)
      ensures match PullRegion(p, seed, old(stream.window), old(source.rest), old(buf.data.Length))
        case Err(e) => r == Err(e) && source.rest == old(source.rest)
        case Ok(x) =>
          && r.Ok? && buf.Valid() && buf.View() == x.raw && buf.data.Length == x.cap
          && x.used <= |old(source.rest)| && source.rest == old(source.rest)[x.used..]
          && stream.Intact() && stream.last == buf.data && stream.window == x.raw
    {
      var head := source.ReadBorrow(HEADER_SIZE);
      if head == None {
        return Err(ReadFailure);
      }
      HeaderIsTheFirstBytes(source.rest);
      var header := RegionHeader.FromBytes(head.value);
      var size := HEADER_SIZE + header.compressedSize;
      var packet := source.ReadBorrow(size);
      if packet == None {
        return Err(InvalidSizeHint);
      }
      buf.SetLen(0);
      buf.Reserve(p, header.allocSize);
      var body := packet.value[HEADER_SIZE..];
      assert body == source.rest[HEADER_SIZE..size];
      var init := stream.Decompress(p, body, buf.data);
      if init == None {
        return Err(MalformedRegion);
      }
      buf.SetLen(init.value);
      if p.Hash(seed, buf.data[..buf.len]) != header.hash {
        return Err(InvalidHash);
      }
      source.Advance(size);
      r := Ok(());
    }
  }

  class StreamDecoder {
    const buffer: RegionBuffer
    const switch: Pull

    ghost var Repr: set<object>

    /** What the source held when the decoder was made, how far it has advanced since, and the regions
        accepted on the way. */
    ghost const origin: bytes
    ghost var position: nat
    ghost var accepted: seq<bytes>

    ghost predicate Valid()
      reads this, Repr
    {
      Sound() && Positioned() && accepted != [] && accepted[|accepted| - 1] == switch.stream.window != []
    }

    /** The decompressor's dictionary is the current region, so that it is the other buffer's
        content once the buffers are swapped for the next pull. */
    ghost predicate Sound()
      reads this, Repr
    {
      var stream := switch.stream;
      && {this, buffer} <= Repr && {buffer.curr, buffer.prev} <= Repr && Repr == Footprint()
      && switch.p.Lawful() && buffer.Valid() && buffer.cursor <= buffer.curr.len
      && stream.last == buffer.curr.data && stream.Intact() && stream.window == buffer.curr.View()
    }

    /** The source has advanced by exactly the packets of the accepted regions: consecutive ones from
        its front, chained to one another, whose hashes matched. */
    ghost predicate Positioned()
      reads this, switch.source
    {
      && position <= |origin| && switch.source.rest == origin[position..]
      && Consecutive(switch.p, switch.seed, origin, 0, position, [], accepted)
    }

    ghost function Footprint(): set<object>
      reads this, buffer, buffer.curr, buffer.prev
    {
      {this, switch.stream, switch.source} + buffer.Repr()
    }

    /** What the decoder can still deliver. */
    ghost function Remaining(): Tape
      requires Sound()
      reads this, Repr
    {
      var all := PullAll(switch.p, switch.seed, buffer.curr.View(), switch.source.rest,
                         buffer.prev.data.Length, buffer.curr.data.Length);
      Tape(buffer.curr.View()[buffer.cursor..], all.regions, all.end)
    }

    constructor Unopened(p: Platform, raw: RegionBuffer, source: SliceReader, seed: Option<nat>)
      ensures buffer == raw && switch.p == p && switch.seed == seed && switch.source == source
      ensures fresh(switch.stream) && switch.stream.Intact() && switch.stream.last == null
      ensures switch.stream.window == []
      ensures origin == source.rest && accepted == [] && position == 0 && Positioned()
    {
      buffer := raw;
      switch := new Pull(p, source, seed);
      Repr := {};
      origin, position, accepted := source.rest, 0, [];
    }

    /** `RegionBuffer::pass` with a pull. */
    method PassBuffer() returns (r: Result<(), RegionError>)
      requires switch.p.Lawful() && buffer.Valid() && switch.stream.Intact()
      requires switch.stream.last != buffer.curr.data
      modifies buffer`cursor, buffer.curr, buffer.curr.data, switch.stream, switch.source
      ensures match PullRegion(switch.p, switch.seed, old(switch.stream.window), old(switch.source.rest),
                               old(buffer.curr.data.Length))
        case Err(e) => r == Err(e) && switch.source.rest == old(switch.source.rest)
        case Ok(x) =>
          && r.Ok? && buffer.Valid() && buffer.cursor == 0 && x.raw != []
          && buffer.curr.View() == x.raw && buffer.curr.data.Length == x.cap
          && switch.stream.Intact() && switch.stream.last == buffer.curr.data && switch.stream.window == x.raw
          && x.used <= |old(switch.source.rest)| && switch.source.rest == old(switch.source.rest)[x.used..]
      ensures buffer.curr.data == old(buffer.curr.data) || fresh(buffer.curr.data)
    {
      r := switch.Pass(buffer.curr);
      if r.Ok? {
        buffer.cursor := 0;
      }
    }

    /** Pulls the next region of the source into the current side and keeps account of it. */
    method Load() returns (r: Result<(), RegionError>)
      requires switch.p.Lawful() && buffer.Valid() && switch.stream.Intact()
      requires switch.stream.last != buffer.curr.data && switch.stream.window == LastOr([], accepted)
      requires Positioned()
      modifies this, buffer`cursor, buffer.curr, buffer.curr.data, switch.stream, switch.source
      ensures match PullRegion(switch.p, switch.seed, old(switch.stream.window), old(switch.source.rest),
                               old(buffer.curr.data.Length))
        case Err(e) => r == Err(e) && accepted == old(accepted) && switch.source.rest == old(switch.source.rest)
        case Ok(x) =>
          && r.Ok? && Sound() && buffer.cursor == 0 && accepted == old(accepted) + [x.raw]
          && switch.stream.window == x.raw != [] && buffer.curr.data.Length == x.cap
          && x.used <= |old(switch.source.rest)| && switch.source.rest == old(switch.source.rest)[x.used..]
      ensures Positioned() && (r.Ok? || Repr == old(Repr))
      ensures buffer.curr.data == old(buffer.curr.data) || fresh(buffer.curr.data)
    {
      hide Tapes.Consecutive, Tapes.PullRegion;
      ghost var pulled := PullRegion(switch.p, switch.seed, switch.stream.window, switch.source.rest,
                                     buffer.curr.data.Length);
      if pulled.Ok? {
        OneMore(switch.p, switch.seed, origin, position, accepted, switch.stream.window, switch.source.rest,
                buffer.curr.data.Length);
      }
      r := PassBuffer();
      if r.Ok? {
        Repr := Footprint();
        position, accepted := position + pulled.value.used, accepted + [pulled.value.raw];
      }
    }

    /** Builds a decoder over a region buffer, new or left by an earlier bearer, whatever it holds;
        the first region is pulled at once. */
    static method Build(p: Platform, raw: RegionBuffer, source: SliceReader, seed: Option<nat>)
      returns (r: Result<StreamDecoder, RegionError>)
      requires p.Lawful() && raw.Valid()
      modifies raw.Repr(), source
      ensures match Opened(p, seed, old(source.rest), old(raw.curr.data.Length), old(raw.prev.data.Length))
        case Err(e) => r == Err(e) && source.rest == old(source.rest)
        case Ok(tape) =>
          && r.Ok? && r.value.Valid() && r.value.Remaining() == tape
          && r.value.switch.p == p && r.value.switch.seed == seed && r.value.switch.source == source
          && r.value.origin == old(source.rest) && r.value.accepted == [tape.current]
          && fresh(r.value.Repr - old(raw.Repr()) - {source})
    {
      var decoder := new StreamDecoder.Unopened(p, raw, source, seed);
      ghost var memory := raw.Repr() + {source};
      var loaded := decoder.Load();
      if loaded.Err? {
        return Err(loaded.error);
      }
      assert decoder.Repr - memory <= {decoder, decoder.switch.stream, raw.curr.data};
      r := Ok(decoder);
    }

    /** Hands the region buffer to a later bearer. Its current side holds the last region, read or
        not. */
    method IntoRaw() returns (raw: RegionBuffer)
      requires Valid()
      ensures raw == buffer && raw.Valid() && raw.curr.View() == accepted[|accepted| - 1] != []
    {
      raw := buffer;
    }

    /** The state switch of a read: what is left of the current region is given up, and its raw
        bytes become the dictionary for the region pulled over the one before it. */
    method SwitchRegion() returns (r: Result<(), RegionError>)
      requires Valid()
      modifies Repr
      ensures var tape := old(Remaining());
        if tape.regions == [] then
          r == Err(tape.end) && accepted == old(accepted) && switch.source.rest == old(switch.source.rest)
        else
          && r.Ok? && Valid() && Remaining() == Tape(tape.regions[0], tape.regions[1..], tape.end)
          && accepted == old(accepted) + [tape.regions[0]] && buffer.cursor == 0
      ensures Positioned() && fresh(Repr - old(Repr))
    {
      hide Tapes.Consecutive, Tapes.PullRegion;
      OnePull(switch.p, switch.seed, switch.stream.window, switch.source.rest, buffer.prev.data.Length,
              buffer.curr.data.Length);
      buffer.Swap();
      r := Load();
    }

    method ReadCurrent(n: nat) returns (r: Result<bytes, RegionError>)
      requires Sound()
      modifies buffer`cursor
      ensures match Take(old(Remaining()), n)
        case Err(e) => r == Err(e)
        case Ok(x) => r == Ok(x.data) && Sound() && Remaining() == x.tape && buffer.cursor == old(buffer.cursor) + n
      ensures r.Ok? ==> LiesAt(r.value, [switch.stream.window], Place(0, old(buffer.cursor)))
    {
      ghost var view, at := buffer.curr.View(), buffer.cursor;
      var data := buffer.Read(n);
      if data == None {
        return Err(OutOfBounds);
      }
      assert view[at..][..n] == view[at..at + n] && view[at..][n..] == view[at + n..];
      r := Ok(data.value);
    }

    /** The bytes returned are part of the region accepted last, and up to and including the first
        error the source stays in step with the accepted regions. */
    method Read(n: nat) returns (r: Result<bytes, RegionError>)
      requires Valid()
      modifies Repr
      ensures match Tapes.Read(old(Remaining()), n)
        case Err(e) => r == Err(e)
        case Ok(x) => r == Ok(x.data) && Valid() && Remaining() == x.tape
      ensures fresh(Repr - old(Repr))
      ensures var tape := old(Remaining());
        accepted == old(accepted) + if n <= |tape.current| || tape.regions == [] then [] else [tape.regions[0]]
      ensures Positioned()
      ensures r.Ok? ==> n <= buffer.cursor && LiesAt(r.value, accepted, Place(|accepted| - 1, buffer.cursor - n))
    {
      hide Tapes.Consecutive, Tapes.PullAll;
      if buffer.RemainingLen() < n {
        var switched := SwitchRegion();
        if switched.Err? {
          return Err(switched.error);
        }
      }
      r := ReadCurrent(n);
    }
  }

  /** The bookkeeping of an accepted pull. */
  lemma OneMore(p: Platform, seed: Option<nat>, origin: bytes, position: nat, accepted: seq<bytes>,
                dict: bytes, rest: bytes, cap: nat)
    requires position <= |origin| && Consecutive(p, seed, origin, 0, position, [], accepted)
    requires dict == LastOr([], accepted) && rest == origin[position..]
    requires PullRegion(p, seed, dict, rest, cap).Ok?
    ensures var r := PullRegion(p, seed, dict, rest, cap).value;
      && position + r.used <= |origin| && rest[r.used..] == origin[position + r.used..]
      && Consecutive(p, seed, origin, 0, position + r.used, [], accepted + [r.raw])
  {
    PulledRegionIsHeld(p, seed, dict, origin, position, cap);
    ConsecutiveSnoc(p, seed, origin, 0, position, [], accepted, PullRegion(p, seed, dict, rest, cap).value.raw);
  }

  /** The first step of pulling everything. */
  lemma OnePull(p: Platform, seed: Option<nat>, dict: bytes, src: bytes, next: nat, other: nat)
    ensures var all := PullAll(p, seed, dict, src, next, other);
      match PullRegion(p, seed, dict, src, next)
      case Err(e) => all == Pullable([], e)
      case Ok(r) =>
        && all.regions != [] && all.regions[0] == r.raw
        && Pullable(all.regions[1..], all.end) == PullAll(p, seed, r.raw, src[r.used..], other, r.cap)
  {
  }
}
