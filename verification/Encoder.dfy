/** The encoding bearer: greedy writes into the current region buffer, regions pushed to the
    destination, buffers swapped after each push. */
module Encoder {
  import opened Bytes
  import opened Lz4
  import opened Regions
  import opened Memory

  /** The write pipeline: compresses a buffer into the destination. */
  class Push {
    const p: Platform
    const seed: Option<nat>
    const stream: CompressStream
    const destination: ByteVec

    constructor (p: Platform, destination: ByteVec, seed: Option<nat>)
      ensures this.p == p && this.destination == destination && this.seed == seed
      ensures fresh(stream) && stream.Intact() && stream.last == null
    {
      this.p := p;
      this.destination := destination;
      this.seed := seed;
      stream := new CompressStream();
    }

    /** Memory the stream and the destination may use while `buf` is pushed. */
    ghost predicate Ready(buf: ByteVec)
      reads this, stream, stream.last, destination, buf
    {
      && p.Lawful() && stream.Intact() && buf.Valid() && destination.Valid()
      && buf != destination
      && (buf.len == 0 || stream.last != buf.data)
      && stream.last != destination.data && destination.data != buf.data
    }

    /** Writes the packet of `buf` into `arena` from index `at`, body before header. */
    method WritePacket(buf: ByteVec, arena: array<byte>, at: nat) returns (written: Option<nat>)
      requires p.Lawful() && stream.Intact() && buf.Valid() && 0 < buf.len <= MAX_INPUT_SIZE
      requires stream.last != buf.data && stream.last != arena && arena != buf.data
      requires at + HEADER_SIZE + CompressBound(buf.len) <= arena.Length
      modifies stream, arena
      ensures var packet := Packet(p, seed, old(stream.window), buf.View());
        && written == Some(|packet|) && at + |packet| <= arena.Length
        && arena[..at + |packet|] == old(arena[..at]) + packet
      ensures stream.Intact() && stream.last == buf.data && stream.window == buf.View()
    {
      var compressed := stream.Compress(p, buf, arena, at + HEADER_SIZE, CompressBound(buf.len));
      if compressed == None {
        return None;
      }
      assert arena[..at] == arena[..at + HEADER_SIZE][..at] == old(arena[..at + HEADER_SIZE])[..at] == old(arena[..at]);
      WriteHeader(buf, arena, at, compressed.value);
      written := Some(HEADER_SIZE + compressed.value);
    }

    /** Writes the header of `buf` before its compressed body of `n` bytes. */
    method WriteHeader(buf: ByteVec, arena: array<byte>, at: nat, n: nat)
      requires buf.Valid() && arena != buf.data && at + HEADER_SIZE + n <= arena.Length
      modifies arena
      ensures arena[..at + HEADER_SIZE + n] == old(arena[..at])
        + (RegionHeader(n % 65536, buf.len % 65536, p.Hash(seed, buf.View())).IntoBytes()
           + old(arena[at + HEADER_SIZE..at + HEADER_SIZE + n]))
    {
      var header := RegionHeader(n % 65536, buf.len % 65536, p.Hash(seed, buf.data[..buf.len]));
      WriteBefore(header.IntoBytes(), arena, at, n);
    }

    method Pass(buf: ByteVec) returns (r: Result<(), RegionError>)
      requires Ready(buf) && buf.len <= MAX_INPUT_SIZE
      modifies buf, destination, destination.data, stream
      ensures r.Ok? && destination.Valid() && stream.Intact()
      ensures destination.data == old(destination.data) || fresh(destination.data)
      ensures buf.data == old(buf.data) && buf.len == 0
      ensures EncState(stream.window, buf.View(), destination.View())
           == Emit(p, seed, old(EncState(stream.window, buf.View(), destination.View())))
      ensures stream.last == if old(buf.len) == 0 then old(stream.last) else buf.data
    {
      if buf.len == 0 {
        return Ok(());
      }
      var size := CompressBound(buf.len) + HEADER_SIZE;
      destination.Reserve(p, size);
      var at := destination.len;
      var written := WritePacket(buf, destination.data, at);
      if written == None {
        return Err(MalformedRegion);
      }
      buf.SetLen(0);
      destination.SetLen(at + written.value);
      r := Ok(());
    }
  }

  /** The encoder. Its region buffer is its own or one that was used before and may hold bytes on
      both sides; encoders leave the `prev` side empty. */
  class StreamEncoder {
    const buffer: RegionBuffer
    const switch: Push

    ghost var Repr: set<object>

    ghost predicate Valid()
      reads this, Repr
    {
      var stream, destination := switch.stream, switch.destination;
      && {this, buffer, stream, destination} <= Repr && {buffer.curr, buffer.prev} <= Repr && Repr == Footprint()
      && switch.p.Lawful() && buffer.Valid() && destination.Valid()
      && buffer.curr.len <= MAX_INPUT_SIZE && buffer.prev.len <= MAX_INPUT_SIZE - REGION_SIZE
      && destination !in {buffer.curr, buffer.prev}
      && destination.data !in {buffer.curr.data, buffer.prev.data}
      && (stream.last == null || stream.last == buffer.prev.data
          || (stream.last == buffer.curr.data && buffer.curr.len == 0))
      && stream.Intact()
    }

    /** Between writes the compressor's dictionary lies in the other buffer, out of reach of the
        bytes being gathered. A flush leaves it in the current buffer instead. */
    ghost predicate Apart()
      reads this, Repr
    {
      Valid() && switch.stream.last != buffer.curr.data
    }

    /** The state of every run that began with a new buffer or one that an encoder left. */
    ghost predicate Streaming()
      reads this, Repr
    {
      Apart() && buffer.curr.len <= REGION_SIZE && buffer.prev.len == 0
    }

    ghost function Footprint(): set<object>
      reads this, buffer, buffer.curr, buffer.prev, switch.destination
    {
      {this, switch.stream, switch.destination, switch.destination.data} + buffer.Repr()
    }

    ghost function State(): EncState
      requires Valid()
      reads this, Repr
    {
      EncState(switch.stream.window, buffer.curr.View(), switch.destination.View(), buffer.prev.View())
    }

    /** An encoder with a new region buffer. */
    constructor (p: Platform, destination: ByteVec, size: nat, seed: Option<nat>)
      requires p.Lawful() && destination.Valid()
      ensures Streaming() && switch.p == p && switch.seed == seed && switch.destination == destination
      ensures State() == EncState([], [], old(destination.View()))
      ensures fresh(Repr - {destination, destination.data})
    {
      buffer := new RegionBuffer(size);
      switch := new Push(p, destination, seed);
      new;
      Repr := Footprint();
    }

    /** An encoder over the region buffer of an earlier bearer, whatever it holds. */
    constructor FromRaw(p: Platform, raw: RegionBuffer, destination: ByteVec, seed: Option<nat>)
      requires p.Lawful() && destination.Valid() && raw.Valid()
      requires raw.curr.len <= MAX_INPUT_SIZE && raw.prev.len <= MAX_INPUT_SIZE - REGION_SIZE
      requires destination !in {raw.curr, raw.prev} && destination.data !in {raw.curr.data, raw.prev.data}
      ensures Apart() && switch.p == p && switch.seed == seed && switch.destination == destination
      ensures buffer == raw && State() == EncState([], raw.curr.View(), destination.View(), raw.prev.View())
      ensures fresh(Repr - raw.Repr() - {destination, destination.data})
    {
      buffer := raw;
      switch := new Push(p, destination, seed);
      new;
      Repr := Footprint();
    }

    method IntoRaw() returns (raw: RegionBuffer)
      requires Valid()
      ensures raw == buffer && raw.Valid()
      ensures raw.curr.View() == State().pending && raw.prev.View() == State().standby
    {
      raw := buffer;
    }

    method Flush() returns (r: Result<(), RegionError>)
      requires Valid()
      modifies Repr
      ensures r.Ok? && Valid() && fresh(Repr - old(Repr))
      ensures State() == Emit(switch.p, switch.seed, old(State()))
      ensures Apart() <==> old(Apart()) && old(State()).pending == []
    {
      r := switch.Pass(buffer.curr);
      if r.Ok? {
        buffer.cursor := 0;
      }
      Repr := Footprint();
    }

    /** The state switch of a write: the region is pushed, and the next one is gathered in the other
        buffer. */
    method SwitchRegion() returns (r: Result<(), RegionError>)
      requires Apart() && buffer.curr.len > 0
      modifies Repr
      ensures r.Ok? && Apart() && fresh(Repr - old(Repr))
      ensures var s := Emit(switch.p, switch.seed, old(State()));
        State() == EncState(s.dict, s.standby, s.out, s.pending)
    {
      r := switch.Pass(buffer.curr);
      if r.Err? {
        return;
      }
      buffer.cursor := 0;
      buffer.Swap();
      Repr := Footprint();
    }

    /** The end of a write. Right after a non-empty flush the bytes go over the dictionary: if they
        fit the capacity of the buffer, the dictionary holds on exactly as far as they repeat it;
        otherwise the buffer is reallocated and the block with the dictionary given up. */
    method Append(bytes: bytes)
      requires Valid() && buffer.curr.len + |bytes| <= MAX_INPUT_SIZE
      modifies Repr
      ensures buffer.curr.len == old(buffer.curr.len) + |bytes|
      ensures old(Apart()) ==>
        && Apart() && fresh(Repr - old(Repr))
        && State() == old(State()).(pending := old(State()).pending + bytes)
      ensures !old(Apart()) ==>
        && buffer.Valid() && buffer.curr.View() == bytes && buffer.prev == old(buffer.prev)
        && switch.stream.last == old(buffer.curr.data) && switch.stream.window == old(switch.stream.window)
        && if |bytes| <= old(buffer.curr.data.Length)
           then buffer.curr.data == old(buffer.curr.data)
             && (switch.stream.Intact() <==> Agree(bytes, switch.stream.window))
           else switch.stream.last !in {buffer.curr.data, buffer.prev.data}
    {
      ghost var before := buffer.curr.data[..];
      ghost var length := buffer.curr.len;
      buffer.Write(switch.p, bytes);
      Repr := Footprint();
      if length == 0 && |bytes| <= |before| {
        WrittenOver(switch.stream.window, before, buffer.curr.data[..], bytes);
      }
    }

    /** A write between flushes is a step of the run. Asking for the remaining room demands that the
        current side is not fuller than a region may be. */
    method Write(bytes: bytes) returns (r: Result<(), RegionError>)
      requires Valid() && buffer.curr.len <= REGION_SIZE
      modifies Repr
      ensures |bytes| > REGION_SIZE ==> r == Err(OutOfBounds) && Valid() && State() == old(State())
      ensures |bytes| <= REGION_SIZE ==> r.Ok?
      ensures old(Apart()) ==> Apart() && fresh(Repr - old(Repr))
      ensures old(Streaming()) ==> Streaming()
      ensures |bytes| <= REGION_SIZE && old(Apart()) ==>
        State() == WriteStep(switch.p, switch.seed, old(State()), bytes)
      ensures |bytes| <= REGION_SIZE && !old(Apart()) ==>
        && buffer.Valid() && buffer.curr.View() == bytes && buffer.prev == old(buffer.prev)
        && switch.stream.last == old(buffer.curr.data) && switch.stream.window == old(switch.stream.window)
        && if |bytes| <= old(buffer.curr.data.Length)
           then buffer.curr.data == old(buffer.curr.data)
             && (switch.stream.Intact() <==> Agree(bytes, switch.stream.window))
           else switch.stream.last !in {buffer.curr.data, buffer.prev.data}
    {
      if |bytes| > REGION_SIZE {
        return Err(OutOfBounds);
      }
      if buffer.RemainingCap() < |bytes| {
        r := SwitchRegion();
        if r.Err? {
          return;
        }
      }
      Append(bytes);
      r := Ok(());
    }
  }

  /** One of the two is a prefix of the other. */
  predicate Agree(a: bytes, b: bytes) {
    a <= b || b <= a
  }

  lemma WrittenOver(window: bytes, before: bytes, after: bytes, bytes: bytes)
    requires |before| == |after| && |bytes| <= |before|
    requires after[..|bytes|] == bytes && after[|bytes|..] == before[|bytes|..]
    ensures |window| <= |before| && before[..|window|] == window ==>
      (after[..|window|] == window <==> Agree(bytes, window))
  {
    if |window| <= |bytes| {
      assert after[..|window|] == bytes[..|window|];
    } else if |window| <= |before| && before[..|window|] == window {
      assert after[..|window|] == bytes + before[|bytes|..][..|window| - |bytes|];
      assert window == window[..|bytes|] + before[|bytes|..][..|window| - |bytes|];
    }
  }

  /** Fills in the front of something whose `n` last bytes are already in place. */
  method WriteBefore(front: bytes, dst: array<byte>, at: nat, ghost n: nat)
    requires at + |front| + n <= dst.Length
    modifies dst
    ensures dst[..at + |front| + n] == old(dst[..at]) + (front + old(dst[at + |front|..at + |front| + n]))
  {
    ghost var before := dst[..];
    WriteTo(front, dst, at);
    FrontFilled(before, dst[..], front, at, n);
  }

  lemma FrontFilled(before: bytes, after: bytes, front: bytes, at: nat, n: nat)
    requires |before| == |after| && at + |front| + n <= |before|
    requires after[..at] == before[..at] && after[at..at + |front|] == front
    requires after[at + |front|..] == before[at + |front|..]
    ensures after[..at + |front| + n] == before[..at] + (front + before[at + |front|..at + |front| + n])
  {
    var mid, end := at + |front|, at + |front| + n;
    assert after[mid..end] == after[mid..][..n] == before[mid..][..n] == before[mid..end];
    assert after[..end] == after[..at] + (after[at..mid] + after[mid..end]);
  }
}
