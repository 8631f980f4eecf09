/** The buffered reader over a byte source that may deliver fewer bytes than asked for. */
module Cursor {
  import opened Bytes
  import opened Lz4

  /** Requests above this are buffered exactly, smaller ones with as much again. */
  const THRESHOLD: nat := CompressBound(65535) / 2

  function Least(a: nat, b: nat): nat {
    if a < b then a else b
  }

  /** A `std::io::Read`. Its script says of each read whether it fails or how many bytes it delivers
      at most. */
  class ByteSource {
    var rest: bytes
    var calls: nat
    const script: nat -> Option<nat>

    constructor (all: bytes, script: nat -> Option<nat>)
      ensures rest == all && calls == 0 && this.script == script
    {
      rest, calls := all, 0;
      this.script := script;
    }

    /** Fills `dst` from index `from` with some number of the next bytes, or fails. */
    method Read(dst: array<byte>, from: nat) returns (r: Option<nat>)
      requires from <= dst.Length
      modifies this, dst
      ensures calls == old(calls) + 1
      ensures match script(old(calls))
        case None => r == None && rest == old(rest)
        case Some(k) =>
          && r == Some(Least(k, Least(dst.Length - from, |old(rest)|)))
          && dst[..] == old(dst[..])[..from] + old(rest)[..r.value] + old(dst[..])[from + r.value..]
          && rest == old(rest)[r.value..]
    {
      var delivery := script(calls);
      calls := calls + 1;
      if delivery == None {
        return None;
      }
      var n := Least(delivery.value, Least(dst.Length - from, |rest|));
      forall i | 0 <= i < n {
        dst[from + i] := rest[i];
      }
      rest := rest[n..];
      r := Some(n);
    }
  }

  /** A buffer that held the bytes of `all` between `from` and `at` and then padding, after `n` more
      bytes were read behind them. */
  lemma Refilled(all: bytes, from: nat, at: nat, before: bytes, after: bytes, n: nat)
    requires from <= at && at + n <= |all| && at - from + n <= |before|
    requires before[..at - from] == all[from..at]
    requires forall i :: at - from <= i < |before| ==> before[i] == 0
    requires after == before[..at - from] + all[at..][..n] + before[at - from + n..]
    ensures after[..at - from + n] == all[from..at + n] && all[at..][n..] == all[at + n..]
    ensures forall i :: at - from + n <= i < |after| ==> after[i] == 0
  {
    var left := at - from;
    assert after[..left + n] == before[..left] + all[at..][..n];
    assert all[from..at + n] == all[from..at] + all[at..][..n];
  }

  /** Reads behind the `left` bytes of `all` that the buffer holds from position `from` on. */
  method ReadBehind(reader: ByteSource, grow: array<byte>, left: nat, ghost all: bytes, ghost from: nat)
    returns (k: Option<nat>)
    requires left <= grow.Length && from + left <= |all|
    requires grow[..left] == all[from..from + left] && reader.rest == all[from + left..]
    requires forall i :: left <= i < grow.Length ==> grow[i] == 0
    modifies reader, grow
    ensures reader.calls == old(reader.calls) + 1
    ensures match reader.script(old(reader.calls))
      case None => k == None && reader.rest == old(reader.rest)
      case Some(most) => k == Some(Least(most, Least(grow.Length - left, |old(reader.rest)|)))
    ensures k.Some? ==>
      && left + k.value <= grow.Length && from + (left + k.value) <= |all|
      && grow[..left + k.value] == all[from..from + (left + k.value)]
      && reader.rest == all[from + (left + k.value)..]
      && forall i :: left + k.value <= i < grow.Length ==> grow[i] == 0
  {
    ghost var before := grow[..];
    k := reader.Read(grow, left);
    if k.Some? {
      Refilled(all, from, from + left, before, grow[..], k.value);
      assert grow[..left + k.value] == grow[..][..left + k.value];
      forall i | left + k.value <= i < grow.Length ensures grow[i] == 0 {
        assert grow[i] == grow[..][i];
      }
    }
  }

  datatype ReadError = OutOfBounds | Io

  /** The reader. `base` is where in `all` the buffer starts, `received` how many of its bytes came
      from the source; the rest of the buffer is padding. */
  class CursorReader {
    var buffer: array<byte>
    var start: nat
    var end: nat
    const reader: ByteSource

    ghost const all: bytes
    ghost var base: nat
    ghost var received: nat
    ghost var window: nat  // what may still be advanced over

    ghost predicate Valid()
      reads this, buffer, reader
    {
      && end <= received <= buffer.Length && start + window <= buffer.Length
      && base + received <= |all|
      && buffer[..received] == all[base..base + received]
      && (forall i :: received <= i < buffer.Length ==> buffer[i] == 0)
      && reader.rest == all[base + received..]
    }

    /** How far all advances together have gone. */
    ghost function Consumed(): nat
      reads this
    {
      base + start
    }

    /** Once fewer bytes arrived than the buffer has room for, or leftover bytes were carried into
        it, it is never filled again. */
    ghost predicate Frozen()
      reads this
    {
      end < buffer.Length
    }

    /** `w` holds the next bytes of the source as far as they were received, and zeros behind
        them. */
    ghost predicate Shows(w: bytes)
      reads this
    {
      forall i :: 0 <= i < |w| ==>
        w[i] == if start + i < received && Consumed() + i < |all| then all[Consumed() + i] else 0
    }

    constructor (reader: ByteSource)
      ensures Valid() && this.reader == reader && all == old(reader.rest)
      ensures Consumed() == 0 && received == 0 && !Frozen() && window == 0
    {
      buffer := new byte[0];
      start, end := 0, 0;
      this.reader := reader;
      all, base, received, window := reader.rest, 0, 0, 0;
    }

    /** A request is served from the buffer if it ends there; otherwise the buffer is refilled if it
        is full and the request refused if it is not. It fails exactly if the source does. */
    method ReadBorrow(n: nat) returns (r: Result<bytes, ReadError>)
      requires Valid()
      modifies this, reader
      ensures Valid() && Consumed() == old(Consumed())
      ensures old(start) + n <= old(end) ==> r.Ok?
      ensures old(start) + n > old(end) && old(end) < old(buffer.Length) ==> r == Err(OutOfBounds)
      ensures old(start) + n > old(end) && old(end) == old(buffer.Length) ==>
        && reader.calls == old(reader.calls) + 1
        && match reader.script(old(reader.calls))
          case None => r == Err(Io)
          case Some(k) =>
            && r.Ok? && start == 0 && received == old(end) - old(start) + end
            && end == Least(k, Least(buffer.Length - (old(end) - old(start)), |old(reader.rest)|))
            && reader.rest == old(reader.rest)[end..]
            && buffer.Length >= if n > 32904 then n else 2 * n
      ensures r.Ok? ==> |r.value| == n && window == n && Shows(r.value)
      ensures old(start) + n <= old(end) || r.Err? ==>
        buffer == old(buffer) && start == old(start) && end == old(end) && received == old(received)
        && reader.rest == old(reader.rest)
      ensures r.Err? ==> window == old(window)
      ensures old(Frozen()) ==> Frozen() && buffer == old(buffer) && received == old(received)
      ensures r.Ok? && old(start) + n > old(end) && old(start) < old(end) ==> Frozen()
    {
      hide Least;
      if start + n > end {
        if end < buffer.Length {
          return Err(OutOfBounds);
        }
        var ok := Grow(n);
        if !ok {
          return Err(Io);
        }
      }
      window := n;
      BufferShows(n);
      r := Ok(buffer[start..start + n]);
    }

    lemma BufferShows(n: nat)
      requires Valid() && start + n <= buffer.Length
      ensures Shows(buffer[start..start + n])
    {
      var w := buffer[start..start + n];
      forall i | 0 <= i < n && start + i < received
        ensures w[i] == all[Consumed() + i]
      {
        assert w[i] == buffer[..received][start + i];
      }
    }

    method Grow(n: nat) returns (ok: bool)
      requires Valid() && !Frozen() && start + n > end
      modifies this, reader
      ensures Valid() && Consumed() == old(Consumed()) && reader.calls == old(reader.calls) + 1
      ensures match reader.script(old(reader.calls))
        case None =>
          && !ok && buffer == old(buffer) && start == old(start) && end == old(end) && window == old(window)
          && received == old(received) && reader.rest == old(reader.rest)
        case Some(k) =>
          && ok && start == 0 && window == 0 && received == old(end) - old(start) + end
          && end == Least(k, Least(buffer.Length - (old(end) - old(start)), |old(reader.rest)|))
          && reader.rest == old(reader.rest)[end..]
          && buffer.Length >= if n > 32904 then n else 2 * n
      ensures ok && old(start) < old(end) ==> Frozen()
    {
      hide Least;
      var newLen := if n > THRESHOLD then n else 2 * n;
      var cap: nat :| cap >= newLen;
      var left := end - start;
      var grow := CarryOver(cap);
      var k := ReadBehind(reader, grow, left, all, base + start);
      if k.None? {
        return false;
      }
      Install(grow, left, k.value);
      ok := true;
    }

    /** Makes `grow`, which holds `left` unread bytes and `k` new ones, the buffer; only the new ones
        are counted in `end`. */
    method Install(grow: array<byte>, left: nat, k: nat)
      requires left + k <= grow.Length && base + start + (left + k) <= |all|
      requires grow[..left + k] == all[base + start..base + start + (left + k)]
      requires forall i :: left + k <= i < grow.Length ==> grow[i] == 0
      requires reader.rest == all[base + start + (left + k)..]
      modifies this
      ensures Valid() && Consumed() == old(Consumed())
      ensures buffer == grow && start == 0 && window == 0 && end == k && received == left + k
    {
      buffer, end := grow, k;
      base, received := base + start, left + k;
      start, window := 0, 0;
    }

    /** A zeroed buffer of `cap` bytes that begins with the unread ones. */
    method CarryOver(cap: nat) returns (grow: array<byte>)
      requires Valid() && !Frozen() && end - start <= cap
      ensures fresh(grow) && grow.Length == cap
      ensures grow[..end - start] == all[base + start..base + received]
      ensures forall i :: end - start <= i < cap ==> grow[i] == 0
    {
      grow := new byte[cap](_ => 0);
      forall i | 0 <= i < end - start {
        grow[i] := buffer[start + i];
      }
      forall i | 0 <= i < end - start ensures grow[i] == all[base + start + i] {
        assert buffer[start + i] == buffer[..received][start + i] == all[base..base + received][start + i];
      }
    }

    /** Advances over at most the bytes of the last window. */
    method Advance(n: nat)
      requires Valid() && n <= window
      modifies this
      ensures Valid() && Consumed() == old(Consumed()) + n && window == old(window) - n
      ensures buffer == old(buffer) && end == old(end) && received == old(received)
    {
      start := start + n;
      window := window - n;
    }

    /** Window safety: a window within the bytes received is exactly the next bytes of the
        source. */
    lemma ReceivedWindowIsSource(w: bytes)
      requires Valid() && Shows(w) && start + |w| <= received
      ensures w == all[Consumed()..Consumed() + |w|]
    {
    }
  }
  /** The documentation's example, for all sizes: a source that delivers everything at once is read
      in two parts, the second one no longer than the first. */
  method ReadInTwo(source: ByteSource, m: nat) returns (a: Result<bytes, ReadError>, b: Result<bytes, ReadError>)
    requires 0 < m <= |source.rest| <= 2 * m && m <= 32904
    requires source.script(source.calls).Some? && source.script(source.calls).value >= |source.rest|
    modifies source
    ensures a == Ok(old(source.rest)[..m]) && b == Ok(old(source.rest)[m..])
  {
    var total := |source.rest|;
    ghost var all := source.rest;
    assert all[m..m + (total - m)] == all[m..];
    var reader := new CursorReader(source);
    a := reader.ReadBorrow(m);
    assert reader.end == total && reader.start == 0;
    reader.ReceivedWindowIsSource(a.value);
    reader.Advance(m);
    b := reader.ReadBorrow(total - m);
    reader.ReceivedWindowIsSource(b.value);
  }
}
