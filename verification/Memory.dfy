/** The buffers in memory: growable byte vectors, the pair of region buffers, and the two LZ4
    streams, which keep no copy of their dictionary but point into a region buffer. */
module Memory {
  import opened Bytes
  import opened Lz4
  import opened Regions

  /** `write_to_uninit`: copies `src` into `dst` from index `at`. */
  method WriteTo(src: bytes, dst: array<byte>, at: nat)
    requires at + |src| <= dst.Length
    modifies dst
    ensures dst[at..at + |src|] == src
    ensures dst[..at] == old(dst[..at]) && dst[at + |src|..] == old(dst[at + |src|..])
  {
    forall i | 0 <= i < |src| {
      dst[at + i] := src[i];
    }
  }

  /** `Vec<u8>`: bytes from `len` on are spare capacity. */
  class ByteVec {
    var data: array<byte>
    var len: nat

    ghost predicate Valid()
      reads this
    {
      len <= data.Length
    }

    ghost function View(): bytes
      requires Valid()
      reads this, data
    {
      data[..len]
    }

    constructor WithCapacity(cap: nat)
      ensures Valid() && fresh(data) && data.Length == cap && View() == []
    {
      data := new byte[cap];
      len := 0;
    }

    method Reserve(p: Platform, additional: nat)
      requires Valid() && p.Lawful()
      modifies this
      ensures Valid() && len == old(len) && View() == old(View())
      ensures data.Length == p.ReservedCap(len, old(data.Length), additional)
      ensures if len + additional <= old(data.Length) then data == old(data) else fresh(data)
    {
      if data.Length - len < additional {
        var bigger := new byte[p.grow(data.Length, len + additional)];
        forall i | 0 <= i < len {
          bigger[i] := data[i];
        }
        data := bigger;
      }
    }

    method SetLen(n: nat)
      requires n <= data.Length
      modifies this`len
      ensures len == n
    {
      len := n;
    }

    method ExtendFromSlice(p: Platform, src: bytes)
      requires Valid() && p.Lawful()
      modifies this, data
      ensures Valid() && View() == old(View()) + src
      ensures if old(len) + |src| <= old(data.Length) then data == old(data) else fresh(data)
      ensures data == old(data) ==> data[len..] == old(data[len..])[|src|..]
    {
      Reserve(p, |src|);
      WriteTo(src, data, len);
      len := len + |src|;
    }
  }

  // The capacities of new region buffers for a stream of `cap` bytes.

  function CurrCap(cap: nat): nat {
    if cap < REGION_SIZE then cap else REGION_SIZE
  }

  function PrevCap(cap: nat): nat {
    if cap <= REGION_SIZE then 0 else CurrCap(cap - REGION_SIZE)
  }

  lemma NewCapacities(cap: nat)
    ensures CurrCap(cap) == if cap < 65535 then cap else 65535
    ensures PrevCap(cap) == if cap < 65535 then 0 else if cap < 131070 then cap - 65535 else 65535
  {
  }

  /** The two region buffers and the cursor of the current one. Swapping exchanges the vectors, so
      the bytes of the previous region stay where they are in memory. */
  class RegionBuffer {
    var curr: ByteVec
    var prev: ByteVec
    var cursor: nat

    ghost predicate Valid()
      reads this, curr, prev
    {
      curr != prev && curr.data != prev.data && curr.Valid() && prev.Valid()
    }

    ghost function Repr(): set<object>
      reads this, curr, prev
    {
      {this, curr, prev, curr.data, prev.data}
    }

    constructor (cap: nat)
      ensures Valid() && fresh(Repr()) && cursor == 0
      ensures curr.View() == [] && prev.View() == []
      ensures curr.data.Length == CurrCap(cap) && prev.data.Length == PrevCap(cap)
    {
      curr := new ByteVec.WithCapacity(CurrCap(cap));
      prev := new ByteVec.WithCapacity(PrevCap(cap));
      cursor := 0;
    }

    function RemainingCap(): int
      reads this, curr
    {
      REGION_SIZE - curr.len
    }

    function RemainingLen(): int
      reads this, curr
    {
      curr.len - cursor
    }

    method Swap()
      modifies this
      ensures curr == old(prev) && prev == old(curr) && cursor == old(cursor)
    {
      curr, prev := prev, curr;
    }

    method Write(p: Platform, src: bytes)
      requires Valid() && p.Lawful()
      modifies curr, curr.data
      ensures Valid() && curr.View() == old(curr.View()) + src
      ensures if old(curr.len) + |src| <= old(curr.data.Length) then curr.data == old(curr.data) else fresh(curr.data)
      ensures curr.data == old(curr.data) ==> curr.data[curr.len..] == old(curr.data[curr.len..])[|src|..]
    {
      curr.ExtendFromSlice(p, src);
    }

    method Read(n: nat) returns (r: Option<bytes>)
      requires Valid()
      modifies this`cursor
      ensures old(cursor) + n <= curr.len ==>
        r == Some(curr.View()[old(cursor)..old(cursor) + n]) && cursor == old(cursor) + n
      ensures old(cursor) + n > curr.len ==> r == None && cursor == old(cursor)
    {
      if cursor + n > curr.len {
        return None;
      }
      r := Some(curr.data[..curr.len][cursor..cursor + n]);
      cursor := cursor + n;
    }
  }

  /** The state of `LZ4_compress_continue`: where the last compressed region lies in memory. The
      dictionary is whatever those bytes are at the next call, so LZ4 asks that they are still the
      `window` that was compressed. */
  class CompressStream {
    var last: array?<byte>
    var lastLen: nat
    ghost var window: bytes

    ghost predicate Intact()
      reads this, last
    {
      if last == null then lastLen == 0 && window == []
      else lastLen <= last.Length && last[..lastLen] == window
    }

    constructor ()
      ensures Intact() && last == null && window == []
    {
      last, lastLen, window := null, 0, [];
    }

    /** Compresses `src` into `room` bytes of `dst` from index `at`. */
    method Compress(p: Platform, src: ByteVec, dst: array<byte>, at: nat, room: nat) returns (n: Option<nat>)
      requires Intact() && src.Valid() && at + room <= dst.Length
      requires last != src.data && last != dst && dst != src.data
      modifies this, dst
      ensures dst[..at] == old(dst[..at])
      ensures var body := p.deflate(old(window), src.View());
        if 0 < |body| <= room then
          && n == Some(|body|) && dst[at..at + |body|] == body
          && last == src.data && lastLen == src.len && window == src.View() && Intact()
        else n == None
    {
      var dict: bytes := [];
      if last != null {
        dict := last[..lastLen];
      }
      var raw := src.data[..src.len];
      var body := p.deflate(dict, raw);
      if |body| == 0 || |body| > room {
        return None;
      }
      WriteTo(body, dst, at);
      last, lastLen, window := src.data, src.len, raw;
      n := Some(|body|);
    }
  }

  /** The state of `LZ4_decompress_safe_continue`, with the same demand on memory. */
  class DecompressStream {
    var last: array?<byte>
    var lastLen: nat
    ghost var window: bytes

    ghost predicate Intact()
      reads this, last
    {
      if last == null then lastLen == 0 && window == []
      else lastLen <= last.Length && last[..lastLen] == window
    }

    constructor ()
      ensures Intact() && last == null && window == []
    {
      last, lastLen, window := null, 0, [];
    }

    /** Decompresses `body` into the whole of `dst`. */
    method Decompress(p: Platform, body: bytes, dst: array<byte>) returns (n: Option<nat>)
      requires Intact() && last != dst
      modifies this, dst
      ensures match p.inflate(old(window), body)
        case None => n == None
        case Some(raw) =>
          if 0 < |raw| <= dst.Length then
            && n == Some(|raw|) && dst[..|raw|] == raw
            && last == dst && lastLen == |raw| && window == raw && Intact()
          else n == None
    {
      var dict: bytes := [];
      if last != null {
        dict := last[..lastLen];
      }
      match p.inflate(dict, body)
      case None => return None;
      case Some(raw) =>
        if |raw| == 0 || |raw| > dst.Length {
          return None;
        }
        WriteTo(raw, dst, 0);
        last, lastLen, window := dst, |raw|, raw;
        n := Some(|raw|);
    }
  }
}
