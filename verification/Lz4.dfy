/** What the stream code asks of LZ4, XXH64 and the allocator, which live outside the repository. */
module Lz4 {
  import opened Bytes

  const MAX_INPUT_SIZE: nat := 0x7E000000

  /** `LZ4_compressBound`: the largest compressed form of `size` bytes. */
  function CompressBound(size: nat): nat {
    if size > MAX_INPUT_SIZE then 0 else size + size / 255 + 16
  }

  /** The foreign functions. `deflate` and `inflate` are LZ4 block compression and decompression
      of their second argument with the first as dictionary; `xxh64` hashes bytes under a seed;
      `grow` is the capacity the allocator gives a vector of the first capacity when the second
      is needed. */
  datatype Platform = Platform(
    deflate: (bytes, bytes) -> bytes,
    inflate: (bytes, bytes) -> Option<bytes>,
    xxh64: (nat, bytes) -> nat,
    grow: (nat, nat) -> nat)
  {
    ghost predicate Lawful() {
      && (forall dict, src ::
            0 < |src| <= MAX_INPUT_SIZE ==>
              && 0 < |deflate(dict, src)| <= CompressBound(|src|)
              && inflate(dict, deflate(dict, src)) == Some(src))
      && (forall seed, src :: xxh64(seed, src) < Pow256(8))
      && (forall cap, need :: grow(cap, need) >= need)
    }

    /** The capacity after `Vec::reserve(additional)` on a vector of `len` bytes. */
    function ReservedCap(len: nat, cap: nat, additional: nat): (c: nat)
      ensures Lawful() ==> len + additional <= c
    {
      if len + additional <= cap then cap else grow(cap, len + additional)
    }

    /** The hash field of a region: disabled hashing stores zero. */
    function Hash(seed: Option<nat>, raw: bytes): (h: nat)
      ensures seed == None ==> h == 0
    {
      match seed
      case None => 0
      case Some(s) => xxh64(s, raw)
    }
  }

  // A platform whose compressed form really depends on the dictionary: every byte is shifted by
  // the dictionary's last one. It shows that the laws can be met together.

  function Shift(k: int, src: bytes): (r: bytes)
    ensures |r| == |src|
  {
    seq(|src|, i requires 0 <= i < |src| => (src[i] + k) % 256)
  }

  function Key(dict: bytes): int {
    if dict == [] then 0 else dict[|dict| - 1]
  }

  const SHIFTING: Platform := Platform(
    (dict: bytes, src: bytes) => Shift(Key(dict), src),
    (dict: bytes, body: bytes) => Some(Shift(-Key(dict), body)),
    (seed: nat, src: bytes) => (seed + |src|) % Pow256(8),
    (cap: nat, need: nat) => if need <= 2 * cap then 2 * cap else need)

  lemma ShiftingIsLawful()
    ensures SHIFTING.Lawful()
    ensures SHIFTING.deflate([1], [7]) != SHIFTING.deflate([2], [7])
  {
    forall dict: bytes, src: bytes
      ensures SHIFTING.inflate(dict, SHIFTING.deflate(dict, src)) == Some(src)
    {
      var k := Key(dict);
      assert Shift(-k, Shift(k, src)) == src by {
        forall i | 0 <= i < |src|
          ensures Shift(-k, Shift(k, src))[i] == src[i]
        {
        }
      }
    }
    assert SHIFTING.deflate([1], [7])[0] == 8 && SHIFTING.deflate([2], [7])[0] == 9;
  }

  // A platform that cannot compress: sixteen bytes are appended, as many as the bound allows a
  // short input. Long regions then outgrow their size field.

  const PAD: bytes := seq(16, i => 0)

  const PADDING: Platform := Platform(
    (dict: bytes, src: bytes) => src + PAD,
    (dict: bytes, body: bytes) => if |body| < 16 then None else Some(body[..|body| - 16]),
    (seed: nat, src: bytes) => seed % Pow256(8),
    (cap: nat, need: nat) => need)

  lemma PaddingIsLawful()
    ensures PADDING.Lawful()
  {
    forall dict: bytes, src: bytes
      ensures PADDING.inflate(dict, PADDING.deflate(dict, src)) == Some(src)
    {
      assert (src + PAD)[..|src|] == src;
    }
  }

  /** The bound exists up to inputs of 2113929216 bytes, and a stream may then grow by one byte in 255
      and 16. */
  lemma BoundIsDefinedIff(size: nat)
    ensures CompressBound(size) > 0 <==> size <= 2113929216
    ensures size <= 2113929216 ==>
      255 * (CompressBound(size) - size - 16) <= size < 255 * (CompressBound(size) - size - 15)
  {
  }

  /** The largest raw region for which the bound keeps the compressed size within 16 bits. */
  const SAFE_REGION_SIZE: nat := 65264

  lemma BoundFitsSixteenBits(size: nat)
    requires size <= 65535
    ensures CompressBound(size) <= 65535 <==> size <= SAFE_REGION_SIZE
  {
  }
}
