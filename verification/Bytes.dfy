/** Bytes, little-endian integers and the result types shared by every module. */
module Bytes {
  type byte = b: int | 0 <= b < 256
  type bytes = seq<byte>

  datatype Option<+T> = None | Some(value: T)
  datatype Result<+T, +E> = Ok(value: T) | Err(error: E)

  /** 256 to the power `k`: the number of values an unsigned integer of `k` bytes has. */
  function Pow256(k: nat): (p: nat)
    ensures p >= 1
  {
    if k == 0 then 1 else 256 * Pow256(k - 1)
  }

  /** The `k` low bytes of `n`, least significant first (`to_le_bytes`). */
  function ToLe(n: nat, k: nat): (b: bytes)
    ensures |b| == k
  {
    if k == 0 then [] else [n % 256] + ToLe(n / 256, k - 1)
  }

  /** The integer whose little-endian bytes are `b` (`from_le_bytes`). */
  function FromLe(b: bytes): nat {
    if b == [] then 0 else b[0] + 256 * FromLe(b[1..])
  }

  lemma {:induction false} FromToLe(n: nat, k: nat)
    requires n < Pow256(k)
    ensures FromLe(ToLe(n, k)) == n
  {
    if k == 0 {
      assert n == 0;
    } else {
      FromToLe(n / 256, k - 1);
      assert ToLe(n, k)[1..] == ToLe(n / 256, k - 1);
    }
  }

  lemma AtLeastOnce(d: nat, k: int)
    requires k >= 1
    ensures d * k >= d
  {
    assert d * k == d + d * (k - 1);
  }

  lemma SameQuotient(d: nat, q: int, r: nat, q': int, r': nat)
    requires d * q + r == d * q' + r' && r < d && r' < d
    ensures q == q'
  {
    if q > q' {
      AtLeastOnce(d, q - q');
    } else if q < q' {
      AtLeastOnce(d, q' - q);
    }
  }

  lemma DivideTwice(n: int, d: nat)
    requires d >= 1
    ensures n / 256 / d == n / (256 * d)
  {
    var q, r := n / 256 / d, 256 * (n / 256 % d) + n % 256;
    var e := 256 * d;
    assert n == e * q + r by {
      assert n / 256 == d * q + n / 256 % d;
      assert 256 * (d * q) == e * q;
    }
    SameQuotient(e, q, r, n / e, n % e);
  }

  /** Byte `i` of an integer is its digit of weight 256^i. */
  lemma {:induction false} ToLeDigits(n: nat, k: nat, i: nat)
    requires i < k
    ensures ToLe(n, k)[i] == n / Pow256(i) % 256
  {
    if i == 0 {
      assert n / 1 == n;
    } else {
      ToLeDigits(n / 256, k - 1, i - 1);
      DivideTwice(n, Pow256(i - 1));
    }
  }

  lemma {:induction false} ToFromLe(b: bytes)
    ensures FromLe(b) < Pow256(|b|) && ToLe(FromLe(b), |b|) == b
  {
    if b == [] {
      assert ToLe(0, 0) == [];
    } else {
      ToFromLe(b[1..]);
      assert b == [b[0]] + b[1..];
    }
  }

  lemma PowersOf256()
    ensures Pow256(1) == 256 && Pow256(2) == 65536 && Pow256(4) == 0x1_0000_0000
    ensures Pow256(8) == 0x1_0000_0000_0000_0000
  {
    assert Pow256(2) == 256 * Pow256(1);
    assert Pow256(3) == 256 * Pow256(2);
    assert Pow256(4) == 256 * Pow256(3);
    assert Pow256(5) == 256 * Pow256(4);
    assert Pow256(6) == 256 * Pow256(5);
    assert Pow256(7) == 256 * Pow256(6);
    assert Pow256(8) == 256 * Pow256(7);
  }

  /** All the bytes of a list of writes or regions, in order. */
  function Concat(chunks: seq<bytes>): bytes {
    if chunks == [] then [] else chunks[0] + Concat(chunks[1..])
  }

  lemma {:induction false} ConcatAppend(a: seq<bytes>, b: seq<bytes>)
    ensures Concat(a + b) == Concat(a) + Concat(b)
  {
    if a == [] {
      assert a + b == b;
    } else {
      assert (a + b)[1..] == a[1..] + b;
      ConcatAppend(a[1..], b);
    }
  }

  lemma Associate<T>(a: seq<T>, b: seq<T>, c: seq<T>)
    ensures a + b + c == a + (b + c)
  {
  }
}
