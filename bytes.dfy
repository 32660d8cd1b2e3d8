/** Raw byte-level pieces of the wire format: the byte type, the size_t count
    prefix written in host (little-endian) order, C strlen, and the single raw
    block a vector of POD elements is written as. */
module Bytes {

  newtype byte = x: int | 0 <= x < 256

  /** sizeof(size_t) on the 64-bit host the format was written for. */
  const SizeTWidth: nat := 8

  function Pow256(k: nat): (p: nat)
    ensures p >= 1
  {
    if k == 0 then 1 else 256 * Pow256(k - 1)
  }

  /** One more than the largest value a size_t holds. */
  const SizeTLimit: nat := Pow256(SizeTWidth)

  /** The k-byte little-endian image of n (only the low 8*k bits survive). */
  function LittleEndian(n: nat, k: nat): (r: seq<byte>)
    ensures |r| == k
  {
    if k == 0 then [] else [(n % 256) as byte] + LittleEndian(n / 256, k - 1)
  }

  /** The natural number a little-endian byte string denotes. */
  function FromLittleEndian(bs: seq<byte>): (n: nat)
    ensures n < Pow256(|bs|)
  {
    if bs == [] then 0
    else
      var m := FromLittleEndian(bs[1..]);
      assert 256 * m <= 256 * (Pow256(|bs| - 1) - 1);
      bs[0] as nat + 256 * m
  }

  /** Taking n apart by 256: its remainder by 256 * p is its low byte plus
      256 times the remainder of the rest by p. */
  lemma ModSplit(n: nat, p: nat)
    requires p >= 1
    ensures n % (256 * p) == n % 256 + 256 * ((n / 256) % p)
  {
    var a, q := n % 256, n / 256;
    var b, c := q / p, q % p;
    assert n == (256 * p) * b + (256 * c + a);
    assert 0 <= 256 * c + a < 256 * p;
    DivModUnique(n, 256 * p, b, 256 * c + a);
  }

  lemma DivModUnique(n: nat, m: nat, b: nat, r: nat)
    requires m > 0 && n == m * b + r && r < m
    ensures n % m == r
  {
    var b', r' := n / m, n % m;
    if b >= b' {
      var d: nat := b - b';
      assert m * d == r' - r;
      SmallMultipleIsZero(m, d);
    } else {
      var d: nat := b' - b;
      assert m * d == r - r';
      SmallMultipleIsZero(m, d);
    }
  }

  lemma SmallMultipleIsZero(m: nat, d: nat)
    requires m > 0 && m * d < m
    ensures d == 0
  {
    if d > 0 {
      assert false;
    }
  }

  /** The k-byte image keeps exactly the low 8 * k bits of n. */
  lemma {:induction false} FromLittleEndianOfLittleEndian(n: nat, k: nat)
    ensures FromLittleEndian(LittleEndian(n, k)) == n % Pow256(k)
  {
    if k > 0 {
      var r := LittleEndian(n, k);
      assert r[1..] == LittleEndian(n / 256, k - 1);
      FromLittleEndianOfLittleEndian(n / 256, k - 1);
      ModSplit(n, Pow256(k - 1));
    }
  }

  lemma {:induction false} LittleEndianOfFromLittleEndian(bs: seq<byte>)
    ensures LittleEndian(FromLittleEndian(bs), |bs|) == bs
  {
    if bs != [] {
      var n := FromLittleEndian(bs);
      assert n % 256 == bs[0] as nat && n / 256 == FromLittleEndian(bs[1..]);
      LittleEndianOfFromLittleEndian(bs[1..]);
    }
  }

  /** How a size_t count (vector::size(), string::size(), strlen) is written:
      it reads back modulo 2^64, so every count a size_t holds reads back
      unchanged. */
  function CountBytes(n: nat): (r: seq<byte>)
    ensures |r| == SizeTWidth
    ensures FromLittleEndian(r) == n % SizeTLimit
    ensures n < SizeTLimit ==> FromLittleEndian(r) == n
  {
    FromLittleEndianOfLittleEndian(n, SizeTWidth);
    LittleEndian(n, SizeTWidth)
  }

  /** strlen: the index of the first NUL in a null-terminated buffer. */
  function StrLen(mem: seq<byte>): (n: nat)
    requires 0 in mem
    ensures n < |mem| && mem[n] == 0
    ensures forall i | 0 <= i < n :: mem[i] != 0
  {
    if mem[0] == 0 then 0 else 1 + StrLen(mem[1..])
  }

  /** The contiguous storage of a vector of byte strings (vector::data()). */
  function Flatten(chunks: seq<seq<byte>>): (r: seq<byte>)
  {
    if chunks == [] then [] else chunks[0] + Flatten(chunks[1..])
  }

  /** Reinterprets a block of n * w bytes as n elements of w bytes each. */
  function Split(block: seq<byte>, w: nat, n: nat): (r: seq<seq<byte>>)
    requires |block| == n * w
    ensures |r| == n
    ensures forall i | 0 <= i < n :: |r[i]| == w
    ensures Flatten(r) == block
  {
    if n == 0 then []
    else
      assert |block| == (n - 1) * w + w;
      var rest := Split(block[w..], w, n - 1);
      assert ([block[..w]] + rest)[1..] == rest;
      [block[..w]] + rest
  }

  lemma {:induction false} FlattenLength(chunks: seq<seq<byte>>, w: nat)
    requires forall i | 0 <= i < |chunks| :: |chunks[i]| == w
    ensures |Flatten(chunks)| == |chunks| * w
  {
    if chunks != [] {
      FlattenLength(chunks[1..], w);
      assert |Flatten(chunks)| == w + (|chunks| - 1) * w;
    }
  }

  /** Splitting the storage of equally wide elements gives the elements back. */
  lemma {:induction false} SplitFlatten(chunks: seq<seq<byte>>, w: nat)
    requires forall i | 0 <= i < |chunks| :: |chunks[i]| == w
    ensures |Flatten(chunks)| == |chunks| * w
    ensures Split(Flatten(chunks), w, |chunks|) == chunks
  {
    FlattenLength(chunks, w);
    if chunks != [] {
      var f := Flatten(chunks);
      assert f[..w] == chunks[0];
      assert f[w..] == Flatten(chunks[1..]);
      SplitFlatten(chunks[1..], w);
    }
  }
}
