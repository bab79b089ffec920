/** Bytes, and integers as little-endian bytes. */
module Bytes {
  newtype byte = x: int | 0 <= x < 256

  const U32: nat := 0x1_0000_0000
  const U64: nat := 0x1_0000_0000_0000_0000

  lemma Assoc<T>(a: seq<T>, b: seq<T>, c: seq<T>)
    ensures (a + b) + c == a + (b + c)
  {
  }

  lemma Join<T>(b: seq<T>, i: nat, j: nat, k: nat)
    requires i <= j <= k <= |b|
    ensures b[i..j] + b[j..k] == b[i..k]
  {
  }

  lemma Suffix<T>(b: seq<T>, i: nat, n: nat)
    requires i + n <= |b|
    ensures b[i..][n..] == b[i + n..]
  {
  }

  lemma Slice<T>(b: seq<T>, i: nat, j: nat, k: nat)
    requires i <= |b| && j <= k <= |b| - i
    ensures b[i..][j..k] == b[i + j..i + k]
  {
  }

  /** The middle of three pieces. */
  lemma Middle<T>(a: seq<T>, b: seq<T>, c: seq<T>)
    ensures (a + b + c)[|a|..|a| + |b|] == b && (a + b + c)[|a| + |b|..] == c
  {
  }

  lemma Split<T>(a: seq<T>, b: seq<T>)
    ensures (a + b)[..|a|] == a && (a + b)[|a|..] == b
  {
  }

  function Pow256(n: nat): (p: nat)
    ensures p >= 1
  {
    if n == 0 then 1 else 256 * Pow256(n - 1)
  }

  // ---- Little-endian numbers ----

  /** The `n` low bytes of `v`, least significant first. */
  function ToLe(n: nat, v: nat): (b: seq<byte>)
    ensures |b| == n
    decreases n, v
  {
    if n == 0 then [] else [(v % 256) as byte] + ToLe(n - 1, v / 256)
  }

  function FromLe(b: seq<byte>): nat {
    if b == [] then 0 else b[0] as nat + 256 * FromLe(b[1..])
  }

  lemma {:induction false} FromToLe(n: nat, v: nat)
    requires v < Pow256(n)
    ensures FromLe(ToLe(n, v)) == v
  {
    if n > 0 {
      FromToLe(n - 1, v / 256);
      assert ToLe(n, v)[1..] == ToLe(n - 1, v / 256);
    }
  }

  lemma {:induction false} LeBound(b: seq<byte>)
    ensures FromLe(b) < Pow256(|b|)
  {
    if b != [] {
      LeBound(b[1..]);
    }
  }

  lemma {:induction false} ToFromLe(b: seq<byte>)
    ensures ToLe(|b|, FromLe(b)) == b
  {
    if b != [] {
      ToFromLe(b[1..]);
      var v := FromLe(b);
      assert v % 256 == b[0] as nat && v / 256 == FromLe(b[1..]);
      assert b == [b[0]] + b[1..];
    }
  }

  lemma Widths()
    ensures Pow256(4) == U32 && Pow256(8) == U64
  {
    assert Pow256(2) == 0x1_0000;
    assert Pow256(4) == 256 * (256 * Pow256(2));
    assert Pow256(6) == 256 * (256 * Pow256(4));
    assert Pow256(8) == 256 * (256 * Pow256(6));
  }

  lemma {:induction false} LeInjective(n: nat, v: nat, w: nat)
    requires v < Pow256(n) && w < Pow256(n) && ToLe(n, v) == ToLe(n, w)
    ensures v == w
  {
    FromToLe(n, v);
    FromToLe(n, w);
  }

  /** The number that some bytes are the little-endian form of. Specifications use this rather than
      FromLe, which computes it. */
  ghost function Read(b: seq<byte>): (v: nat)
    ensures v < Pow256(|b|) && ToLe(|b|, v) == b
  {
    LeBound(b);
    ToFromLe(b);
    var v: nat :| v < Pow256(|b|) && ToLe(|b|, v) == b;
    v
  }

  lemma {:induction false} FromLeReads(b: seq<byte>)
    ensures FromLe(b) == Read(b)
  {
    LeBound(b);
    ToFromLe(b);
    LeInjective(|b|, FromLe(b), Read(b));
  }

  function Le32(v: nat): (b: seq<byte>)
    requires v < U32
    ensures |b| == 4 && Read32(b) == v
  {
    Widths();
    var b := ToLe(4, v);
    LeInjective(4, v, Read(b));
    b
  }

  ghost function Read32(b: seq<byte>): (v: nat)
    requires |b| == 4
    ensures v < U32
  {
    Widths();
    Read(b)
  }

  lemma Le32Of(b: seq<byte>)
    requires |b| == 4
    ensures Le32(Read32(b)) == b
  {
  }

  function Le64(v: nat): (b: seq<byte>)
    requires v < U64
    ensures |b| == 8 && Read64(b) == v
  {
    Widths();
    var b := ToLe(8, v);
    LeInjective(8, v, Read(b));
    b
  }

  ghost function Read64(b: seq<byte>): (v: nat)
    requires |b| == 8
    ensures v < U64
  {
    Widths();
    Read(b)
  }

  lemma Le64Of(b: seq<byte>)
    requires |b| == 8
    ensures Le64(Read64(b)) == b
  {
  }

  method ParseLe32(b: seq<byte>) returns (v: nat)
    requires |b| == 4
    ensures v == Read32(b)
  {
    FromLeReads(b);
    v := FromLe(b);
  }

  method ParseLe64(b: seq<byte>) returns (v: nat)
    requires |b| == 8
    ensures v == Read64(b)
  {
    FromLeReads(b);
    v := FromLe(b);
  }
}
