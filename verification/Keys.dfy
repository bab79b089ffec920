/**
 Keys and values of the B-tree.

 The source compares keys as byte strings. All keys here are 32 bytes long, so a key is the number
 that its bytes write in base 256, most significant first: LexIsNumeric shows that the two orders,
 and equality, are the same.
 */
module Keys {
  import opened Bytes

  const KEY_SIZE: nat := 32
  const VALUE_SIZE: nat := 64
  const KEY_LIMIT: int := 0x1_0000000000000000_0000000000000000_0000000000000000_0000000000000000

  type Key = k: int | 0 <= k < KEY_LIMIT

  /** What a slot of `width` bytes holds after writing `bytes`: cut off, or padded with zeros. */
  function Slotted(width: nat, bytes: seq<byte>): (slot: seq<byte>)
    ensures |slot| == width
  {
    if |bytes| >= width then bytes[..width] else bytes + seq(width - |bytes|, _ => 0)
  }

  /** Values are what a value slot holds. */
  type Value = v: seq<byte> | |v| == VALUE_SIZE witness Slotted(VALUE_SIZE, [])

  function Blank(): Value {
    Slotted(VALUE_SIZE, [])
  }

  /** The order of byte strings: by the first difference, a proper prefix first. */
  predicate Lex(a: seq<byte>, b: seq<byte>) {
    if b == [] then false
    else if a == [] then true
    else a[0] < b[0] || (a[0] == b[0] && Lex(a[1..], b[1..]))
  }

  function Number(k: seq<byte>): nat {
    if k == [] then 0 else k[0] as int * Pow256(|k| - 1) + Number(k[1..])
  }

  lemma {:induction false} NumberBound(k: seq<byte>)
    ensures Number(k) < Pow256(|k|)
  {
    if k != [] {
      NumberBound(k[1..]);
      Digit(k[0] as int, 256, Pow256(|k| - 1));
    }
  }

  lemma {:induction false} LexIsNumeric(a: seq<byte>, b: seq<byte>)
    requires |a| == |b|
    ensures Lex(a, b) <==> Number(a) < Number(b)
    ensures a == b <==> Number(a) == Number(b)
  {
    if a != [] {
      LexIsNumeric(a[1..], b[1..]);
      NumberBound(a[1..]);
      NumberBound(b[1..]);
      var p := Pow256(|a| - 1);
      Digit(a[0] as int, b[0] as int, p);
      Digit(b[0] as int, a[0] as int, p);
      assert a == [a[0]] + a[1..] && b == [b[0]] + b[1..];
    }
  }

  lemma {:induction false} Digit(x: nat, y: nat, p: nat)
    ensures x < y ==> x * p + p <= y * p
    decreases y
  {
    if x < y {
      Digit(x, y - 1, p);
      assert y * p == (y - 1) * p + p;
    }
  }

  /** The `n` bytes that write `v`, most significant first. */
  function Digits(n: nat, v: nat): (b: seq<byte>)
    requires v < Pow256(n)
    ensures |b| == n
    decreases n, v
  {
    if n == 0 then []
    else
      var p := Pow256(n - 1);
      TopDigit(v, p);
      [(v / p) as byte] + Digits(n - 1, v % p)
  }

  lemma TopDigit(v: nat, p: nat)
    requires p > 0 && v < 256 * p
    ensures v / p < 256 && v == v / p * p + v % p
  {
  }

  lemma {:induction false} NumberOfDigits(n: nat, v: nat)
    requires v < Pow256(n)
    ensures Number(Digits(n, v)) == v
  {
    if n > 0 {
      var p := Pow256(n - 1);
      TopDigit(v, p);
      NumberOfDigits(n - 1, v % p);
      assert Digits(n, v)[1..] == Digits(n - 1, v % p);
    }
  }

  lemma EightMore(n: nat)
    ensures Pow256(n + 8) == U64 * Pow256(n)
  {
    assert Pow256(n + 2) == 0x1_0000 * Pow256(n);
    assert Pow256(n + 4) == 0x1_0000 * Pow256(n + 2);
    assert Pow256(n + 6) == 0x1_0000 * Pow256(n + 4);
    assert Pow256(n + 8) == 0x1_0000 * Pow256(n + 6);
  }

  lemma Limit()
    ensures Pow256(KEY_SIZE) == KEY_LIMIT
  {
    EightMore(0);
    EightMore(8);
    EightMore(16);
    EightMore(24);
  }

  /** The key that 32 bytes write. */
  function KeyOf(bytes: seq<byte>): (k: Key)
    requires |bytes| == KEY_SIZE
    ensures k == Number(bytes)
  {
    NumberBound(bytes);
    Limit();
    Number(bytes)
  }

  function BytesOf(k: Key): (bytes: seq<byte>)
    ensures |bytes| == KEY_SIZE && KeyOf(bytes) == k
  {
    Limit();
    NumberOfDigits(KEY_SIZE, k);
    Digits(KEY_SIZE, k)
  }

  /** Every key is written by exactly one 32-byte string. */
  lemma OneWriting(k: Key, bytes: seq<byte>)
    requires |bytes| == KEY_SIZE
    ensures KeyOf(bytes) == k <==> bytes == BytesOf(k)
  {
    LexIsNumeric(bytes, BytesOf(k));
  }

  // ---- Byte strings of other lengths beside keys ----

  function Zeros(n: nat): (z: seq<byte>)
    ensures |z| == n
  {
    if n == 0 then [] else [0] + Zeros(n - 1)
  }

  /** A string padded with zeros to `n` bytes. */
  function Padded(n: nat, s: seq<byte>): (p: seq<byte>)
    requires |s| <= n
    ensures |p| == n
  {
    s + Zeros(n - |s|)
  }

  lemma {:induction false} NothingBelowZeros(k: seq<byte>)
    ensures !Lex(k, Zeros(|k|))
  {
    if k != [] {
      NothingBelowZeros(k[1..]);
      assert Zeros(|k|)[1..] == Zeros(|k| - 1);
    }
  }

  /** A shorter string lies just before itself padded. */
  lemma {:induction false} ShorterBound(k: seq<byte>, s: seq<byte>)
    requires |s| < |k|
    ensures Lex(k, s) <==> Lex(k, Padded(|k|, s))
    ensures Lex(s, k) <==> !Lex(k, Padded(|k|, s))
  {
    var p := Padded(|k|, s);
    if s == [] {
      assert p == Zeros(|k|);
      NothingBelowZeros(k);
    } else {
      assert p[0] == s[0] && p[1..] == Padded(|k| - 1, s[1..]);
      ShorterBound(k[1..], s[1..]);
    }
  }

  /** A longer string lies just after its first bytes. */
  lemma {:induction false} LongerBound(k: seq<byte>, s: seq<byte>)
    requires |s| > |k|
    ensures Lex(s, k) <==> Lex(s[..|k|], k)
    ensures Lex(k, s) <==> !Lex(s[..|k|], k)
  {
    if k != [] {
      assert s[..|k|][1..] == s[1..][..|k| - 1];
      LongerBound(k[1..], s[1..]);
    }
  }

  lemma {:induction false} ZerosAreSlotted(n: nat)
    ensures Zeros(n) == seq(n, _ => 0)
  {
    if n > 0 {
      ZerosAreSlotted(n - 1);
      assert seq(n, _ => 0 as byte) == [0] + seq(n - 1, _ => 0);
    }
  }

  lemma PaddedIsSlotted(s: seq<byte>)
    requires |s| <= KEY_SIZE
    ensures Padded(KEY_SIZE, s) == Slotted(KEY_SIZE, s)
  {
    ZerosAreSlotted(KEY_SIZE - |s|);
    if |s| == KEY_SIZE {
      assert s[..KEY_SIZE] == s;
    }
  }

  /** The least number that a key not below `s` has, and the greatest that a key not above `s` has. */
  function LowBound(s: seq<byte>): int {
    KeyOf(Slotted(KEY_SIZE, s)) + if |s| > KEY_SIZE then 1 else 0
  }

  function HighBound(s: seq<byte>): int {
    KeyOf(Slotted(KEY_SIZE, s)) - if |s| < KEY_SIZE then 1 else 0
  }

  /** Comparing a key with a byte string of any length is comparing numbers. */
  lemma {:induction false} Bounds(k: seq<byte>, s: seq<byte>)
    requires |k| == KEY_SIZE
    ensures !Lex(k, s) <==> LowBound(s) <= KeyOf(k)
    ensures !Lex(s, k) <==> KeyOf(k) <= HighBound(s)
  {
    var p := Slotted(KEY_SIZE, s);
    LexIsNumeric(k, p);
    LexIsNumeric(p, k);
    if |s| < KEY_SIZE {
      PaddedIsSlotted(s);
      ShorterBound(k, s);
    } else if |s| > KEY_SIZE {
      LongerBound(k, s);
    } else {
      assert p == s;
    }
  }
}
