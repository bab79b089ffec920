/** Text as bytes: UTF-8 (RFC 3629), and the lossy reading that never fails. */
module Unicode {
  import opened Bytes
  import opened Keys

  // ---- Encoding (section 3) ----

  function EncodeChar(c: char): (bytes: seq<byte>)
    ensures 1 <= |bytes| <= 4
  {
    var n := c as int;
    if n < 0x80 then [n as byte]
    else if n < 0x800 then [(0xC0 + n / 0x40) as byte, (0x80 + n % 0x40) as byte]
    else if n < 0x10000 then
      [(0xE0 + n / 0x1000) as byte, (0x80 + n / 0x40 % 0x40) as byte, (0x80 + n % 0x40) as byte]
    else
      [(0xF0 + n / 0x40000) as byte, (0x80 + n / 0x1000 % 0x40) as byte,
       (0x80 + n / 0x40 % 0x40) as byte, (0x80 + n % 0x40) as byte]
  }

  function Encode(s: string): seq<byte> {
    if s == [] then [] else EncodeChar(s[0]) + Encode(s[1..])
  }

  // ---- The grammar of valid bytes (section 4) ----

  predicate Tail(b: byte) {
    0x80 <= b <= 0xBF
  }

  predicate ValidUtf8(s: seq<byte>) {
    if s == [] then true
    else if s[0] <= 0x7F then ValidUtf8(s[1..])
    else if 0xC2 <= s[0] <= 0xDF then |s| >= 2 && Tail(s[1]) && ValidUtf8(s[2..])
    else if 0xE0 <= s[0] <= 0xEF then
      && |s| >= 3 && Tail(s[1]) && Tail(s[2])
      && (s[0] == 0xE0 ==> s[1] >= 0xA0) && (s[0] == 0xED ==> s[1] <= 0x9F)
      && ValidUtf8(s[3..])
    else if 0xF0 <= s[0] <= 0xF4 then
      && |s| >= 4 && Tail(s[1]) && Tail(s[2]) && Tail(s[3])
      && (s[0] == 0xF0 ==> s[1] >= 0x90) && (s[0] == 0xF4 ==> s[1] <= 0x8F)
      && ValidUtf8(s[4..])
    else false
  }

  // ---- Lossy reading ----

  const REPLACEMENT: char := 0xFFFD as char

  /** How many bytes a character has that starts with `b`; 0 if none does. */
  function Width(b: byte): nat {
    if b <= 0x7F then 1
    else if 0xC2 <= b <= 0xDF then 2
    else if 0xE0 <= b <= 0xEF then 3
    else if 0xF0 <= b <= 0xF4 then 4
    else 0
  }

  predicate Second(b: byte, second: byte) {
    && Tail(second)
    && (b == 0xE0 ==> second >= 0xA0) && (b == 0xED ==> second <= 0x9F)
    && (b == 0xF0 ==> second >= 0x90) && (b == 0xF4 ==> second <= 0x8F)
  }

  /** How many bytes the reading takes next, and whether they are a character. Otherwise they are a
      start of one that does not go on, or a byte that starts none. */
  function Take(s: seq<byte>): (r: (nat, bool))
    requires s != []
    ensures 1 <= r.0 <= |s|
  {
    var w := Width(s[0]);
    if w <= 1 then (1, w == 1)
    else if |s| < 2 || !Second(s[0], s[1]) then (1, false)
    else if w == 2 then (2, true)
    else if |s| < 3 || !Tail(s[2]) then (2, false)
    else if w == 3 then (3, true)
    else if |s| < 4 || !Tail(s[3]) then (3, false)
    else (4, true)
  }

  function Six(b: byte): (n: nat)
    ensures n < 0x40 && (Tail(b) ==> n == b as int - 0x80)
  {
    b as int % 0x40
  }

  function CharAt(s: seq<byte>): char
    requires s != [] && Take(s).1
  {
    match Take(s).0
    case 1 => s[0] as char
    case 2 => ((s[0] as int - 0xC0) * 0x40 + Six(s[1])) as char
    case 3 => ((s[0] as int - 0xE0) * 0x1000 + Six(s[1]) * 0x40 + Six(s[2])) as char
    case _ => ((s[0] as int - 0xF0) * 0x40000 + Six(s[1]) * 0x1000 + Six(s[2]) * 0x40 + Six(s[3])) as char
  }

  /** Each piece that is no character becomes one replacement character. */
  function Lossy(s: seq<byte>): string {
    if s == [] then ""
    else
      var (n, ok) := Take(s);
      [if ok then CharAt(s) else REPLACEMENT] + Lossy(s[n..])
  }

  /** The digits of a number in base 64. */
  lemma Digits64(n: nat)
    ensures n == n / 0x40 * 0x40 + n % 0x40
    ensures n / 0x40 == n / 0x1000 * 0x40 + n / 0x40 % 0x40
    ensures n / 0x1000 == n / 0x40000 * 0x40 + n / 0x1000 % 0x40
  {
  }

  lemma TakeTwo(c: char, rest: seq<byte>)
    requires 0x80 <= c as int < 0x800
    ensures var s := EncodeChar(c) + rest;
            Take(s) == (2, true) && CharAt(s) == c
  {
    var n, s := c as int, EncodeChar(c) + rest;
    Digits64(n);
    assert s[0] as int == 0xC0 + n / 0x40 && s[1] as int == 0x80 + n % 0x40;
  }

  lemma TakeThree(c: char, rest: seq<byte>)
    requires 0x800 <= c as int < 0x10000
    ensures var s := EncodeChar(c) + rest;
            Take(s) == (3, true) && CharAt(s) == c
  {
    var n, s := c as int, EncodeChar(c) + rest;
    Digits64(n);
    assert s[0] as int == 0xE0 + n / 0x1000 && s[1] as int == 0x80 + n / 0x40 % 0x40 && s[2] as int == 0x80 + n % 0x40;
  }

  lemma TakeFour(c: char, rest: seq<byte>)
    requires 0x10000 <= c as int
    ensures var s := EncodeChar(c) + rest;
            Take(s) == (4, true) && CharAt(s) == c
  {
    var n, s := c as int, EncodeChar(c) + rest;
    Digits64(n);
    assert s[0] as int == 0xF0 + n / 0x40000 && s[1] as int == 0x80 + n / 0x1000 % 0x40
           && s[2] as int == 0x80 + n / 0x40 % 0x40 && s[3] as int == 0x80 + n % 0x40;
  }

  lemma TakeEncoded(c: char, rest: seq<byte>)
    ensures var s := EncodeChar(c) + rest;
            Take(s) == (|EncodeChar(c)|, true) && CharAt(s) == c
  {
    if 0x10000 <= c as int {
      TakeFour(c, rest);
    } else if 0x800 <= c as int {
      TakeThree(c, rest);
    } else if 0x80 <= c as int {
      TakeTwo(c, rest);
    }
  }

  /** A number is determined by its digits in base 64. */
  lemma FromDigits64(a: nat, b: nat, c: nat, d: nat)
    requires b < 0x40 && c < 0x40 && d < 0x40
    ensures var n := a * 0x40000 + b * 0x1000 + c * 0x40 + d;
            n / 0x40000 == a && n / 0x1000 % 0x40 == b && n / 0x40 % 0x40 == c && n % 0x40 == d
  {
    var m := a * 0x40 + b;
    var k := m * 0x40 + c;
    var n := k * 0x40 + d;
    LastDigit(a, b);
    LastDigit(m, c);
    LastDigit(k, d);
    assert n / 0x1000 == n / 0x40 / 0x40 && n / 0x40000 == n / 0x1000 / 0x40;
  }

  lemma LastDigit(n: nat, digit: nat)
    requires digit < 0x40
    ensures (n * 0x40 + digit) / 0x40 == n && (n * 0x40 + digit) % 0x40 == digit
  {
  }

  lemma EncodeTwo(s: seq<byte>)
    requires s != [] && Take(s) == (2, true)
    ensures EncodeChar(CharAt(s)) == [s[0], s[1]]
  {
    FromDigits64(0, 0, s[0] as int - 0xC0, Six(s[1]));
    assert 0x80 <= CharAt(s) as int < 0x800;
  }

  lemma EncodeThree(s: seq<byte>)
    requires s != [] && Take(s) == (3, true)
    ensures EncodeChar(CharAt(s)) == [s[0], s[1], s[2]]
  {
    FromDigits64(0, s[0] as int - 0xE0, Six(s[1]), Six(s[2]));
    assert 0x800 <= CharAt(s) as int < 0x10000;
  }

  lemma EncodeFour(s: seq<byte>)
    requires s != [] && Take(s) == (4, true)
    ensures EncodeChar(CharAt(s)) == [s[0], s[1], s[2], s[3]]
  {
    FromDigits64(s[0] as int - 0xF0, Six(s[1]), Six(s[2]), Six(s[3]));
    assert 0x10000 <= CharAt(s) as int;
  }

  lemma EncodeTaken(s: seq<byte>)
    requires s != [] && Take(s).1
    ensures EncodeChar(CharAt(s)) == s[..Take(s).0]
  {
    match Take(s).0 {
      case 1 =>
      case 2 => EncodeTwo(s);
      case 3 => EncodeThree(s);
      case _ => EncodeFour(s);
    }
  }

  lemma {:induction false} ValidTakes(s: seq<byte>)
    requires s != []
    ensures ValidUtf8(s) <==> Take(s).1 && ValidUtf8(s[Take(s).0..])
  {
  }

  // ---- What is replaced ----

  ghost predicate BeginsChar(bytes: seq<byte>) {
    exists c: char :: bytes <= EncodeChar(c)
  }

  lemma CharTaken(s: seq<byte>, c: char)
    requires EncodeChar(c) <= s
    ensures Take(s) == (|EncodeChar(c)|, true) && CharAt(s) == c
  {
    TakeEncoded(c, s[|EncodeChar(c)|..]);
    assert s == EncodeChar(c) + s[|EncodeChar(c)|..];
  }

  lemma PieceBegins(s: seq<byte>)
    requires s != [] && !Take(s).1 && Take(s).0 > 1
    ensures BeginsChar(s[..Take(s).0])
  {
    var n := Take(s).0;
    var t := s[..n] + if Width(s[0]) == n + 1 then [0x80] else [0x80, 0x80];
    assert Take(t).1 && Take(t).0 == |t|;
    EncodeTaken(t);
    assert t[..|t|] == t && s[..n] <= EncodeChar(CharAt(t));
  }

  lemma PieceGoesThatFar(s: seq<byte>, m: nat, c: char)
    requires 1 <= m <= |s| && s[..m] <= EncodeChar(c)
    ensures Take(s).1 || Take(s).0 >= m
  {
    var e := EncodeChar(c);
    CharTaken(e, c);
    assert forall i :: 0 <= i < m ==> s[i] == s[..m][i] == e[i];
  }

  /** If the bytes start with a character, the reading takes it; if not, it takes the longest piece
      that begins one, or one byte, for a replacement character. */
  lemma LossyPieces(s: seq<byte>) returns (n: nat)
    requires s != []
    ensures 1 <= n <= |s|
    ensures forall c: char :: EncodeChar(c) <= s ==> Lossy(s) == [c] + Lossy(s[|EncodeChar(c)|..])
    ensures (forall c: char :: !(EncodeChar(c) <= s)) ==>
              && Lossy(s) == ['\U{FFFD}'] + Lossy(s[n..])
              && (n > 1 ==> BeginsChar(s[..n])) && forall m :: n < m <= |s| ==> !BeginsChar(s[..m])
  {
    n := Take(s).0;
    forall c: char | EncodeChar(c) <= s
      ensures Lossy(s) == [c] + Lossy(s[|EncodeChar(c)|..])
    {
      CharTaken(s, c);
    }
    if Take(s).1 {
      EncodeTaken(s);
      assert EncodeChar(CharAt(s)) <= s;
    } else {
      if n > 1 { PieceBegins(s); }
      forall m | n < m <= |s|
        ensures !BeginsChar(s[..m])
      {
        if c: char :| s[..m] <= EncodeChar(c) {
          PieceGoesThatFar(s, m, c);
        }
      }
    }
  }

  /** Text is read back from its bytes, which are valid. */
  lemma {:induction false} LossyEncode(s: string)
    ensures ValidUtf8(Encode(s)) && Lossy(Encode(s)) == s
  {
    if s != [] {
      var rest := Encode(s[1..]);
      LossyEncode(s[1..]);
      TakeEncoded(s[0], rest);
      ValidTakes(Encode(s));
      assert Encode(s)[|EncodeChar(s[0])|..] == rest;
    }
  }

  lemma {:induction false} EncodeLossy(s: seq<byte>)
    requires ValidUtf8(s)
    ensures Encode(Lossy(s)) == s
  {
    if s != [] {
      ValidTakes(s);
      var n := Take(s).0;
      EncodeTaken(s);
      var rest := Lossy(s[n..]);
      EncodeLossy(s[n..]);
      assert Lossy(s) == [CharAt(s)] + rest && Lossy(s)[1..] == rest;
      assert s == s[..n] + s[n..];
    }
  }

  /** The text read from some bytes stands for just these bytes exactly if they are valid: otherwise
      something was replaced. */
  lemma {:induction false} LossyExactly(s: seq<byte>)
    ensures Encode(Lossy(s)) == s <==> ValidUtf8(s)
  {
    if ValidUtf8(s) {
      EncodeLossy(s);
    } else {
      LossyEncode(Lossy(s));
    }
  }

  lemma {:induction false} EncodeInjective(s: string, t: string)
    ensures Encode(s) == Encode(t) <==> s == t
  {
    LossyEncode(s);
    LossyEncode(t);
  }

  // ---- Order ----

  lemma {:induction false} LexStep(x: byte, a: seq<byte>, y: byte, b: seq<byte>)
    ensures Lex([x] + a, [y] + b) <==> x < y || (x == y && Lex(a, b))
  {
    assert ([x] + a)[1..] == a && ([y] + b)[1..] == b;
  }

  lemma LexTwo(x: byte, x': byte, y: byte, y': byte)
    ensures Lex([x, x'], [y, y']) <==> x < y || (x == y && x' < y')
  {
    assert [x, x'] == [x] + [x'] && [y, y'] == [y] + [y'] && [x'] == [x'] + [] && [y'] == [y'] + [];
    LexStep(x', [], y', []);
    LexStep(x, [x'], y, [y']);
  }

  lemma {:induction false} LexThree(a: seq<byte>, b: seq<byte>)
    requires |a| == |b| == 3
    ensures Lex(a, b) <==> a[0] < b[0] || (a[0] == b[0] && (a[1] < b[1] || (a[1] == b[1] && a[2] < b[2])))
  {
    LexTwo(a[1], a[2], b[1], b[2]);
    LexStep(a[0], [a[1], a[2]], b[0], [b[1], b[2]]);
    assert a == [a[0]] + [a[1], a[2]] && b == [b[0]] + [b[1], b[2]];
  }

  lemma {:induction false} LexFour(a: seq<byte>, b: seq<byte>)
    requires |a| == |b| == 4
    ensures Lex(a, b) <==> a[0] < b[0] || (a[0] == b[0] && Lex(a[1..], b[1..]))
  {
  }

  /** The order of characters is the order of their bytes. */
  lemma EncodeKeepsOrder(c: char, d: char)
    requires c < d
    ensures Lex(EncodeChar(c), EncodeChar(d))
  {
    var a, b, n, m := EncodeChar(c), EncodeChar(d), c as int, d as int;
    Digits64(n);
    Digits64(m);
    if |a| == |b| == 4 {
      LexFour(a, b);
      LexThree(a[1..], b[1..]);
    } else if |a| == |b| == 3 {
      LexThree(a, b);
    } else if |a| == |b| == 2 {
      LexTwo(a[0], a[1], b[0], b[1]);
    }
  }
}
