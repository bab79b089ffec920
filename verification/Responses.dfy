/**
 Responses on the wire: the server's encoder and the client's recursive parser.

 Strings are their bytes and a double is its eight bytes read as a number, so every value that the
 server can build is covered.
 */
module Responses {
  import opened Basics
  import opened Bytes

  /** A value read, with the number of bytes it took; and the same for several in a row. */
  datatype Parsed = Rejected | Parsed(value: Response, size: nat)
  datatype ParsedAll = RejectedAll | ParsedAll(values: seq<Response>, size: nat)

  newtype i32 = x: int | -0x8000_0000 <= x < 0x8000_0000
  newtype i64 = x: int | -0x8000_0000_0000_0000 <= x < 0x8000_0000_0000_0000
  newtype u64 = x: int | 0 <= x < U64

  datatype Response =
    | Nil
    | Error(code: i32, msg: seq<byte>)
    | Str(str: seq<byte>)
    | Int(integer: i64)
    | Dbl(bits: u64)
    | Arr(elems: seq<Response>)

  const SER_NIL: byte := 0
  const SER_ERR: byte := 1
  const SER_STR: byte := 2
  const SER_INT: byte := 3
  const SER_DBL: byte := 4
  const SER_ARR: byte := 5

  /** No string and no array is longer than a 32-bit length can say. */
  predicate Sized(r: Response) {
    match r
    case Error(_, msg) => |msg| < U32
    case Str(s) => |s| < U32
    case Arr(elems) => |elems| < U32 && forall i :: 0 <= i < |elems| ==> Sized(elems[i])
    case _ => true
  }

  // ---- Two's complement ----

  function Unsigned(v: int, modulus: int): nat
    requires -modulus < v < modulus
  {
    if v < 0 then v + modulus else v
  }

  function Signed(v: nat, modulus: int): int {
    if 2 * v < modulus then v else v - modulus
  }

  // ---- The server's encoder ----

  /** Lengths are cut to 32 bits, as `as u32` does. */
  function Encode(r: Response): seq<byte> {
    EncodeWith(EncodeScalar, r)
  }

  /** Arrays are encoded the same way whatever their scalars are; the proofs below use this to look
      at arrays and at scalars separately. */
  function EncodeWith(enc: Response -> seq<byte>, r: Response): seq<byte>
    decreases r, 0
  {
    match r
    case Arr(elems) => [SER_ARR] + Le32(|elems| % U32) + EncodeAllWith(enc, elems)
    case _ => enc(r)
  }

  function EncodeAllWith(enc: Response -> seq<byte>, rs: seq<Response>): seq<byte>
    decreases rs
  {
    if rs == [] then [] else EncodeAllWith(enc, rs[..|rs| - 1]) + EncodeWith(enc, rs[|rs| - 1])
  }

  function EncodeScalar(r: Response): seq<byte> {
    match r
    case Nil => [SER_NIL]
    case Error(code, msg) => [SER_ERR] + Le32(Unsigned(code as int, U32)) + Le32(|msg| % U32) + msg
    case Str(s) => [SER_STR] + Le32(|s| % U32) + s
    case Int(v) => [SER_INT] + Le64(Unsigned(v as int, U64))
    case Dbl(bits) => [SER_DBL] + Le64(bits as nat)
    case Arr(_) => []
  }

  // ---- What the client's parser accepts ----

  type Parser = seq<byte> -> Parsed

  /** A parser that takes at least one byte, and only bytes that are there. */
  ghost predicate Bounded(dec: Parser) {
    forall b {:trigger dec(b)} :: dec(b).Parsed? ==> 1 <= dec(b).size <= |b|
  }

  /** The value at the start of `b` and the number of bytes it takes. */
  ghost function Decode(b: seq<byte>): (d: Parsed)
    ensures d.Parsed? ==> 1 <= d.size <= |b|
  {
    DecodeWith(DecodeScalar, b)
  }

  ghost function DecodeWith(dec: Parser, b: seq<byte>): (d: Parsed)
    requires Bounded(dec)
    ensures d.Parsed? ==> 1 <= d.size <= |b|
    decreases |b|, 0
  {
    if b != [] && b[0] == SER_ARR then
      if |b| < 5 then Rejected
      else
        match DecodeAllWith(dec, b[5..], Read32(b[1..5]))
        case RejectedAll => Rejected
        case ParsedAll(elems, size) => Parsed(Arr(elems), 5 + size)
    else dec(b)
  }

  ghost function DecodeAllWith(dec: Parser, b: seq<byte>, n: nat): (d: ParsedAll)
    requires Bounded(dec)
    ensures d.ParsedAll? ==> d.size <= |b| && |d.values| == n
    decreases |b|, 1, n
  {
    if n == 0 then ParsedAll([], 0)
    else
      match DecodeAllWith(dec, b, n - 1)
      case RejectedAll => RejectedAll
      case ParsedAll(rs, used) =>
        match DecodeWith(dec, b[used..])
        case Rejected => RejectedAll
        case Parsed(r, size) => ParsedAll(rs + [r], used + size)
  }

  ghost function DecodeScalar(b: seq<byte>): (d: Parsed)
    ensures d.Parsed? ==> 1 <= d.size <= |b| && !d.value.Arr?
  {
    if b == [] then Rejected
    else if b[0] == SER_NIL then Parsed(Nil, 1)
    else if b[0] == SER_ERR then
      if |b| < 9 then Rejected
      else
        var len := Read32(b[5..9]);
        if |b| < 9 + len then Rejected
        else Parsed(Error(Signed(Read32(b[1..5]), U32) as i32, b[9..9 + len]), 9 + len)
    else if b[0] == SER_STR then
      if |b| < 5 then Rejected
      else
        var len := Read32(b[1..5]);
        if |b| < 5 + len then Rejected else Parsed(Str(b[5..5 + len]), 5 + len)
    else if b[0] == SER_INT then
      if |b| < 9 then Rejected else Parsed(Int(Signed(Read64(b[1..9]), U64) as i64), 9)
    else if b[0] == SER_DBL then
      if |b| < 9 then Rejected else Parsed(Dbl(Read64(b[1..9]) as u64), 9)
    else Rejected
  }

  // ---- Round trips ----

  lemma SignedUnsigned(v: int, modulus: int)
    requires modulus % 2 == 0 && -modulus <= 2 * v < modulus
    ensures Signed(Unsigned(v, modulus), modulus) == v
  {
  }

  /** A negative number is encoded as what it is modulo the word. */
  lemma TwosComplement(v: int)
    ensures -v < U32 && v < U32 ==> Unsigned(v, U32) == v % U32
    ensures -v < U64 && v < U64 ==> Unsigned(v, U64) == v % U64
  {
  }

  lemma UnsignedSigned(v: nat, modulus: int)
    requires modulus % 2 == 0 && v < modulus
    ensures -modulus <= 2 * Signed(v, modulus) < modulus && Unsigned(Signed(v, modulus), modulus) == v
  {
  }

  lemma ErrorBytes(head: seq<byte>, len: seq<byte>, msg: seq<byte>, tail: seq<byte>)
    requires |head| == |len| == 4
    ensures var b := [SER_ERR] + head + len + msg + tail;
            && |b| >= 9 + |msg| && b[0] == SER_ERR && b[1..5] == head && b[5..9] == len && b[9..9 + |msg|] == msg
  {
    Assoc([SER_ERR] + head + len, msg, tail);
    Assoc([SER_ERR] + head, len, msg + tail);
    Middle([SER_ERR], head, len + (msg + tail));
    Middle([SER_ERR] + head, len, msg + tail);
    Middle([SER_ERR] + head + len, msg, tail);
  }

  lemma ErrorDecoded(b: seq<byte>, code: i32, msg: seq<byte>)
    requires |b| >= 9 + |msg| && b[0] == SER_ERR && Read32(b[5..9]) == |msg| && b[9..9 + |msg|] == msg
    requires Read32(b[1..5]) == Unsigned(code as int, U32)
    ensures DecodeScalar(b) == Parsed(Error(code, msg), 9 + |msg|)
  {
    SignedUnsigned(code as int, U32);
  }

  lemma DecodeError(code: i32, msg: seq<byte>, tail: seq<byte>)
    requires |msg| < U32
    ensures DecodeScalar([SER_ERR] + Le32(Unsigned(code as int, U32)) + Le32(|msg|) + msg + tail)
         == Parsed(Error(code, msg), 9 + |msg|)
  {
    var head, len := Le32(Unsigned(code as int, U32)), Le32(|msg|);
    ErrorBytes(head, len, msg, tail);
    ErrorDecoded([SER_ERR] + head + len + msg + tail, code, msg);
  }

  lemma StrBytes(len: seq<byte>, s: seq<byte>, tail: seq<byte>)
    requires |len| == 4
    ensures var b := [SER_STR] + len + s + tail;
            |b| >= 5 + |s| && b[0] == SER_STR && b[1..5] == len && b[5..5 + |s|] == s
  {
    Assoc([SER_STR] + len, s, tail);
    Middle([SER_STR], len, s + tail);
    Middle([SER_STR] + len, s, tail);
  }

  lemma StrDecoded(b: seq<byte>, s: seq<byte>)
    requires |b| >= 5 + |s| && b[0] == SER_STR && Read32(b[1..5]) == |s| && b[5..5 + |s|] == s
    ensures DecodeScalar(b) == Parsed(Str(s), 5 + |s|)
  {
  }

  lemma DecodeStr(s: seq<byte>, tail: seq<byte>)
    requires |s| < U32
    ensures DecodeScalar([SER_STR] + Le32(|s|) + s + tail) == Parsed(Str(s), 5 + |s|)
  {
    StrBytes(Le32(|s|), s, tail);
    StrDecoded([SER_STR] + Le32(|s|) + s + tail, s);
  }

  lemma DecodeNumber(r: Response, tail: seq<byte>)
    requires r.Int? || r.Dbl?
    ensures DecodeScalar(EncodeScalar(r) + tail) == Parsed(r, 9)
  {
    if r.Int? {
      Middle([SER_INT], Le64(Unsigned(r.integer as int, U64)), tail);
      SignedUnsigned(r.integer as int, U64);
    } else {
      Middle([SER_DBL], Le64(r.bits as nat), tail);
    }
  }

  lemma {:induction false} DecodeEncodeScalar(r: Response, tail: seq<byte>)
    requires Sized(r) && !r.Arr?
    ensures DecodeScalar(EncodeScalar(r) + tail) == Parsed(r, |EncodeScalar(r)|)
  {
    match r {
      case Nil =>
      case Error(code, msg) =>
        assert |msg| % U32 == |msg|;
        DecodeError(code, msg, tail);
      case Str(s) =>
        assert |s| % U32 == |s|;
        DecodeStr(s, tail);
      case _ => DecodeNumber(r, tail);
    }
  }

  /** Some bytes taken apart into a first byte, the bytes up to `i`, and the bytes up to `j`. */
  lemma Pieces(b: seq<byte>, i: nat, j: nat)
    requires 1 <= i <= j <= |b|
    ensures [b[0]] + b[1..i] + b[i..j] == b[..j]
  {
  }

  lemma ErrorPieces(b: seq<byte>, len: nat)
    requires |b| >= 9 + len
    ensures [b[0]] + b[1..5] + b[5..9] + b[9..9 + len] == b[..9 + len]
  {
    Pieces(b, 5, 9);
    Join(b, 0, 9, 9 + len);
  }

  lemma EncodeError(b: seq<byte>, len: nat)
    requires |b| >= 9 + len && b[0] == SER_ERR && len == Read32(b[5..9])
    ensures EncodeScalar(Error(Signed(Read32(b[1..5]), U32) as i32, b[9..9 + len])) == b[..9 + len]
  {
    Le32Of(b[1..5]);
    Le32Of(b[5..9]);
    UnsignedSigned(Read32(b[1..5]), U32);
    ErrorPieces(b, len);
    assert |b[9..9 + len]| == len == len % U32;
  }

  lemma EncodeStr(b: seq<byte>, len: nat)
    requires |b| >= 5 + len && b[0] == SER_STR && len == Read32(b[1..5])
    ensures EncodeScalar(Str(b[5..5 + len])) == b[..5 + len]
  {
    Le32Of(b[1..5]);
    Pieces(b, 5, 5 + len);
  }

  lemma EncodeNumber(b: seq<byte>)
    requires |b| >= 9
    ensures b[0] == SER_INT ==> EncodeScalar(Int(Signed(Read64(b[1..9]), U64) as i64)) == b[..9]
    ensures b[0] == SER_DBL ==> EncodeScalar(Dbl(Read64(b[1..9]) as u64)) == b[..9]
  {
    Le64Of(b[1..9]);
    UnsignedSigned(Read64(b[1..9]), U64);
    Pieces(b, 9, 9);
  }

  lemma EncodeDecodeScalar(b: seq<byte>)
    requires DecodeScalar(b).Parsed?
    ensures Sized(DecodeScalar(b).value) && EncodeScalar(DecodeScalar(b).value) == b[..DecodeScalar(b).size]
  {
    if b[0] == SER_ERR {
      EncodeError(b, Read32(b[5..9]));
    } else if b[0] == SER_STR {
      EncodeStr(b, Read32(b[1..5]));
    } else if b[0] == SER_INT || b[0] == SER_DBL {
      EncodeNumber(b);
    }
  }

  // ---- Arrays over any scalars that round-trip ----

  ghost predicate GoodScalars(enc: Response -> seq<byte>, dec: Parser) {
    && Bounded(dec)
    && (forall r: Response, tail: seq<byte> {:trigger dec(enc(r) + tail)} ::
          Sized(r) && !r.Arr? ==> dec(enc(r) + tail) == Parsed(r, |enc(r)|))
    && (forall r: Response {:trigger enc(r)} :: !r.Arr? ==> enc(r) != [] && enc(r)[0] != SER_ARR)
    && (forall b {:trigger dec(b)} :: dec(b).Parsed? ==>
          !dec(b).value.Arr? && Sized(dec(b).value) && enc(dec(b).value) == b[..dec(b).size])
  }

  lemma ScalarsAreGood()
    ensures GoodScalars(EncodeScalar, DecodeScalar)
  {
    forall r: Response, tail | Sized(r) && !r.Arr?
      ensures DecodeScalar(EncodeScalar(r) + tail) == Parsed(r, |EncodeScalar(r)|)
    {
      DecodeEncodeScalar(r, tail);
    }
    forall b | DecodeScalar(b).Parsed?
      ensures Sized(DecodeScalar(b).value) && EncodeScalar(DecodeScalar(b).value) == b[..DecodeScalar(b).size]
    {
      EncodeDecodeScalar(b);
    }
  }

  lemma ArrayHeader(n: nat, body: seq<byte>, tail: seq<byte>)
    requires n < U32
    ensures var b := [SER_ARR] + Le32(n) + body + tail;
            |b| >= 5 && b[0] == SER_ARR && b[1..5] == Le32(n) && b[5..] == body + tail
  {
  }

  lemma {:induction false} DecodeArray(dec: Parser, elems: seq<Response>, body: seq<byte>, tail: seq<byte>)
    requires Bounded(dec) && |elems| < U32
    requires DecodeAllWith(dec, body + tail, |elems|) == ParsedAll(elems, |body|)
    ensures DecodeWith(dec, [SER_ARR] + Le32(|elems|) + body + tail) == Parsed(Arr(elems), 5 + |body|)
  {
    ArrayHeader(|elems|, body, tail);
  }

  lemma {:induction false} ArrayEncoding(enc: Response -> seq<byte>, elems: seq<Response>)
    requires |elems| < U32
    ensures EncodeWith(enc, Arr(elems)) == [SER_ARR] + Le32(|elems|) + EncodeAllWith(enc, elems)
  {
    assert |elems| % U32 == |elems|;
  }

  lemma {:induction false} ArrayAt(dec: Parser, b: seq<byte>, elems: seq<Response>, body: seq<byte>, tail: seq<byte>)
    requires Bounded(dec) && |elems| < U32 && b == [SER_ARR] + Le32(|elems|) + body
    requires DecodeAllWith(dec, body + tail, |elems|) == ParsedAll(elems, |body|)
    ensures DecodeWith(dec, b + tail) == Parsed(Arr(elems), |b|)
  {
    DecodeArray(dec, elems, body, tail);
  }

  lemma {:induction false} ArrayCase(enc: Response -> seq<byte>, dec: Parser, elems: seq<Response>, tail: seq<byte>)
    requires Bounded(dec) && |elems| < U32
    requires DecodeAllWith(dec, EncodeAllWith(enc, elems) + tail, |elems|) == ParsedAll(elems, |EncodeAllWith(enc, elems)|)
    ensures DecodeWith(dec, EncodeWith(enc, Arr(elems)) + tail) == Parsed(Arr(elems), |EncodeWith(enc, Arr(elems))|)
  {
    ArrayEncoding(enc, elems);
    ArrayAt(dec, EncodeWith(enc, Arr(elems)), elems, EncodeAllWith(enc, elems), tail);
  }

  lemma {:induction false} ScalarCase(enc: Response -> seq<byte>, dec: Parser, r: Response, tail: seq<byte>)
    requires GoodScalars(enc, dec) && Sized(r) && !r.Arr?
    ensures DecodeWith(dec, EncodeWith(enc, r) + tail) == Parsed(r, |EncodeWith(enc, r)|)
  {
    assert (enc(r) + tail)[0] == enc(r)[0];
  }

  lemma DecodeOneMore(dec: Parser, b: seq<byte>, n: nat, rs: seq<Response>, used: nat)
    requires Bounded(dec) && DecodeAllWith(dec, b, n) == ParsedAll(rs, used) && used <= |b|
    ensures match DecodeWith(dec, b[used..])
            case Rejected => DecodeAllWith(dec, b, n + 1) == RejectedAll
            case Parsed(r, size) => DecodeAllWith(dec, b, n + 1) == ParsedAll(rs + [r], used + size)
  {
  }

  lemma LastPiece(before: seq<byte>, bytes: seq<byte>, tail: seq<byte>)
    ensures before + bytes + tail == before + (bytes + tail)
    ensures (before + bytes + tail)[|before|..] == bytes + tail
  {
  }

  /** The value is read back from its encoding, whatever follows. */
  ghost predicate RoundTrips(enc: Response -> seq<byte>, dec: Parser, r: Response)
    requires Bounded(dec)
  {
    forall tail {:trigger DecodeWith(dec, EncodeWith(enc, r) + tail)} ::
      DecodeWith(dec, EncodeWith(enc, r) + tail) == Parsed(r, |EncodeWith(enc, r)|)
  }

  lemma {:induction false} ElementsRoundTrip(enc: Response -> seq<byte>, dec: Parser, rs: seq<Response>, tail: seq<byte>)
    requires Bounded(dec) && forall i :: 0 <= i < |rs| ==> RoundTrips(enc, dec, rs[i])
    ensures DecodeAllWith(dec, EncodeAllWith(enc, rs) + tail, |rs|) == ParsedAll(rs, |EncodeAllWith(enc, rs)|)
    decreases |rs|
  {
    if rs != [] {
      var front, last := rs[..|rs| - 1], rs[|rs| - 1];
      var before, bytes := EncodeAllWith(enc, front), EncodeWith(enc, last);
      ElementsRoundTrip(enc, dec, front, bytes + tail);
      OneMoreElement(dec, front, before, last, bytes, tail);
      assert rs == front + [last];
    }
  }

  lemma {:induction false} OneMoreElement(dec: Parser, front: seq<Response>, before: seq<byte>, last: Response, bytes: seq<byte>, tail: seq<byte>)
    requires Bounded(dec) && DecodeAllWith(dec, before + (bytes + tail), |front|) == ParsedAll(front, |before|)
    requires DecodeWith(dec, bytes + tail) == Parsed(last, |bytes|)
    ensures DecodeAllWith(dec, before + bytes + tail, |front| + 1) == ParsedAll(front + [last], |before + bytes|)
  {
    LastPiece(before, bytes, tail);
    DecodeOneMore(dec, before + bytes + tail, |front|, front, |before|);
  }

  lemma {:induction false} ArrayRoundTrip(enc: Response -> seq<byte>, dec: Parser, r: Response)
    requires GoodScalars(enc, dec) && Sized(r)
    ensures RoundTrips(enc, dec, r)
    decreases r
  {
    if r.Arr? {
      forall i | 0 <= i < |r.elems|
        ensures RoundTrips(enc, dec, r.elems[i])
      {
        ArrayRoundTrip(enc, dec, r.elems[i]);
      }
      ElementsGiveArray(enc, dec, r.elems);
    } else {
      forall tail
        ensures DecodeWith(dec, EncodeWith(enc, r) + tail) == Parsed(r, |EncodeWith(enc, r)|)
      {
        ScalarCase(enc, dec, r, tail);
      }
    }
  }

  lemma ElementsGiveArray(enc: Response -> seq<byte>, dec: Parser, elems: seq<Response>)
    requires Bounded(dec) && |elems| < U32 && forall i :: 0 <= i < |elems| ==> RoundTrips(enc, dec, elems[i])
    ensures RoundTrips(enc, dec, Arr(elems))
  {
    forall tail
      ensures DecodeWith(dec, EncodeWith(enc, Arr(elems)) + tail) == Parsed(Arr(elems), |EncodeWith(enc, Arr(elems))|)
    {
      ElementsRoundTrip(enc, dec, elems, tail);
      ArrayCase(enc, dec, elems, tail);
    }
  }

  lemma {:induction false} ArrayCanonical(enc: Response -> seq<byte>, dec: Parser, b: seq<byte>)
    requires GoodScalars(enc, dec) && DecodeWith(dec, b).Parsed?
    ensures Sized(DecodeWith(dec, b).value) && EncodeWith(enc, DecodeWith(dec, b).value) == b[..DecodeWith(dec, b).size]
    decreases |b|, 0
  {
    if b != [] && b[0] == SER_ARR {
      var n := Read32(b[1..5]);
      ElementsCanonical(enc, dec, b[5..], n);
      ArrayEncoded(enc, b, DecodeAllWith(dec, b[5..], n));
    }
  }

  lemma ArrayEncoded(enc: Response -> seq<byte>, b: seq<byte>, all: ParsedAll)
    requires |b| >= 5 && b[0] == SER_ARR && all.ParsedAll? && all.size <= |b| - 5
    requires |all.values| == Read32(b[1..5]) && EncodeAllWith(enc, all.values) == b[5..][..all.size]
    ensures EncodeWith(enc, Arr(all.values)) == b[..5 + all.size]
  {
    ArrayBytes(b, all.size);
    assert |all.values| % U32 == |all.values|;
  }

  lemma ArrayBytes(b: seq<byte>, size: nat)
    requires |b| >= 5 && b[0] == SER_ARR && size <= |b| - 5
    ensures [SER_ARR] + Le32(Read32(b[1..5])) + b[5..][..size] == b[..5 + size]
  {
    Le32Of(b[1..5]);
    Pieces(b, 5, 5 + size);
    Slice(b, 5, 0, size);
  }

  lemma {:induction false} ElementsCanonical(enc: Response -> seq<byte>, dec: Parser, b: seq<byte>, n: nat)
    requires GoodScalars(enc, dec) && DecodeAllWith(dec, b, n).ParsedAll?
    ensures forall i :: 0 <= i < n ==> Sized(DecodeAllWith(dec, b, n).values[i])
    ensures EncodeAllWith(enc, DecodeAllWith(dec, b, n).values) == b[..DecodeAllWith(dec, b, n).size]
    decreases |b|, 1, n
  {
    if n > 0 {
      ElementsCanonical(enc, dec, b, n - 1);
      var front := DecodeAllWith(dec, b, n - 1);
      var last := DecodeWith(dec, b[front.size..]);
      ArrayCanonical(enc, dec, b[front.size..]);
      Snoc(front.values, last.value);
      Slice(b, front.size, 0, last.size);
      Join(b, 0, front.size, front.size + last.size);
    }
  }

  lemma Snoc<T>(xs: seq<T>, x: T)
    ensures (xs + [x])[..|xs + [x]| - 1] == xs && (xs + [x])[|xs + [x]| - 1] == x
  {
  }

  // ---- The codec as a whole ----

  /** Parsing the encoding of a value, whatever follows, yields the value and stops where it ends. */
  lemma {:induction false} DecodeEncode(r: Response, tail: seq<byte>)
    requires Sized(r)
    ensures Decode(Encode(r) + tail) == Parsed(r, |Encode(r)|)
  {
    ScalarsAreGood();
    ArrayRoundTrip(EncodeScalar, DecodeScalar, r);
  }

  /** Whatever the parser accepts is the encoding of what it returns. */
  lemma EncodeDecode(b: seq<byte>)
    requires Decode(b).Parsed?
    ensures Sized(Decode(b).value) && Encode(Decode(b).value) == b[..Decode(b).size]
  {
    ScalarsAreGood();
    ArrayCanonical(EncodeScalar, DecodeScalar, b);
  }

  /** A value comes back exactly when its lengths fit in 32 bits. */
  lemma {:induction false} RoundTripsIfSized(r: Response, tail: seq<byte>)
    ensures Decode(Encode(r) + tail) == Parsed(r, |Encode(r)|) <==> Sized(r)
  {
    if Sized(r) {
      DecodeEncode(r, tail);
    }
    if Decode(Encode(r) + tail).Parsed? {
      EncodeDecode(Encode(r) + tail);
    }
  }

  /** Cut short anywhere, an encoding is rejected. */
  lemma {:induction false} PrefixRejected(r: Response, n: nat)
    requires Sized(r) && n < |Encode(r)|
    ensures Decode(Encode(r)[..n]) == Rejected
  {
    var cut, b := Encode(r)[..n], Encode(r);
    if Decode(cut).Parsed? {
      EncodeDecode(cut);
      var m := Decode(cut).size;
      assert cut[..m] + b[m..] == b && b + [] == b;
      DecodeEncode(Decode(cut).value, b[m..]);
      DecodeEncode(r, []);
    }
  }

  /** Two different values never have the same encoding, nor one a prefix of the other's. */
  lemma {:induction false} PrefixFree(r: Response, q: Response)
    requires Sized(r) && Sized(q) && Encode(r) <= Encode(q)
    ensures r == q
  {
    var tail := Encode(q)[|Encode(r)|..];
    assert Encode(r) + tail == Encode(q) && Encode(q) + [] == Encode(q);
    DecodeEncode(r, tail);
    DecodeEncode(q, []);
  }

  // ---- The client's parser ----

  ghost predicate Reads(d: Parsed, r: Option<Response>, pos: nat, end: nat) {
    match d
    case Rejected => r == None
    case Parsed(v, n) => r == Some(v) && end == pos + n
  }

  /** Parses the value at `pos` and advances past it. */
  method ReadValue(buf: seq<byte>, pos: nat) returns (r: Option<Response>, end: nat)
    requires pos <= |buf|
    ensures Reads(Decode(buf[pos..]), r, pos, end)
  {
    r, end := ReadValueFrom(buf, pos, DecodeScalar);
  }

  /** `dec` is the scalar parser; the trigger keeps its many cases out of the array loop. */
  ghost predicate ScalarParser(dec: Parser) {
    Bounded(dec) && forall b {:trigger DecodeScalar(b)} :: dec(b) == DecodeScalar(b)
  }

  method ReadValueFrom(buf: seq<byte>, pos: nat, ghost dec: Parser) returns (r: Option<Response>, end: nat)
    requires pos <= |buf| && ScalarParser(dec)
    ensures Reads(DecodeWith(dec, buf[pos..]), r, pos, end)
    decreases |buf| - pos, 0
  {
    end := pos;
    if end >= |buf| {
      assert DecodeScalar(buf[pos..]) == Rejected;
      return None, end;
    }
    if buf[end] != SER_ARR {
      r, end := ReadScalarFrom(buf, pos);
      return;
    }
    end := end + 1;
    if end + 4 > |buf| { return None, end; }
    Slice(buf, pos, 1, 5);
    Suffix(buf, pos, 5);
    var count := ParseLe32(buf[end..end + 4]);
    end := end + 4;
    var elems;
    elems, end := ReadElements(buf, end, count, dec);
    if elems == None { return None, end; }
    r := Some(Arr(elems.value));
  }

  method ReadScalarFrom(buf: seq<byte>, pos: nat) returns (r: Option<Response>, end: nat)
    requires pos < |buf|
    ensures Reads(DecodeScalar(buf[pos..]), r, pos, end)
  {
    var tag := buf[pos];
    end := pos + 1;
    r := None;
    if tag == SER_NIL {
      r := Some(Nil);
    } else if tag == SER_ERR {
      if end + 8 > |buf| { return; }
      Slice(buf, pos, 1, 5);
      Slice(buf, pos, 5, 9);
      var word := ParseLe32(buf[end..end + 4]);
      var code := Signed(word, U32) as i32;
      end := end + 4;
      var len := ParseLe32(buf[end..end + 4]);
      end := end + 4;
      if end + len > |buf| { return; }
      Slice(buf, pos, 9, 9 + len);
      r := Some(Error(code, buf[end..end + len]));
      end := end + len;
    } else if tag == SER_STR {
      if end + 4 > |buf| { return; }
      Slice(buf, pos, 1, 5);
      var len := ParseLe32(buf[end..end + 4]);
      end := end + 4;
      if end + len > |buf| { return; }
      Slice(buf, pos, 5, 5 + len);
      r := Some(Str(buf[end..end + len]));
      end := end + len;
    } else if tag == SER_INT || tag == SER_DBL {
      if end + 8 > |buf| { return; }
      Slice(buf, pos, 1, 9);
      var bits := ParseLe64(buf[end..end + 8]);
      r := Some(if tag == SER_INT then Int(Signed(bits, U64) as i64) else Dbl(bits as u64));
      end := end + 8;
    }
  }

  method ReadElements(buf: seq<byte>, pos: nat, count: nat, ghost dec: Parser) returns (r: Option<seq<Response>>, end: nat)
    requires pos <= |buf| && ScalarParser(dec)
    ensures ReadsAll(DecodeAllWith(dec, buf[pos..], count), r, pos, end)
    decreases |buf| - pos, 3
  {
    ghost var b := buf[pos..];
    r, end := ReadElementsOf(buf, pos, count, dec, b, (n: nat) => DecodeAllWith(dec, b, n));
  }

  ghost predicate ReadsAll(d: ParsedAll, r: Option<seq<Response>>, pos: nat, end: nat) {
    match d
    case RejectedAll => r == None
    case ParsedAll(vs, n) => r == Some(vs) && end == pos + n
  }

  /** `all` tells what the first elements parse to; going through it keeps the parser's definition out
      of the loop. */
  ghost predicate Tells(all: nat -> ParsedAll, dec: Parser, b: seq<byte>)
    requires Bounded(dec)
  {
    forall n: nat {:trigger DecodeAllWith(dec, b, n)} :: all(n) == DecodeAllWith(dec, b, n)
  }

  lemma ToldStart(all: nat -> ParsedAll, dec: Parser, b: seq<byte>)
    requires Bounded(dec) && Tells(all, dec, b)
    ensures all(0) == ParsedAll([], 0)
  {
    assert DecodeAllWith(dec, b, 0) == ParsedAll([], 0);
  }

  lemma ToldRejected(all: nat -> ParsedAll, dec: Parser, b: seq<byte>, i: nat, n: nat)
    requires Bounded(dec) && Tells(all, dec, b) && i <= n && all(i) == RejectedAll
    ensures all(n) == RejectedAll
  {
    assert all(i) == DecodeAllWith(dec, b, i);
    RejectedFrom(dec, b, i, n);
  }

  method ReadElementsOf(buf: seq<byte>, pos: nat, count: nat, ghost dec: Parser, ghost b: seq<byte>, ghost all: nat -> ParsedAll)
    returns (r: Option<seq<Response>>, end: nat)
    requires pos <= |buf| && b == buf[pos..] && ScalarParser(dec) && Tells(all, dec, b)
    ensures ReadsAll(all(count), r, pos, end)
    decreases |buf| - pos, 2
  {
    var elems: seq<Response> := [];
    end := pos;
    ToldStart(all, dec, b);
    for i := 0 to count
      invariant pos <= end <= |buf|
      invariant all(i) == ParsedAll(elems, end - pos)
    {
      Suffix(buf, pos, end - pos);
      var elem, next := ReadElement(buf, end, dec, b, all, i, elems, end - pos);
      if elem == None {
        ToldRejected(all, dec, b, i + 1, count);
        return None, next;
      }
      elems := elems + [elem.value];
      end := next;
    }
    r := Some(elems);
  }

  /** Reads the element after the first `n`, which took `used` bytes of `b`. */
  method ReadElement(buf: seq<byte>, pos: nat, ghost dec: Parser, ghost b: seq<byte>, ghost all: nat -> ParsedAll,
                     ghost n: nat, ghost elems: seq<Response>, ghost used: nat) returns (elem: Option<Response>, end: nat)
    requires pos <= |buf| && ScalarParser(dec) && Tells(all, dec, b)
    requires all(n) == ParsedAll(elems, used) && used <= |b| && b[used..] == buf[pos..]
    ensures elem == None ==> all(n + 1) == RejectedAll
    ensures elem.Some? ==> pos < end <= |buf| && all(n + 1) == ParsedAll(elems + [elem.value], used + end - pos)
    decreases |buf| - pos, 1
  {
    elem, end := ReadValueFrom(buf, pos, dec);
    assert DecodeAllWith(dec, b, n) == all(n) && DecodeAllWith(dec, b, n + 1) == all(n + 1);
    DecodeOneMore(dec, b, n, elems, used);
  }

  lemma {:induction false} RejectedFrom(dec: Parser, b: seq<byte>, i: nat, n: nat)
    requires Bounded(dec) && i <= n && DecodeAllWith(dec, b, i) == RejectedAll
    ensures DecodeAllWith(dec, b, n) == RejectedAll
    decreases n
  {
    if i < n {
      RejectedFrom(dec, b, i, n - 1);
    }
  }

  // ---- One response on the stream ----

  const MAX_RESPONSE: nat := 64 * 1024 * 1024

  /** The server prints the length, cut to 32 bits, and the bytes. */
  function Framed(payload: seq<byte>): seq<byte> {
    Le32(|payload| % U32) + payload
  }

  /** The client reads one frame off the stream and parses the value it starts with. */
  method ReadResponse(stream: seq<byte>) returns (r: Option<Response>, rest: seq<byte>)
    ensures |stream| >= 4 && Read32(stream[..4]) <= MAX_RESPONSE && 4 + Read32(stream[..4]) <= |stream| ==>
              var len := Read32(stream[..4]);
              && rest == stream[4 + len..]
              && (match Decode(stream[4..4 + len]) case Rejected => r == None case Parsed(v, _) => r == Some(v))
    ensures !(|stream| >= 4 && Read32(stream[..4]) <= MAX_RESPONSE && 4 + Read32(stream[..4]) <= |stream|) ==> r == None
  {
    if |stream| < 4 { return None, []; }
    var len := ParseLe32(stream[..4]);
    if len > MAX_RESPONSE { return None, stream[4..]; }
    if |stream| < 4 + len { return None, []; }
    var buf := stream[4..4 + len];
    rest := stream[4 + len..];
    var end;
    r, end := ReadValue(buf, 0);
    assert buf[0..] == buf;
  }

  /** What the server writes for a value, the client reads back, exactly when the encoding is at
      most 64 MiB long. */
  method Exchange(v: Response, tail: seq<byte>) returns (r: Option<Response>, rest: seq<byte>)
    ensures r == Some(v) <==> |Encode(v)| <= 64 * 1024 * 1024
    ensures r == Some(v) ==> rest == tail
  {
    var payload := Encode(v);
    FrameRead(payload, tail);
    r, rest := ReadResponse(Framed(payload) + tail);
    if |payload| <= MAX_RESPONSE {
      WholeFrame(v);
    } else if r == Some(v) {
      NeverFromLess(v, |payload| % U32);
    }
  }

  lemma WholeFrame(v: Response)
    requires |Encode(v)| <= MAX_RESPONSE
    ensures |Encode(v)| % U32 == |Encode(v)| && Decode(Encode(v)[..|Encode(v)|]) == Parsed(v, |Encode(v)|)
  {
    var payload := Encode(v);
    SizedIfShort(v);
    DecodeEncode(v, []);
    assert payload + [] == payload == payload[..|payload|];
  }

  /** No strict prefix of an encoding, and so no frame with its length cut off, parses as the value. */
  lemma NeverFromLess(v: Response, n: nat)
    requires n < |Encode(v)|
    ensures Decode(Encode(v)[..n]).Parsed? ==> Decode(Encode(v)[..n]).value != v
  {
    var cut := Encode(v)[..n];
    if Decode(cut).Parsed? {
      EncodeDecode(cut);
      assert |Encode(Decode(cut).value)| == Decode(cut).size <= n;
    }
  }

  lemma FrameRead(payload: seq<byte>, tail: seq<byte>)
    ensures var stream, n := Framed(payload) + tail, |payload| % U32;
            && |stream| == 4 + |payload| + |tail| && Read32(stream[..4]) == n
            && stream[4..4 + n] == payload[..n] && stream[4 + |payload|..] == tail
  {
    var size, n := Le32(|payload| % U32), |payload| % U32;
    Assoc(size, payload, tail);
    Split(size, payload + tail);
    Middle(size, payload, tail);
    assert payload == payload[..n] + payload[n..];
    Assoc(payload[..n], payload[n..], tail);
    Middle(size, payload[..n], payload[n..] + tail);
    Assoc(size, payload[..n], payload[n..] + tail);
  }

  lemma {:induction false} SizedIfShort(v: Response)
    requires |Encode(v)| < U32
    ensures Sized(v)
    decreases v
  {
    if v.Arr? {
      forall i | 0 <= i < |v.elems|
        ensures Sized(v.elems[i])
      {
        ElementSize(v.elems, i);
        SizedIfShort(v.elems[i]);
      }
      CountAtMostSize(v.elems);
    }
  }

  lemma {:induction false} ElementSize(rs: seq<Response>, i: nat)
    requires i < |rs|
    ensures |Encode(rs[i])| <= |EncodeAllWith(EncodeScalar, rs)|
  {
    if i < |rs| - 1 {
      ElementSize(rs[..|rs| - 1], i);
    }
  }

  lemma {:induction false} CountAtMostSize(rs: seq<Response>)
    ensures |rs| <= |EncodeAllWith(EncodeScalar, rs)|
  {
    if rs != [] {
      assert |Encode(rs[|rs| - 1])| >= 1;
      CountAtMostSize(rs[..|rs| - 1]);
    }
  }
}
