/**
 The channel between sandboxes: a message format with NUL-terminated fields, decimal numbers and a
 length-prefixed payload, and the bounded queue on the receiving side.
 */
module Ipc {
  import opened Basics
  import opened Bytes
  import opened Decimals

  type Text = seq<byte>

  datatype Message = Message(from: Text, to: Text, topic: Text, timestamp: nat, sequence: nat, payload: seq<byte>)

  // ---- Decimal numbers ----

  const PLUS: byte := 43
  const MINUS: byte := 45

  predicate IsDigit(b: byte) {
    48 <= b < 58
  }

  /** The bytes that `isspace` accepts. */
  predicate IsSpace(b: byte) {
    b == 32 || 9 <= b < 14
  }

  /** `to_string` */
  function Decimal(n: nat): (s: Text)
    ensures s != [] && forall i :: 0 <= i < |s| ==> IsDigit(s[i])
  {
    var d := Digits(n);
    seq(|d|, i requires 0 <= i < |d| => (48 + d[i]) as byte)
  }

  function DigitOf(b: byte): nat
    requires IsDigit(b)
  {
    b as nat - 48
  }

  function DigitsOf(s: Text): (d: seq<nat>)
    requires forall i :: 0 <= i < |s| ==> IsDigit(s[i])
  {
    seq(|s|, i requires 0 <= i < |s| => DigitOf(s[i]))
  }

  function DigitsValue(s: Text): nat
    requires forall i :: 0 <= i < |s| ==> IsDigit(s[i])
  {
    Value(DigitsOf(s))
  }

  lemma DecimalValue(n: nat)
    ensures DigitsValue(Decimal(n)) == n
  {
    assert DigitsOf(Decimal(n)) == Digits(n);
    ValueOfDigits(n);
  }

  function SkipSpaces(s: Text): Text {
    if s != [] && IsSpace(s[0]) then SkipSpaces(s[1..]) else s
  }

  function DigitPrefix(s: Text): (d: Text)
    ensures forall i :: 0 <= i < |d| ==> IsDigit(d[i])
  {
    if s != [] && IsDigit(s[0]) then [s[0]] + DigitPrefix(s[1..]) else []
  }

  datatype Parsed = Thrown | Parsed(n: nat)

  /** `stoull`: spaces, an optional sign, then the longest run of digits; what follows is ignored. It
      throws without a digit or when the digits exceed 64 bits, and negates modulo 2^64. */
  function Stoull(field: Text): (r: Parsed)
    ensures r.Parsed? ==> r.n < U64
  {
    var s := SkipSpaces(field);
    var signed := s != [] && (s[0] == PLUS || s[0] == MINUS);
    var digits := DigitPrefix(if signed then s[1..] else s);
    if digits == [] || DigitsValue(digits) >= U64 then Thrown
    else if signed && s[0] == MINUS then Parsed((U64 - DigitsValue(digits)) % U64)
    else Parsed(DigitsValue(digits))
  }

  lemma {:induction false} AllDigits(s: Text)
    requires forall i :: 0 <= i < |s| ==> IsDigit(s[i])
    ensures DigitPrefix(s) == s
  {
    if s != [] {
      AllDigits(s[1..]);
      assert s == [s[0]] + s[1..];
    }
  }

  /** Parsing undoes printing, for every 64-bit number and for no other. */
  lemma DecimalRoundTrip(n: nat)
    ensures Stoull(Decimal(n)) == Parsed(n) <==> n < U64
  {
    var s := Decimal(n);
    assert IsDigit(s[0]);
    AllDigits(s);
    DecimalValue(n);
  }

  ghost predicate Spaces(s: Text) {
    forall i :: 0 <= i < |s| ==> IsSpace(s[i])
  }

  ghost predicate Digital(s: Text) {
    s != [] && forall i :: 0 <= i < |s| ==> IsDigit(s[i])
  }

  /** Spaces, an optional sign, digits, and what does not go on with a digit. */
  ghost predicate Written(field: Text, spaces: Text, sign: Text, digits: Text, rest: Text) {
    && field == spaces + (sign + (digits + rest))
    && Spaces(spaces) && (sign == [] || sign == [PLUS] || sign == [MINUS]) && Digital(digits)
    && (rest == [] || !IsDigit(rest[0]))
  }

  lemma {:induction false} SkipsSpaces(spaces: Text, s: Text)
    requires Spaces(spaces) && s != [] && !IsSpace(s[0])
    ensures SkipSpaces(spaces + s) == s
  {
    if spaces == [] {
      assert spaces + s == s;
    } else {
      SkipsSpaces(spaces[1..], s);
      assert (spaces + s)[1..] == spaces[1..] + s;
    }
  }

  lemma {:induction false} SpacesBefore(s: Text) returns (spaces: Text)
    ensures Spaces(spaces) && s == spaces + SkipSpaces(s)
  {
    spaces := [];
    if s != [] && IsSpace(s[0]) {
      var more := SpacesBefore(s[1..]);
      spaces := [s[0]] + more;
    }
  }

  lemma {:induction false} TakesDigits(digits: Text, rest: Text)
    requires forall i :: 0 <= i < |digits| ==> IsDigit(digits[i])
    requires rest == [] || !IsDigit(rest[0])
    ensures DigitPrefix(digits + rest) == digits
  {
    if digits == [] {
      assert digits + rest == rest;
    } else {
      TakesDigits(digits[1..], rest);
      assert (digits + rest)[1..] == digits[1..] + rest;
    }
  }

  lemma {:induction false} DigitsThenRest(s: Text) returns (rest: Text)
    ensures s == DigitPrefix(s) + rest && (rest == [] || !IsDigit(rest[0]))
  {
    rest := s;
    if s != [] && IsDigit(s[0]) {
      rest := DigitsThenRest(s[1..]);
      assert s == [s[0]] + s[1..];
    }
  }

  /** What `stoull` makes of a number that is written there. */
  lemma StoullOfWritten(field: Text, spaces: Text, sign: Text, digits: Text, rest: Text)
    requires Written(field, spaces, sign, digits, rest)
    ensures var n := DigitsValue(digits);
            Stoull(field) == if n >= U64 then Thrown else if sign == [MINUS] then Parsed((U64 - n) % U64) else Parsed(n)
  {
    var s := sign + (digits + rest);
    assert s[0] == if sign == [] then digits[0] else sign[0];
    SkipsSpaces(spaces, s);
    assert (if sign == [] then s else s[1..]) == digits + rest;
    TakesDigits(digits, rest);
  }

  lemma WhatIsWritten(field: Text) returns (spaces: Text, sign: Text, digits: Text, rest: Text)
    requires Stoull(field).Parsed?
    ensures Written(field, spaces, sign, digits, rest)
  {
    spaces := SpacesBefore(field);
    var s := SkipSpaces(field);
    var signed := s[0] == PLUS || s[0] == MINUS;
    sign := if signed then [s[0]] else [];
    var after := if signed then s[1..] else s;
    digits := DigitPrefix(after);
    rest := DigitsThenRest(after);
    assert s == sign + after;
  }

  /** Beyond printed numbers: spaces, a sign and whatever follows the digits are accepted, and a number
      behind a minus is taken modulo 2^64. Everything else throws. */
  lemma StoullExactly(field: Text)
    ensures Stoull(field).Parsed? <==>
              exists spaces, sign, digits, rest :: Written(field, spaces, sign, digits, rest) && DigitsValue(digits) < U64
    ensures forall spaces, sign, digits, rest :: Written(field, spaces, sign, digits, rest) && DigitsValue(digits) < U64 ==>
              Stoull(field) == Parsed(if sign == [MINUS] then (U64 - DigitsValue(digits)) % U64 else DigitsValue(digits))
  {
    if Stoull(field).Parsed? {
      var spaces, sign, digits, rest := WhatIsWritten(field);
      StoullOfWritten(field, spaces, sign, digits, rest);
    }
    forall spaces, sign, digits, rest | Written(field, spaces, sign, digits, rest)
      ensures var n := DigitsValue(digits);
              Stoull(field) == if n >= U64 then Thrown else if sign == [MINUS] then Parsed((U64 - n) % U64) else Parsed(n)
    {
      StoullOfWritten(field, spaces, sign, digits, rest);
    }
  }

  /** Digits have the value that they print, whatever zeros stand in front. */
  lemma ValueOfPrinted(digits: Text) returns (k: nat)
    requires Digital(digits)
    ensures digits == seq(k, _ => 48) + Decimal(DigitsValue(digits))
  {
    var d := DigitsOf(digits);
    k := WithoutZeros(d);
    var all, text := Zeros(k) + Digits(Value(d)), seq(k, _ => 48 as byte) + Decimal(Value(d));
    assert d == all && |text| == |all|;
    forall i | 0 <= i < |digits|
      ensures digits[i] == text[i]
    {
      assert d[i] == digits[i] as nat - 48 && text[i] as nat == 48 + all[i];
    }
  }

  // ---- The message format ----

  function Field(text: Text): Text {
    text + [0]
  }

  function Head(m: Message): Text {
    Field(m.from) + Field(m.to) + Field(m.topic) + Field(Decimal(m.timestamp)) + Field(Decimal(m.sequence))
  }

  /** The length is cut to 32 bits. */
  function Encode(m: Message): seq<byte> {
    Head(m) + Body(m)
  }

  function Body(m: Message): seq<byte> {
    Le32(|m.payload| % U32) + m.payload
  }

  /** The names can be told apart, and the numbers have the width of the message's fields. */
  predicate Sendable(m: Message) {
    NulFree(m.from) && NulFree(m.to) && NulFree(m.topic) && m.timestamp < U64 && m.sequence < U64
  }

  /** The bytes up to the first NUL, what follows it, and whether there was one. */
  datatype Cut = Cut(field: Text, rest: seq<byte>, ended: bool)

  function TakeField(s: seq<byte>): Cut {
    if s == [] then Cut([], [], false)
    else if s[0] == 0 then Cut([], s[1..], true)
    else
      var c := TakeField(s[1..]);
      Cut([s[0]] + c.field, c.rest, c.ended)
  }

  /** What the five fields of a datagram are read as, and what follows them. */
  datatype Header = Header(from: Text, to: Text, topic: Text, ts: Parsed, sq: Parsed, ended: bool, rest: seq<byte>)

  function HeaderOf(s: seq<byte>): Header {
    var from := TakeField(s);
    var to := TakeField(from.rest);
    var topic := TakeField(to.rest);
    var ts := TakeField(topic.rest);
    var sq := TakeField(ts.rest);
    Header(from.field, to.field, topic.field, Stoull(ts.field), Stoull(sq.field), sq.ended, sq.rest)
  }

  /** What becomes of a datagram: a message, a throwing number parser, or a copy that reads further
      than it may. */
  datatype Outcome = Received(m: Message) | BadNumber | Overread

  /** Length and payload are taken from `rest`. */
  ghost function WithPayload(h: Header, rest: seq<byte>): Outcome {
    if h.ts.Thrown? || h.sq.Thrown? then BadNumber
    else if |rest| < 4 then Overread
    else
      var len := Read32(rest[..4]);
      if |rest| < 4 + len then Overread
      else Received(Message(h.from, h.to, h.topic, h.ts.n, h.sq.n, rest[4..4 + len]))
  }

  /** The intended receiver looks only at what was received. */
  ghost function Decode(s: seq<byte>): Outcome {
    CheckedPayload(HeaderOf(s))
  }

  ghost function CheckedPayload(h: Header): Outcome {
    if !h.ended && h.ts.Parsed? && h.sq.Parsed? then Overread else WithPayload(h, h.rest)
  }

  /** The receiver as written takes length and payload from wherever the position is, without asking
      whether that much was received; the position is one beyond the end if the last field was cut.
      Only the buffer itself bounds what it finds. */
  ghost function DecodeAsWritten(buffer: seq<byte>, received: nat): Outcome
    requires received <= |buffer|
  {
    UncheckedPayload(HeaderOf(buffer[..received]), buffer, received)
  }

  ghost function UncheckedPayload(h: Header, buffer: seq<byte>, received: nat): Outcome
    requires received <= |buffer|
  {
    WithPayload(h, if h.ended then h.rest + buffer[received..] else if received < |buffer| then buffer[received + 1..] else [])
  }

  predicate NulFree(text: Text) {
    0 !in text
  }

  lemma {:induction false} TakeFieldExact(s: seq<byte>)
    ensures var c := TakeField(s);
            NulFree(c.field) && s == (if c.ended then Field(c.field) + c.rest else c.field) && (!c.ended ==> c.rest == [])
  {
    if s != [] && s[0] != 0 {
      TakeFieldExact(s[1..]);
      assert s == [s[0]] + s[1..];
    }
  }

  lemma {:induction false} TakeFieldOf(text: Text, tail: seq<byte>)
    requires NulFree(text)
    ensures TakeField(Field(text) + tail) == Cut(text, tail, true)
  {
    var s := Field(text) + tail;
    if text == [] {
      assert s == [0] + tail && s[1..] == tail;
    } else {
      assert s[0] == text[0] && s[1..] == Field(text[1..]) + tail;
      assert text[0] in text;
      TakeFieldOf(text[1..], tail);
      assert text == [text[0]] + text[1..];
    }
  }

  lemma DecimalNulFree(n: nat)
    ensures NulFree(Decimal(n))
  {
    assert forall i :: 0 <= i < |Decimal(n)| ==> Decimal(n)[i] != 0;
  }

  /** The serialised message, nested from the front as it is read. */
  lemma EncodeNested(m: Message, tail: seq<byte>)
    ensures Encode(m) + tail
            == Field(m.from) + (Field(m.to) + (Field(m.topic) + (Field(Decimal(m.timestamp))
               + (Field(Decimal(m.sequence)) + (Body(m) + tail)))))
  {
    Nest(Field(m.from), Field(m.to), Field(m.topic), Field(Decimal(m.timestamp)), Field(Decimal(m.sequence)), Body(m), tail);
  }

  lemma Nest<T>(a: seq<T>, b: seq<T>, c: seq<T>, d: seq<T>, e: seq<T>, f: seq<T>, g: seq<T>)
    ensures (a + b + c + d + e) + f + g == a + (b + (c + (d + (e + (f + g)))))
  {
    Assoc(a + b + c + d + e, f, g);
    Assoc(a + b + c + d, e, f + g);
    Assoc(a + b + c, d, e + (f + g));
    Assoc(a + b, c, d + (e + (f + g)));
    Assoc(a, b, c + (d + (e + (f + g))));
  }

  /** The fields are read as they were written, and what follows them is left. */
  lemma HeaderOfEncoding(m: Message, tail: seq<byte>)
    requires Sendable(m)
    ensures HeaderOf(Encode(m) + tail)
            == Header(m.from, m.to, m.topic, Parsed(m.timestamp), Parsed(m.sequence), true, Body(m) + tail)
  {
    var t5 := Body(m) + tail;
    var t4 := Field(Decimal(m.sequence)) + t5;
    var t3 := Field(Decimal(m.timestamp)) + t4;
    var t2 := Field(m.topic) + t3;
    EncodeNested(m, tail);
    TakeFieldOf(m.from, Field(m.to) + t2);
    TakeFieldOf(m.to, t2);
    TakeFieldOf(m.topic, t3);
    DecimalNulFree(m.timestamp);
    DecimalNulFree(m.sequence);
    TakeFieldOf(Decimal(m.timestamp), t4);
    TakeFieldOf(Decimal(m.sequence), t5);
    DecimalRoundTrip(m.timestamp);
    DecimalRoundTrip(m.sequence);
  }

  lemma PrefixParts<T>(p: seq<T>, s: seq<T>, k: nat)
    requires k <= |p| && p <= s
    ensures s[..k] == p[..k] && s[k..|p|] == p[k..]
  {
    assert s[..|p|] == p;
    assert s[..|p|][..k] == s[..k] && s[..|p|][k..] == s[k..|p|];
  }

  /** A payload is found in `rest` exactly when its length and its bytes are what `rest` starts with. */
  lemma PayloadExact(h: Header, rest: seq<byte>, m: Message)
    requires h.ts.Parsed? && h.sq.Parsed? && |m.payload| < U32
    requires m == Message(h.from, h.to, h.topic, h.ts.n, h.sq.n, m.payload)
    ensures WithPayload(h, rest) == Received(m) <==> Body(m) <= rest
    ensures |rest| >= 4 && rest[..4] == Le32(|m.payload|) ==>
              WithPayload(h, rest) == if |rest| < |Body(m)| then Overread else Received(m.(payload := rest[4..|Body(m)|]))
  {
    var n := |m.payload|;
    assert n % U32 == n;
    if |rest| >= 4 {
      Le32Of(rest[..4]);
      if |rest| >= 4 + n {
        assert rest[..4 + n] == rest[..4] + rest[4..4 + n];
      }
    }
    if Body(m) <= rest {
      PrefixParts(Body(m), rest, 4);
    }
  }

  /** A message arrives as it was sent, whatever its payload bytes and whatever follows it. */
  lemma Arrives(m: Message, tail: seq<byte>)
    requires Sendable(m) && |m.payload| < U32
    ensures Decode(Encode(m) + tail) == Received(m)
  {
    HeaderOfEncoding(m, tail);
    PayloadExact(HeaderOf(Encode(m) + tail), Body(m) + tail, m);
  }

  /** Whatever is received has NUL-free names and 64-bit numbers, so it could be sent on. */
  lemma ReceivedIsSendable(s: seq<byte>)
    requires Decode(s).Received?
    ensures var m := Decode(s).m; Sendable(m) && |m.payload| < U32 && Decode(Encode(m)) == Received(m)
  {
    var from := TakeField(s);
    var to := TakeField(from.rest);
    TakeFieldExact(s);
    TakeFieldExact(from.rest);
    TakeFieldExact(to.rest);
    Arrives(Decode(s).m, []);
    assert Encode(Decode(s).m) + [] == Encode(Decode(s).m);
  }

  /** The format carries a message exactly when its three names hold no NUL and its length fits. */
  lemma RoundTripsExactly(m: Message)
    requires m.timestamp < U64 && m.sequence < U64
    ensures Decode(Encode(m)) == Received(m) <==> Sendable(m) && |m.payload| < U32
  {
    if Sendable(m) && |m.payload| < U32 {
      Arrives(m, []);
      assert Encode(m) + [] == Encode(m);
    }
    if Decode(Encode(m)) == Received(m) {
      ReceivedIsSendable(Encode(m));
    }
  }

  // ---- Datagrams cut short ----

  lemma {:induction false} TakeFieldMore(s: seq<byte>, tail: seq<byte>)
    requires TakeField(s).ended
    ensures TakeField(s + tail) == Cut(TakeField(s).field, TakeField(s).rest + tail, true)
  {
    assert (s + tail)[1..] == s[1..] + tail;
    if s[0] != 0 {
      TakeFieldMore(s[1..], tail);
    }
  }

  /** A field that starts like a known text is that text, with its terminator, or a part of it. */
  lemma {:induction false} TakeFieldPart(s: seq<byte>, tail: seq<byte>, text: Text, more: seq<byte>)
    requires NulFree(text) && s + tail == Field(text) + more
    ensures var c := TakeField(s);
            if |s| > |text| then c.ended && c.field == text && c.rest + tail == more && |c.rest| == |s| - |text| - 1
            else c == Cut(text[..|s|], [], false)
  {
    var c := TakeField(s);
    TakeFieldExact(s);
    TakeFieldOf(text, more);
    if |s| > |text| {
      assert s[|text|] == (s + tail)[|text|] == 0;
      assert 0 in s;
      TakeFieldMore(s, tail);
    } else {
      if c.ended { TakeFieldMore(s, tail); }
      assert s == (s + tail)[..|s|] == (Field(text) + more)[..|s|] == text[..|s|];
    }
  }

  lemma EmptyField()
    ensures TakeField([]) == Cut([], [], false) && Stoull([]) == Thrown
  {
  }

  lemma ShortNumber(n: nat, j: nat)
    requires j < |Decimal(n)|
    ensures Stoull(Decimal(n)[..j]) != Parsed(n)
  {
    var d := Decimal(n)[..j];
    if j > 0 {
      assert IsDigit(d[0]);
      AllDigits(d);
      assert DigitsOf(d) == Digits(n)[..j];
      FewerDigits(n, j);
    }
  }

  /** What the header of a cut message is read as: complete up to its last terminator, or with a
      number missing or too small. */
  lemma HeaderCut(m: Message, k: nat)
    requires Sendable(m) && k <= |Encode(m)|
    ensures var h, n := HeaderOf(Encode(m)[..k]), |Head(m)|;
            if k >= n then h == Header(m.from, m.to, m.topic, Parsed(m.timestamp), Parsed(m.sequence), true, Encode(m)[n..k])
            else if k == n - 1 then h == Header(m.from, m.to, m.topic, Parsed(m.timestamp), Parsed(m.sequence), false, [])
            else !h.ended && h.sq != Parsed(m.sequence)
  {
    var s, tail := Encode(m)[..k], Encode(m)[k..];
    var t5 := Body(m);
    var t4 := Field(Decimal(m.sequence)) + t5;
    var t3 := Field(Decimal(m.timestamp)) + t4;
    var t2 := Field(m.topic) + t3;
    var t1 := Field(m.to) + t2;
    assert s + tail == Encode(m) == Encode(m) + [] && Body(m) + [] == Body(m);
    EncodeNested(m, []);
    EmptyField();
    DecimalNulFree(m.timestamp);
    DecimalNulFree(m.sequence);
    DecimalRoundTrip(m.timestamp);
    DecimalRoundTrip(m.sequence);
    var c1 := TakeField(s);
    TakeFieldPart(s, tail, m.from, t1);
    if c1.ended {
      var c2 := TakeField(c1.rest);
      TakeFieldPart(c1.rest, tail, m.to, t2);
      if c2.ended {
        var c3 := TakeField(c2.rest);
        TakeFieldPart(c2.rest, tail, m.topic, t3);
        if c3.ended {
          var c4 := TakeField(c3.rest);
          TakeFieldPart(c3.rest, tail, Decimal(m.timestamp), t4);
          if c4.ended {
            var c5 := TakeField(c4.rest);
            TakeFieldPart(c4.rest, tail, Decimal(m.sequence), t5);
            LastField(m, k, c4.rest);
          }
        }
      }
    }
  }

  lemma {:induction false} LastField(m: Message, k: nat, rest: seq<byte>)
    requires Sendable(m) && k <= |Encode(m)| && |rest| + |Head(m)| == k + |Field(Decimal(m.sequence))|
    requires rest + Encode(m)[k..] == Field(Decimal(m.sequence)) + Body(m)
    ensures var c, n := TakeField(rest), |Head(m)|;
            if k >= n then c == Cut(Decimal(m.sequence), Encode(m)[n..k], true)
            else !c.ended && c.rest == [] && (Stoull(c.field) == Parsed(m.sequence) <==> k == n - 1)
  {
    var text := Decimal(m.sequence);
    DecimalNulFree(m.sequence);
    DecimalRoundTrip(m.sequence);
    TakeFieldPart(rest, Encode(m)[k..], text, Body(m));
    if k >= |Head(m)| {
      BodyPart(m, k, TakeField(rest).rest);
    } else if k < |Head(m)| - 1 {
      ShortNumber(m.sequence, |rest|);
    } else {
      assert text[..|rest|] == text;
    }
  }

  lemma BodyPart(m: Message, k: nat, part: seq<byte>)
    requires |Head(m)| <= k <= |Encode(m)| && part + Encode(m)[k..] == Body(m) && |part| == k - |Head(m)|
    ensures part == Encode(m)[|Head(m)|..k]
  {
    assert Encode(m)[|Head(m)|..] == Body(m);
    assert part == Body(m)[..|part|];
  }

  lemma BodyCut(m: Message, h: Header, rest: seq<byte>)
    requires h.ts.Parsed? && h.sq.Parsed? && |m.payload| < U32
    requires rest <= Body(m) && rest != Body(m)
    ensures WithPayload(h, rest) == Overread
  {
    if |rest| >= 4 {
      assert |m.payload| % U32 == |m.payload|;
      assert rest[..4] == Body(m)[..4] == Le32(|m.payload|);
    }
  }

  /** A datagram cut short never passes for a message, if the receiver checks what it received. */
  lemma CutShortIsRejected(m: Message, k: nat)
    requires Sendable(m) && |m.payload| < U32 && k < |Encode(m)|
    ensures !Decode(Encode(m)[..k]).Received?
    ensures k >= |Head(m)| ==> Decode(Encode(m)[..k]) == Overread
  {
    HeaderCut(m, k);
    if k >= |Head(m)| {
      assert Encode(m)[|Head(m)|..k] == Body(m)[..k - |Head(m)|];
      BodyCut(m, HeaderOf(Encode(m)[..k]), Body(m)[..k - |Head(m)|]);
    }
  }

  lemma BehindHeader(m: Message, buffer: seq<byte>, k: nat)
    requires |Head(m)| <= k <= |Encode(m)| && k <= |buffer| && buffer[..k] == Encode(m)[..k]
    ensures Encode(m)[|Head(m)|..k] + buffer[k..] == buffer[|Head(m)|..]
  {
    var n := |Head(m)|;
    assert Encode(m)[n..k] == Encode(m)[..k][n..] == buffer[..k][n..] == buffer[n..k];
    assert buffer[n..k] + buffer[k..] == buffer[n..];
  }

  /** What the receiver as written finds behind the header of a cut message, old bytes included. */
  lemma FoundBehind(m: Message, buffer: seq<byte>, k: nat)
    requires Sendable(m) && |Head(m)| - 1 <= k <= |Encode(m)| && k <= |buffer| && buffer[..k] == Encode(m)[..k]
    ensures var h := HeaderOf(buffer[..k]);
            && h.(ended := true, rest := []) == Header(m.from, m.to, m.topic, Parsed(m.timestamp), Parsed(m.sequence), true, [])
            && DecodeAsWritten(buffer, k) == WithPayload(h, if |Head(m)| <= |buffer| then buffer[|Head(m)|..] else [])
  {
    HeaderCut(m, k);
    if k >= |Head(m)| {
      BehindHeader(m, buffer, k);
    }
  }

  /** What is found behind the header, by its bytes. */
  lemma FoundExactly(m: Message, h: Header, found: seq<byte>)
    requires |m.payload| < U32 && m == Message(h.from, h.to, h.topic, m.timestamp, m.sequence, m.payload)
    requires h.ts == Parsed(m.timestamp) && h.sq == Parsed(m.sequence)
    ensures WithPayload(h, found) == Received(m) <==> |Body(m)| <= |found| && found[..|Body(m)|] == Body(m)
    ensures |found| >= 4 && found[..4] == Le32(|m.payload|) ==>
              WithPayload(h, found) == if |found| < |Body(m)| then Overread else Received(m.(payload := found[4..|Body(m)|]))
  {
    PayloadExact(h, found, m);
  }

  /** The length field lies in the received part, if that reaches so far. */
  lemma LengthReceived(m: Message, buffer: seq<byte>, k: nat)
    requires |m.payload| < U32 && |Head(m)| + 4 <= k <= |Encode(m)| && k <= |buffer| && buffer[..k] == Encode(m)[..k]
    ensures buffer[|Head(m)|..][..4] == Le32(|m.payload|)
  {
    var n := |Head(m)|;
    assert buffer[n..][..4] == buffer[..k][n..n + 4];
    assert Encode(m)[..k][n..n + 4] == Body(m)[..4];
  }

  /** As written, the receiver delivers a cut message with whatever the buffer held before in place of
      what is missing. It is the message sent exactly when the header arrived, up to its last
      terminator, the message fits the buffer, and the old bytes happen to be the missing ones. */
  lemma DeliveredExactly(m: Message, buffer: seq<byte>, k: nat)
    requires Sendable(m) && |m.payload| < U32
    requires k <= |Encode(m)| && k <= |buffer| && buffer[..k] == Encode(m)[..k]
    ensures DecodeAsWritten(buffer, k) == Received(m)
            <==> k >= |Head(m)| - 1 && |Encode(m)| <= |buffer| && buffer[|Head(m)|..|Encode(m)|] == Body(m)
    ensures k >= |Head(m)| + 4 ==>
              DecodeAsWritten(buffer, k)
              == if |buffer| < |Encode(m)| then Overread
                 else Received(m.(payload := buffer[|Head(m)| + 4..|Encode(m)|]))
  {
    var n := |Head(m)|;
    if k < n - 1 {
      HeaderCut(m, k);
    } else {
      FoundBehind(m, buffer, k);
      var found := if n <= |buffer| then buffer[n..] else [];
      FoundExactly(m, HeaderOf(buffer[..k]), found);
      if |Encode(m)| <= |buffer| {
        assert buffer[n..|Encode(m)|] == found[..|Body(m)|];
        assert found[4..|Body(m)|] == buffer[n + 4..|Encode(m)|];
      }
      if k >= n + 4 {
        LengthReceived(m, buffer, k);
      }
    }
  }

  lemma SameRest<T>(whole: seq<T>, buffer: seq<T>, n: nat, k: nat)
    requires n <= k <= |whole| <= |buffer| && buffer[..k] == whole[..k]
    ensures buffer[n..|whole|] == whole[n..] <==> whole <= buffer
    ensures buffer[k..|whole|] == whole[k..] <==> whole <= buffer
  {
    var front := buffer[..|whole|];
    assert front[..k] == buffer[..k] && front[n..] == buffer[n..|whole|] && front[k..] == buffer[k..|whole|];
    assert front == front[..k] + front[k..] && whole == whole[..k] + whole[k..];
    if front[n..] == whole[n..] {
      assert front[k..] == front[n..][k - n..] == whole[n..][k - n..] == whole[k..];
    }
  }

  /** Seen from the missing part: behind a header that arrived, the message delivered is the one sent
      exactly when the buffer already held the rest of it. */
  lemma DeliveredIfRepeated(m: Message, buffer: seq<byte>, k: nat)
    requires Sendable(m) && |m.payload| < U32 && |Head(m)| <= k <= |Encode(m)|
    requires k <= |buffer| && buffer[..k] == Encode(m)[..k]
    ensures DecodeAsWritten(buffer, k) == Received(m) <==> Encode(m) <= buffer
    ensures |Encode(m)| <= |buffer| ==> (Encode(m) <= buffer <==> buffer[k..|Encode(m)|] == Encode(m)[k..])
  {
    DeliveredExactly(m, buffer, k);
    assert Encode(m)[|Head(m)|..] == Body(m);
    if |Encode(m)| <= |buffer| {
      SameRest(Encode(m), buffer, |Head(m)|, k);
    }
  }

  // ---- Sending and receiving ----

  /** `send_raw`, up to the system call: fields and terminators are appended one by one. */
  method Serialise(m: Message) returns (out: seq<byte>)
    requires m.timestamp < U64 && m.sequence < U64
    ensures out == Encode(m)
    ensures out == m.from + [0] + m.to + [0] + m.topic + [0] + Decimal(m.timestamp) + [0] + Decimal(m.sequence) + [0]
                   + Le32(|m.payload| % U32) + m.payload
    ensures Decode(out) == Received(m) <==> Sendable(m) && |m.payload| < U32
  {
    RoundTripsExactly(m);
    out := m.from + [0];
    out := AppendField(out, m.to);
    out := AppendField(out, m.topic);
    out := AppendField(out, Decimal(m.timestamp));
    out := AppendField(out, Decimal(m.sequence));
    Assoc(Head(m), Le32(|m.payload| % U32), m.payload);
    out := out + Le32(|m.payload| % U32);
    out := out + m.payload;
  }

  method AppendField(out: seq<byte>, text: Text) returns (r: seq<byte>)
    ensures r == out + Field(text)
  {
    r := out + text;
    r := r + [0];
    Assoc(out, text, [0]);
  }

  const BUFFER: nat := 65536

  ghost function Rest(s: seq<byte>, pos: nat): seq<byte> {
    if pos <= |s| then s[pos..] else []
  }

  /** One field of the receive buffer: the position moves past its terminator, or past the end. */
  method ReadField(buffer: array<byte>, received: nat, start: nat) returns (field: Text, pos: nat)
    requires received <= buffer.Length
    ensures var c := TakeField(Rest(buffer[..received], start));
            && field == c.field && Rest(buffer[..received], pos) == c.rest && (pos <= received <==> c.ended)
            && (start <= received ==> pos <= received + 1)
  {
    ghost var s := buffer[..received];
    field, pos := [], start;
    ghost var c := TakeField(Rest(s, start));
    while pos < received && buffer[pos] != 0
      invariant pos <= received || pos == start
      invariant var d := TakeField(Rest(s, pos)); c == Cut(field + d.field, d.rest, d.ended)
    {
      assert s[pos..][1..] == s[pos + 1..];
      assert s[pos..][0] == buffer[pos];
      field := field + [buffer[pos]];
      pos := pos + 1;
    }
    if pos < received {
      assert s[pos..][1..] == s[pos + 1..];
    }
    pos := pos + 1;
  }

  /** What reading a header found, and where that left the position. */
  ghost predicate HeaderRead(was: Header, h: Option<Header>, pos: nat, s: seq<byte>) {
    && (h == None <==> was.ts.Thrown? || was.sq.Thrown?)
    && (h.Some? ==>
          && h.value.(ended := was.ended, rest := was.rest) == was
          && Rest(s, pos) == was.rest && (pos <= |s| <==> was.ended) && pos <= |s| + 1)
  }

  /** The five fields of a datagram; None when a number cannot be parsed. */
  method ReadHeader(buffer: array<byte>, received: nat) returns (h: Option<Header>, pos: nat)
    requires received <= buffer.Length
    ensures HeaderRead(HeaderOf(buffer[..received]), h, pos, buffer[..received])
  {
    var from, to, topic, ts, sq;
    from, pos := ReadField(buffer, received, 0);
    to, pos := ReadField(buffer, received, pos);
    topic, pos := ReadField(buffer, received, pos);
    ts, pos := ReadField(buffer, received, pos);
    var timestamp := Stoull(ts);
    if timestamp.Thrown? { return None, pos; }
    ghost var before := pos;
    sq, pos := ReadField(buffer, received, pos);
    var sequence := Stoull(sq);
    if sequence.Thrown? { return None, pos; }
    assert before <= received;
    h := Some(Header(from, to, topic, timestamp, sequence, true, []));
  }

  /** `receive_loop`, from the received bytes to the message, as written. */
  method Receive(buffer: array<byte>, received: nat) returns (r: Outcome)
    requires buffer.Length == BUFFER && received <= BUFFER
    ensures r == DecodeAsWritten(buffer[..], received)
  {
    var h, pos := ReadHeader(buffer, received);
    assert buffer[..][..received] == buffer[..received];
    r := ReceivePayload(buffer, received, h, pos, HeaderOf(buffer[..received]));
  }

  method ReceivePayload(buffer: array<byte>, received: nat, h: Option<Header>, pos: nat, ghost was: Header) returns (r: Outcome)
    requires received <= buffer.Length && HeaderRead(was, h, pos, buffer[..received])
    ensures r == UncheckedPayload(was, buffer[..], received)
  {
    if h == None { return BadNumber; }
    WhereverItIs(buffer[..], received, pos, was);
    assert buffer[..buffer.Length] == buffer[..];
    r := ReadPayload(buffer, buffer.Length, pos, h.value);
  }

  lemma WhereverItIs(buffer: seq<byte>, received: nat, pos: nat, h: Header)
    requires received <= |buffer| && pos <= received + 1 && (pos <= received <==> h.ended)
    requires Rest(buffer[..received], pos) == h.rest
    ensures Rest(buffer, pos)
            == if h.ended then h.rest + buffer[received..] else if received < |buffer| then buffer[received + 1..] else []
  {
  }

  /** The receiver that takes nothing beyond what was received. */
  method ReceiveChecked(buffer: array<byte>, received: nat) returns (r: Outcome)
    requires buffer.Length == BUFFER && received <= BUFFER
    ensures r == Decode(buffer[..received])
  {
    var h, pos := ReadHeader(buffer, received);
    r := ReceiveCheckedPayload(buffer, received, h, pos, HeaderOf(buffer[..received]));
  }

  method ReceiveCheckedPayload(buffer: array<byte>, received: nat, h: Option<Header>, pos: nat, ghost was: Header)
    returns (r: Outcome)
    requires received <= buffer.Length && HeaderRead(was, h, pos, buffer[..received])
    ensures r == CheckedPayload(was)
  {
    if h == None { return BadNumber; }
    r := ReadPayload(buffer, received, pos, h.value);
  }

  /** Length and payload, from the bytes before `end`. */
  method ReadPayload(buffer: array<byte>, end: nat, start: nat, h: Header) returns (r: Outcome)
    requires end <= buffer.Length && h.ts.Parsed? && h.sq.Parsed?
    ensures r == WithPayload(h, Rest(buffer[..end], start))
  {
    if start + 4 > end { return Overread; }
    ghost var rest := buffer[..end][start..];
    var pos := start;
    var len := ParseLe32(buffer[pos..pos + 4]);
    assert buffer[pos..pos + 4] == rest[..4];
    pos := pos + 4;
    if pos + len > end { return Overread; }
    assert buffer[pos..pos + len] == rest[4..4 + len];
    return Received(Message(h.from, h.to, h.topic, h.ts.n, h.sq.n, buffer[pos..pos + len]));
  }

  // ---- The receiving queue ----

  datatype Arrival = Queued(m: Message) | Refused(m: Message)

  datatype Departure = HandedOut(m: Message) | Drained(m: Message)

  function Accepted(arrivals: seq<Arrival>): seq<Message> {
    if arrivals == [] then []
    else
      var before, last := Accepted(arrivals[..|arrivals| - 1]), arrivals[|arrivals| - 1];
      if last.Queued? then before + [last.m] else before
  }

  function Dropped(arrivals: seq<Arrival>): nat {
    if arrivals == [] then 0
    else Dropped(arrivals[..|arrivals| - 1]) + if arrivals[|arrivals| - 1].Refused? then 1 else 0
  }

  function Messages(gone: seq<Departure>): seq<Message> {
    seq(|gone|, i requires 0 <= i < |gone| => gone[i].m)
  }

  function Leaving(ms: seq<Message>, handedOut: bool): seq<Departure> {
    seq(|ms|, i requires 0 <= i < |ms| => if handedOut then HandedOut(ms[i]) else Drained(ms[i]))
  }

  class Channel {
    const id: Text
    const queueSize: nat
    var queue: seq<Message>
    var dropped: nat
    var sent: nat
    var bytesSent: nat
    var subscribers: map<Text, seq<nat>>
    ghost var arrivals: seq<Arrival>
    ghost var gone: seq<Departure>
    ghost var failedSends: nat

    ghost predicate Addressed(m: Message) {
      m.to == [] || m.to == id
    }

    /** Of the messages that came for this channel, the ones it did not refuse are those that left,
        in the order they came, followed by those still queued. The counter of dropped messages counts
        the refused ones and the sends that failed. */
    ghost predicate Valid()
      reads this
    {
      && |queue| <= queueSize
      && Accepted(arrivals) == Messages(gone) + queue
      && dropped == Dropped(arrivals) + failedSends
      && forall i :: 0 <= i < |arrivals| ==> Addressed(arrivals[i].m)
    }

    constructor (id: Text, queueSize: nat)
      ensures Valid() && queue == [] && arrivals == [] && dropped == 0 && this.id == id && this.queueSize == queueSize
    {
      this.id, this.queueSize := id, queueSize;
      queue, dropped, sent, bytesSent := [], 0, 0, 0;
      subscribers, arrivals, gone, failedSends := map[], [], [], 0;
    }

    /** What the end of a send counts; a negative number of bytes is a failure. */
    method CountSend(bytes: int) returns (ok: bool)
      requires Valid()
      modifies this`dropped, this`sent, this`bytesSent, this`failedSends
      ensures Valid() && ok == (bytes >= 0)
      ensures ok ==> sent == old(sent) + 1 && bytesSent == old(bytesSent) + bytes && dropped == old(dropped)
      ensures !ok ==> sent == old(sent) && bytesSent == old(bytesSent) && dropped == old(dropped) + 1
      ensures failedSends == old(failedSends) + if ok then 0 else 1
    {
      if bytes < 0 {
        dropped := dropped + 1;
        failedSends := failedSends + 1;
        return false;
      }
      sent := sent + 1;
      bytesSent := bytesSent + bytes;
      return true;
    }

    method Subscribe(topic: Text, callback: nat)
      requires Valid()
      modifies this`subscribers
      ensures Valid() && subscribers == old(subscribers)[topic := old(Callbacks(topic)) + [callback]]
    {
      subscribers := subscribers[topic := Callbacks(topic) + [callback]];
    }

    function Callbacks(topic: Text): seq<nat>
      reads this`subscribers
    {
      if topic in subscribers then subscribers[topic] else []
    }

    /** A message for somebody else leaves no trace. Any other is queued, or refused exactly when the
        queue is full; the subscribers of its topic and then the wildcard ones are called either way. */
    method HandleMessage(m: Message) returns (calls: seq<nat>)
      requires Valid()
      modifies this
      ensures Valid() && gone == old(gone) && subscribers == old(subscribers) && failedSends == old(failedSends)
      ensures !Addressed(m) ==> queue == old(queue) && arrivals == old(arrivals) && dropped == old(dropped) && calls == []
      ensures Addressed(m) ==>
                && calls == Callbacks(m.topic) + Callbacks([42])
                && if |old(queue)| == queueSize then
                     queue == old(queue) && arrivals == old(arrivals) + [Refused(m)] && dropped == old(dropped) + 1
                   else
                     queue == old(queue) + [m] && arrivals == old(arrivals) + [Queued(m)] && dropped == old(dropped)
    {
      calls := [];
      if m.to != [] && m.to != id { return; }
      if |queue| < queueSize {
        queue := queue + [m];
        arrivals := arrivals + [Queued(m)];
      } else {
        dropped := dropped + 1;
        arrivals := arrivals + [Refused(m)];
      }
      assert arrivals[..|arrivals| - 1] == old(arrivals);
      Assoc(Messages(gone), old(queue), [m]);
      calls := calls + Callbacks(m.topic);
      calls := calls + Callbacks([42]);
    }

    /** Hands out the oldest messages, up to `max` of them. */
    method GetPending(max: nat) returns (result: seq<Message>)
      requires Valid()
      modifies this
      ensures Valid() && arrivals == old(arrivals) && dropped == old(dropped) && subscribers == old(subscribers)
      ensures failedSends == old(failedSends)
      ensures old(queue) == result + queue && |result| == if max < |old(queue)| then max else |old(queue)|
      ensures gone == old(gone) + Leaving(result, true)
    {
      result := [];
      while queue != [] && |result| < max
        invariant |result| <= max && old(queue) == result + queue
        invariant arrivals == old(arrivals) && dropped == old(dropped) && subscribers == old(subscribers)
        invariant failedSends == old(failedSends)
        invariant gone == old(gone)
        decreases |queue|
      {
        assert queue == [queue[0]] + queue[1..];
        result := result + [queue[0]];
        queue := queue[1..];
      }
      gone := gone + Leaving(result, true);
      Left(old(gone), result, true, queue);
    }

    method Drain()
      requires Valid()
      modifies this
      ensures Valid() && arrivals == old(arrivals) && dropped == old(dropped) && subscribers == old(subscribers)
      ensures failedSends == old(failedSends)
      ensures queue == [] && gone == old(gone) + Leaving(old(queue), false)
    {
      while queue != []
        invariant arrivals == old(arrivals) && dropped == old(dropped) && subscribers == old(subscribers)
        invariant failedSends == old(failedSends)
        invariant gone == old(gone)
        decreases |queue|
      {
        queue := queue[1..];
      }
      gone := gone + Leaving(old(queue), false);
      Left(old(gone), old(queue), false, []);
    }
  }

  lemma Left(gone: seq<Departure>, ms: seq<Message>, handedOut: bool, queue: seq<Message>)
    ensures Messages(gone + Leaving(ms, handedOut)) + queue == Messages(gone) + (ms + queue)
  {
  }
}
