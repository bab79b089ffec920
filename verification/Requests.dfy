/**
 Requests on the wire: the client fills one buffer per command, the server reads commands off the
 stream one after the other. Arguments are byte strings; the server takes only valid UTF-8.
 */
module Requests {
  import opened Basics
  import opened Bytes
  import opened Unicode

  type Arg = seq<byte>

  const MAX_MSG_SIZE: nat := 4 * 1024 * 1024
  const MAX_ARGS: nat := 1024

  datatype ReadError =
    | Io
    | TooLarge(size: nat)
    | TooManyArgs(count: nat)
    | HeaderTooShort
    | TruncatedArgHeader
    | TruncatedArgBody
    | InvalidUtf8

  datatype Result<+T> = Ok(value: T) | Err(error: ReadError)

  // ---- The client's frame ----

  function PayloadSize(args: seq<Arg>): nat {
    4 + ArgsSize(args)
  }

  function ArgsSize(args: seq<Arg>): nat {
    if args == [] then 0 else ArgsSize(args[..|args| - 1]) + 4 + |args[|args| - 1]|
  }

  /** Sizes fit the 32-bit counters of the client, the size of its buffer included. */
  predicate Printable(args: seq<Arg>) {
    4 + PayloadSize(args) < U32 && |args| < U32 && forall i :: 0 <= i < |args| ==> |args[i]| < U32
  }

  lemma {:induction false} PrintableIfShort(args: seq<Arg>)
    ensures |args| <= ArgsSize(args) && forall i :: 0 <= i < |args| ==> |args[i]| <= ArgsSize(args)
    ensures Printable(args) <==> 8 + ArgsSize(args) < U32
  {
    if args != [] {
      PrintableIfShort(args[..|args| - 1]);
      forall i | 0 <= i < |args|
        ensures |args[i]| <= ArgsSize(args)
      {
        if i < |args| - 1 { assert args[i] == args[..|args| - 1][i]; }
      }
    }
  }

  function ArgBytes(args: seq<Arg>): (b: seq<byte>)
    requires forall i :: 0 <= i < |args| ==> |args[i]| < U32
    ensures |b| == ArgsSize(args)
  {
    if args == [] then []
    else ArgBytes(args[..|args| - 1]) + (Le32(|args[|args| - 1]|) + args[|args| - 1])
  }

  function Frame(args: seq<Arg>): (b: seq<byte>)
    requires Printable(args)
    ensures |b| == 4 + PayloadSize(args)
  {
    Le32(PayloadSize(args)) + Le32(|args|) + ArgBytes(args)
  }

  method CopyInto(msg: array<byte>, offset: nat, src: seq<byte>)
    requires offset + |src| <= msg.Length
    modifies msg
    ensures msg[..offset] == old(msg[..offset]) && msg[offset..offset + |src|] == src
    ensures msg[..offset + |src|] == old(msg[..offset]) + src
  {
    for i := 0 to |src|
      invariant msg[..offset] == old(msg[..offset])
      invariant msg[offset..offset + i] == src[..i]
    {
      msg[offset + i] := src[i];
    }
  }

  /** The size of the payload, added up in 32 bits. */
  method SizeOf(args: seq<Arg>) returns (payload: nat)
    ensures payload == PayloadSize(args) % U32
  {
    payload := 4;
    for i := 0 to |args|
      invariant payload == PayloadSize(args[..i]) % U32
    {
      assert args[..i + 1][..i] == args[..i];
      payload := (payload + 4 + |args[i]|) % U32;
    }
    assert args[..|args|] == args;
  }

  lemma Wraps(n: nat, m: nat, payload: nat, size: nat)
    requires m <= n && payload == (4 + n) % U32 && size == (4 + payload) % U32
    ensures 8 + n < U32 <==> 8 + n <= size
    ensures 8 + n < U32 ==> size == 8 + n && payload == 4 + n && m % U32 == m
  {
  }

  /** The buffer is as large as the frame exactly when nothing overflows, and otherwise too small. */
  lemma {:induction false} BufferSize(args: seq<Arg>, payload: nat, size: nat)
    requires payload == PayloadSize(args) % U32 && size == (4 + payload) % U32
    ensures Printable(args) <==> 8 + ArgsSize(args) <= size
    ensures Printable(args) ==> size == 8 + ArgsSize(args) && payload == PayloadSize(args) && |args| % U32 == |args|
  {
    PrintableIfShort(args);
    Wraps(ArgsSize(args), |args|, payload, size);
  }

  /** Lays a command out in one buffer, advancing `offset` over it. The buffer's size is computed in 32
      bits; None stands for copies that run past its end, which happens exactly when that overflows. */
  method PrintRequest(args: seq<Arg>) returns (r: Option<array<byte>>)
    ensures r.Some? <==> Printable(args)
    ensures r.Some? ==> fresh(r.value) && r.value[..] == Frame(args)
  {
    var payload := SizeOf(args);
    var size := (4 + payload) % U32;
    BufferSize(args, payload, size);
    if size < 8 { return None; }
    var msg := new byte[size];
    PrintHeader(msg, payload, |args| % U32);
    ghost var head := msg[..8];
    var ok := PrintArgs(msg, args);
    if !ok { return None; }
    WholeFrame(msg[..], head, args);
    return Some(msg);
  }

  method PrintHeader(msg: array<byte>, payload: nat, n: nat)
    requires payload < U32 && n < U32 && msg.Length >= 8
    modifies msg
    ensures msg[..8] == Le32(payload) + Le32(n)
  {
    CopyInto(msg, 0, Le32(payload));
    assert msg[..0] == [];
    CopyInto(msg, 4, Le32(n));
  }

  lemma {:induction false} WholeFrame(b: seq<byte>, head: seq<byte>, args: seq<Arg>)
    requires Printable(args) && |b| == 8 + ArgsSize(args)
    requires b[..8] == head == Le32(PayloadSize(args)) + Le32(|args|) && b[8..] == ArgBytes(args)
    ensures b == Frame(args)
  {
    assert b == b[..8] + b[8..];
  }

  /** The arguments go after the eight bytes of the two counters, if there is room for them. */
  method PrintArgs(msg: array<byte>, args: seq<Arg>) returns (ok: bool)
    requires 8 <= msg.Length < U32
    modifies msg
    ensures ok <==> 8 + ArgsSize(args) <= msg.Length
    ensures ok ==> forall i :: 0 <= i < |args| ==> |args[i]| < U32
    ensures ok ==> msg[..8] == old(msg[..8]) && msg[8..8 + ArgsSize(args)] == ArgBytes(args)
  {
    ghost var head := msg[..8];
    var offset := 8;
    PrintableIfShort(args);
    for i := 0 to |args|
      invariant offset == 8 + ArgsSize(args[..i]) <= msg.Length
      invariant forall j :: 0 <= j < i ==> |args[j]| < U32
      invariant msg[..offset] == head + ArgBytes(args[..i])
    {
      PrefixSize(args, i + 1);
      assert args[..i + 1][..i] == args[..i];
      if offset + 4 + |args[i]| > msg.Length { return false; }
      offset := PrintArg(msg, offset, args[i]);
      Assoc(head, ArgBytes(args[..i]), Le32(|args[i]|) + args[i]);
    }
    assert args[..|args|] == args;
    Split(head, ArgBytes(args));
    assert msg[..offset][..8] == msg[..8] && msg[..offset][8..] == msg[8..offset];
    return true;
  }

  method PrintArg(msg: array<byte>, offset: nat, arg: Arg) returns (end: nat)
    requires |arg| < U32 && offset + 4 + |arg| <= msg.Length
    modifies msg
    ensures end == offset + 4 + |arg| && msg[..end] == old(msg[..offset]) + (Le32(|arg|) + arg)
  {
    ghost var done := msg[..offset];
    CopyInto(msg, offset, Le32(|arg|));
    CopyInto(msg, offset + 4, arg);
    Assoc(done, Le32(|arg|), arg);
    end := offset + 4 + |arg|;
  }

  lemma {:induction false} PrefixSize(args: seq<Arg>, i: nat)
    requires i <= |args|
    ensures ArgsSize(args[..i]) <= ArgsSize(args)
  {
    if i < |args| {
      PrefixSize(args[..|args| - 1], i);
      assert args[..|args| - 1][..i] == args[..i];
    } else {
      assert args[..i] == args;
    }
  }

  // ---- The server's reader ----

  ghost function ParseArgs(buf: seq<byte>, n: nat): (r: Result<seq<Arg>>)
    ensures match r case Ok(args) => |args| == n case Err(e) => e.TruncatedArgHeader? || e.TruncatedArgBody? || e.InvalidUtf8?
    decreases n
  {
    if n == 0 then Ok([])
    else if |buf| < 4 then Err(TruncatedArgHeader)
    else
      var size := Read32(buf[..4]);
      if |buf| - 4 < size then Err(TruncatedArgBody)
      else if !ValidUtf8(buf[4..4 + size]) then Err(InvalidUtf8)
      else
        match ParseArgs(buf[4 + size..], n - 1)
        case Err(e) => Err(e)
        case Ok(args) => Ok([buf[4..4 + size]] + args)
  }

  /** What one read takes off the stream. */
  datatype Reading = Reading(result: Result<seq<Arg>>, rest: seq<byte>)

  ghost function ReadOne(stream: seq<byte>): (r: Reading)
    ensures r.result.Ok? ==> |r.rest| < |stream|
  {
    if |stream| < 4 then Reading(Err(Io), [])
    else
      var size := Read32(stream[..4]);
      if size > MAX_MSG_SIZE then Reading(Err(TooLarge(size)), stream[4..])
      else if |stream| < 4 + size then Reading(Err(Io), [])
      else Reading(ParseBody(stream[4..4 + size]), stream[4 + size..])
  }

  ghost function ParseBody(buf: seq<byte>): Result<seq<Arg>> {
    if |buf| < 4 then Err(HeaderTooShort)
    else if Read32(buf[..4]) > MAX_ARGS then Err(TooManyArgs(Read32(buf[..4])))
    else ParseArgs(buf[4..], Read32(buf[..4]))
  }

  method ReadRequest(stream: seq<byte>) returns (result: Result<seq<Arg>>, rest: seq<byte>)
    ensures Reading(result, rest) == ReadOne(stream)
    // A stream that ends before the announced frame does is an I/O error, unless the frame is too large.
    ensures result == Err(Io) <==> |stream| < 4 || |stream| - 4 < Read32(stream[..4]) <= 4 * 1024 * 1024
    ensures |stream| >= 4 ==> (result == Err(TooLarge(Read32(stream[..4]))) <==> Read32(stream[..4]) > 4 * 1024 * 1024)
    ensures result.Ok? ==> |result.value| <= 1024
    ensures result.Err? && result.error.TooManyArgs? ==> result.error.count > 1024
  {
    if |stream| < 4 {
      return Err(Io), [];
    }
    var size := ParseLe32(stream[..4]);
    if size > MAX_MSG_SIZE {
      return Err(TooLarge(size)), stream[4..];
    }
    if |stream| < 4 + size {
      return Err(Io), [];
    }
    rest := stream[4 + size..];
    var buf := stream[4..4 + size];
    if |buf| < 4 {
      return Err(HeaderTooShort), rest;
    }
    var n := ParseLe32(buf[..4]);
    if n > MAX_ARGS {
      return Err(TooManyArgs(n)), rest;
    }
    result := ReadArgs(buf[4..], n);
  }

  lemma NextArg(buf: seq<byte>, size: nat)
    requires |buf| >= 4 && size <= |buf| - 4
    ensures buf[4..][..size] == buf[4..4 + size] && buf[4..][size..] == buf[4 + size..]
  {
    Slice(buf, 4, 0, size);
    Suffix(buf, 4, size);
  }

  method ReadArgs(body: seq<byte>, n: nat) returns (result: Result<seq<Arg>>)
    ensures result == ParseArgs(body, n)
  {
    var buf := body;
    var args: seq<Arg> := [];
    ghost var all := ParseArgs(body, n);
    assert all.Ok? ==> args + all.value == all.value;
    for i := 0 to n
      invariant Prepended(all, args, ParseArgs(buf, n - i))
    {
      if |buf| < 4 {
        return Err(TruncatedArgHeader);
      }
      var size := ParseLe32(buf[..4]);
      ghost var was := buf;
      buf := buf[4..];
      if |buf| < size {
        return Err(TruncatedArgBody);
      }
      NextArg(was, size);
      if !ValidUtf8(buf[..size]) {
        return Err(InvalidUtf8);
      }
      PrependOne(all, args, buf[..size], ParseArgs(buf[size..], n - i - 1));
      args := args + [buf[..size]];
      buf := buf[size..];
    }
    assert args + [] == args;
    return Ok(args);
  }

  ghost predicate Prepended(all: Result<seq<Arg>>, args: seq<Arg>, rest: Result<seq<Arg>>) {
    match rest
    case Err(e) => all == Err(e)
    case Ok(more) => all == Ok(args + more)
  }

  lemma PrependOne(all: Result<seq<Arg>>, args: seq<Arg>, arg: Arg, rest: Result<seq<Arg>>)
    requires Prepended(all, args, match rest case Err(e) => Err(e) case Ok(more) => Ok([arg] + more))
    ensures Prepended(all, args + [arg], rest)
  {
    if rest.Ok? {
      Assoc(args, [arg], rest.value);
    }
  }

  // ---- What is accepted ----

  ghost predicate ArgWidths(args: seq<Arg>) {
    forall i :: 0 <= i < |args| ==> |args[i]| < U32
  }

  /** Four pieces in a row, the first of them at the start of `b`. */
  lemma InARow(b: seq<byte>, i: nat, j: nat, more: seq<byte>)
    requires i <= j <= |b| && more <= b[j..]
    ensures var all := b[..i] + b[i..j] + more; all <= b && b[|all|..] == b[j..][|more|..]
  {
    assert b == b[..i] + b[i..j] + b[j..];
    assert b[j..] == more + b[j..][|more|..];
  }

  lemma OneMoreArg(buf: seq<byte>, size: nat, more: seq<Arg>)
    requires |buf| >= 4 && size == Read32(buf[..4]) <= |buf| - 4
    requires ArgWidths(more) && ArgBytes(more) <= buf[4 + size..]
    ensures var args := [buf[4..4 + size]] + more;
            && ArgWidths(args) && ArgBytes(args) <= buf
            && buf[|ArgBytes(args)|..] == buf[4 + size..][|ArgBytes(more)|..]
  {
    var args := [buf[4..4 + size]] + more;
    assert args[1..] == more;
    Le32Of(buf[..4]);
    ArgBytesFirst(args);
    InARow(buf, 4, 4 + size, ArgBytes(more));
  }

  /** The arguments read lie at the start of the buffer, one behind the other. */
  lemma {:induction false} ParsedArgs(buf: seq<byte>, n: nat)
    requires ParseArgs(buf, n).Ok?
    ensures var args := ParseArgs(buf, n).value; ArgWidths(args) && AllUtf8(args) && ArgBytes(args) <= buf
    decreases n
  {
    if n > 0 {
      var size := Read32(buf[..4]);
      ParsedArgs(buf[4 + size..], n - 1);
      OneMoreArg(buf, size, ParseArgs(buf[4 + size..], n - 1).value);
    }
  }

  /** What is wrong with the argument that `rest` should start with. */
  ghost predicate Fails(rest: seq<byte>, e: ReadError) {
    match e
    case TruncatedArgHeader => |rest| < 4
    case TruncatedArgBody => |rest| >= 4 && |rest| - 4 < Read32(rest[..4])
    case InvalidUtf8 => |rest| >= 4 && |rest| - 4 >= Read32(rest[..4]) && !ValidUtf8(rest[4..4 + Read32(rest[..4])])
    case _ => false
  }

  /** If reading stops, but not here, it stops at a later argument. */
  lemma StopsLater(buf: seq<byte>, n: nat)
    requires ParseArgs(buf, n).Err? && !Fails(buf, ParseArgs(buf, n).error)
    ensures |buf| >= 4 && n > 0
    ensures var size := Read32(buf[..4]);
            && size <= |buf| - 4 && ValidUtf8(buf[4..4 + size])
            && ParseArgs(buf[4 + size..], n - 1) == ParseArgs(buf, n)
  {
  }

  /** The arguments `done` are whole and text, and the next one is what is wrong. */
  ghost predicate StopsAfter(buf: seq<byte>, n: nat, e: ReadError, done: seq<Arg>) {
    |done| < n && ArgWidths(done) && AllUtf8(done) && ArgBytes(done) <= buf && Fails(buf[|ArgBytes(done)|..], e)
  }

  lemma StopsAfterMore(buf: seq<byte>, size: nat, n: nat, e: ReadError, more: seq<Arg>)
    requires |buf| >= 4 && size == Read32(buf[..4]) <= |buf| - 4 && ValidUtf8(buf[4..4 + size])
    requires StopsAfter(buf[4 + size..], n, e, more)
    ensures StopsAfter(buf, n + 1, e, [buf[4..4 + size]] + more)
  {
    OneMoreArg(buf, size, more);
  }

  /** When reading stops, the arguments before are whole and text, and the next one is cut in its length,
      cut in its bytes, or no text. */
  lemma {:induction false} FailedArgs(buf: seq<byte>, n: nat) returns (done: seq<Arg>)
    requires ParseArgs(buf, n).Err?
    ensures StopsAfter(buf, n, ParseArgs(buf, n).error, done)
    decreases n
  {
    done := [];
    assert buf[0..] == buf;
    if !Fails(buf, ParseArgs(buf, n).error) {
      StopsLater(buf, n);
      var size := Read32(buf[..4]);
      var more := FailedArgs(buf[4 + size..], n - 1);
      StopsAfterMore(buf, size, n - 1, ParseArgs(buf, n).error, more);
      done := [buf[4..4 + size]] + more;
    }
  }

  /** `all` is made of three pieces, the middle one of two and then others. */
  lemma ThreePieces(all: seq<byte>, size: seq<byte>, buf: seq<byte>, rest: seq<byte>, n: seq<byte>, args: seq<byte>, extra: seq<byte>)
    requires all == size + buf + rest && buf == n + (args + extra)
    ensures all == size + n + args + extra + rest
    ensures extra == [] ==> all == size + n + args + rest
  {
    assert size + buf == size + n + args + extra;
  }

  lemma BodyLayThere(buf: seq<byte>) returns (extra: seq<byte>)
    requires ParseBody(buf).Ok?
    ensures var args := ParseBody(buf).value;
            ArgWidths(args) && AllUtf8(args) && |args| <= 1024 && buf == Le32(|args|) + (ArgBytes(args) + extra)
  {
    var args := ParseBody(buf).value;
    ParsedArgs(buf[4..], |args|);
    extra := buf[4..][|ArgBytes(args)|..];
    Le32Of(buf[..4]);
    PrefixAnd(ArgBytes(args), buf[4..]);
    assert buf == buf[..4] + buf[4..];
  }

  lemma PrefixAnd(p: seq<byte>, s: seq<byte>)
    requires p <= s
    ensures s == p + s[|p|..]
  {
  }

  lemma FrameLayThere(stream: seq<byte>)
    requires ReadOne(stream).result.Ok?
    ensures |stream| >= 4
    ensures var size := Read32(stream[..4]);
            && size <= 4 * 1024 * 1024 && |stream| >= 4 + size
            && ReadOne(stream) == Reading(ParseBody(stream[4..4 + size]), stream[4 + size..])
            && stream == Le32(size) + stream[4..4 + size] + stream[4 + size..]
  {
    Le32Of(stream[..4]);
  }

  /** What the server accepts lay wholly in the stream, as a frame of just the arguments returned and
      perhaps bytes behind them that it ignores. */
  lemma AcceptedLayThere(stream: seq<byte>) returns (extra: seq<byte>)
    requires ReadOne(stream).result.Ok?
    ensures var args, rest := ReadOne(stream).result.value, ReadOne(stream).rest;
            && ArgWidths(args) && AllUtf8(args) && |args| <= 1024 && PayloadSize(args) + |extra| <= 4 * 1024 * 1024
            && stream == Le32(PayloadSize(args) + |extra|) + Le32(|args|) + ArgBytes(args) + extra + rest
            && (extra == [] && Printable(args) ==> stream == Frame(args) + rest)
  {
    FrameLayThere(stream);
    var size, args, rest := Read32(stream[..4]), ReadOne(stream).result.value, ReadOne(stream).rest;
    var buf := stream[4..4 + size];
    extra := BodyLayThere(buf);
    ThreePieces(stream, Le32(size), buf, rest, Le32(|args|), ArgBytes(args), extra);
  }

  // ---- What the server makes of the client's frames ----

  predicate AllUtf8(args: seq<Arg>) {
    forall i :: 0 <= i < |args| ==> ValidUtf8(args[i])
  }

  lemma {:induction false} ArgBytesFirst(args: seq<Arg>)
    requires args != [] && forall i :: 0 <= i < |args| ==> |args[i]| < U32
    ensures ArgBytes(args) == Le32(|args[0]|) + args[0] + ArgBytes(args[1..])
  {
    var front, last := args[..|args| - 1], args[|args| - 1];
    if |args| == 1 {
      assert front == [] && args[1..] == [];
    } else {
      ArgBytesFirst(front);
      assert args[1..][..|args| - 2] == front[1..] && args[1..][|args| - 2] == last;
      Assoc(Le32(|args[0]|) + args[0], ArgBytes(front[1..]), Le32(|last|) + last);
    }
  }

  lemma ParseOneArg(arg: Arg, rest: seq<byte>, n: nat)
    requires |arg| < U32
    ensures ParseArgs(Le32(|arg|) + arg + rest, n + 1)
            == if !ValidUtf8(arg) then Err(InvalidUtf8)
               else match ParseArgs(rest, n) case Err(e) => Err(e) case Ok(more) => Ok([arg] + more)
  {
    var size := Le32(|arg|);
    Assoc(size, arg, rest);
    Split(size, arg + rest);
    Middle(size, arg, rest);
  }

  lemma {:induction false} ParsePrinted(args: seq<Arg>)
    requires forall i :: 0 <= i < |args| ==> |args[i]| < U32
    ensures ParseArgs(ArgBytes(args), |args|) == if AllUtf8(args) then Ok(args) else Err(InvalidUtf8)
  {
    if args != [] {
      ArgBytesFirst(args);
      ParseOneArg(args[0], ArgBytes(args[1..]), |args| - 1);
      ParsePrinted(args[1..]);
      assert args == [args[0]] + args[1..];
      if AllUtf8(args) {
        assert AllUtf8(args[1..]);
      } else if ValidUtf8(args[0]) {
        assert !AllUtf8(args[1..]) by {
          var i :| 0 <= i < |args| && !ValidUtf8(args[i]);
          assert args[1..][i - 1] == args[i];
        }
      }
    }
  }

  /** The commands that the server takes. */
  predicate Accepted(args: seq<Arg>) {
    PayloadSize(args) <= MAX_MSG_SIZE && |args| <= MAX_ARGS && AllUtf8(args)
  }

  function Refusal(args: seq<Arg>): ReadError {
    if PayloadSize(args) > MAX_MSG_SIZE then TooLarge(PayloadSize(args))
    else if |args| > MAX_ARGS then TooManyArgs(|args|)
    else InvalidUtf8
  }

  /** A printed command is read back as it was, with nothing of what follows taken, exactly when
      it is within the server's limits; otherwise the server says which limit it breaks. */
  lemma ReadPrinted(args: seq<Arg>, tail: seq<byte>)
    requires Printable(args)
    ensures Accepted(args) ==> ReadOne(Frame(args) + tail) == Reading(Ok(args), tail)
    ensures !Accepted(args) ==> ReadOne(Frame(args) + tail).result == Err(Refusal(args))
  {
    var size, n, body := Le32(PayloadSize(args)), Le32(|args|), ArgBytes(args);
    var stream := Frame(args) + tail;
    Assoc(size, n, body);
    Assoc(size, n + body, tail);
    Split(size, (n + body) + tail);
    Middle(size, n + body, tail);
    Split(n, body);
    ParsePrinted(args);
  }

  /** A printed frame cut short is an I/O error, whatever its command, unless its length arrived and is
      too large. */
  lemma CutFrameIsRefused(args: seq<Arg>, n: nat)
    requires Printable(args) && n < |Frame(args)|
    ensures ReadOne(Frame(args)[..n]).result
            == Err(if n >= 4 && PayloadSize(args) > MAX_MSG_SIZE then TooLarge(PayloadSize(args)) else Io)
  {
    var cut := Frame(args)[..n];
    if n >= 4 {
      assert cut[..4] == Frame(args)[..4] == Le32(PayloadSize(args));
    }
  }

  // ---- A whole connection ----

  /** The connection loop: commands are read until the first one that cannot be. */
  ghost function Served(stream: seq<byte>): seq<seq<Arg>>
    decreases |stream|
  {
    var r := ReadOne(stream);
    match r.result
    case Err(_) => []
    case Ok(args) => [args] + Served(r.rest)
  }

  function Frames(commands: seq<seq<Arg>>): seq<byte>
    requires forall i :: 0 <= i < |commands| ==> Printable(commands[i])
  {
    if commands == [] then [] else Frame(commands[0]) + Frames(commands[1..])
  }

  /** The commands before the first one that breaks a limit. */
  function AcceptedPrefix(commands: seq<seq<Arg>>): seq<seq<Arg>> {
    if commands == [] || !Accepted(commands[0]) then [] else [commands[0]] + AcceptedPrefix(commands[1..])
  }

  lemma {:induction false} ServeOne(stream: seq<byte>)
    ensures ReadOne(stream).result.Err? ==> Served(stream) == []
    ensures ReadOne(stream).result.Ok? ==> Served(stream) == [ReadOne(stream).result.value] + Served(ReadOne(stream).rest)
  {
  }

  /** Whatever a client sends, the server serves the commands in order up to the first that it
      refuses; if it refuses none, all of them. */
  lemma {:induction false} ServedIsAcceptedPrefix(commands: seq<seq<Arg>>)
    requires forall i :: 0 <= i < |commands| ==> Printable(commands[i])
    ensures Served(Frames(commands)) == AcceptedPrefix(commands)
    ensures (forall i :: 0 <= i < |commands| ==> Accepted(commands[i])) ==> Served(Frames(commands)) == commands
  {
    if commands != [] {
      var rest := Frames(commands[1..]);
      ReadPrinted(commands[0], rest);
      ServeOne(Frame(commands[0]) + rest);
      ServedIsAcceptedPrefix(commands[1..]);
      assert commands == [commands[0]] + commands[1..];
    }
  }

  lemma {:induction false} FramesSnoc(commands: seq<seq<Arg>>, tail: seq<byte>)
    requires commands != [] && forall i :: 0 <= i < |commands| ==> Printable(commands[i])
    ensures Frames(commands) + tail == Frame(commands[0]) + (Frames(commands[1..]) + tail)
  {
  }

  /** Of whole frames followed by a cut one, exactly the whole ones are served. */
  lemma {:induction false} CutIsNotServed(commands: seq<seq<Arg>>, last: seq<Arg>, n: nat)
    requires Printable(last) && n < |Frame(last)|
    requires forall i :: 0 <= i < |commands| ==> Printable(commands[i]) && Accepted(commands[i])
    ensures Served(Frames(commands) + Frame(last)[..n]) == commands
  {
    var cut := Frame(last)[..n];
    if commands == [] {
      assert Frames(commands) + cut == cut;
      CutFrameIsRefused(last, n);
      ServeOne(cut);
    } else {
      var rest := Frames(commands[1..]) + cut;
      FramesSnoc(commands, cut);
      ReadPrinted(commands[0], rest);
      ServeOne(Frame(commands[0]) + rest);
      CutIsNotServed(commands[1..], last, n);
      assert commands == [commands[0]] + commands[1..];
    }
  }
}
