/**
 The write-ahead log file: how records are laid out in bytes, and what replay reads back.

 AppendWrite and Replay are as written in the source. AppendWriteFor and ReplayCommitted are what
 the surrounding code intends: a page image carries the number of the transaction that writes it,
 and a transaction counts when the log as a whole leaves it committed.
 */
module Wal {
  import opened Bytes
  import opened Log
  import opened Replay

  type Data = seq<byte>
  type Entry = Record<Data>

  datatype Result<+T> = Ok(value: T) | Err

  // ---- Framing ----

  predicate InWidth(r: Entry) {
    r.tx < U64 && (r.Write? ==> r.page < U64 && |r.data| < U32)
  }

  function Frame(r: Entry): (b: seq<byte>)
    requires InWidth(r)
    ensures |b| >= 9
  {
    match r
    case Write(tx, page, data) => [1] + Le64(tx) + Le64(page) + Le32(|data|) + data
    case Commit(tx) => [2] + Le64(tx)
    case Rollback(tx) => [3] + Le64(tx)
  }

  function Framed(log: seq<Entry>): seq<byte>
    requires forall i :: 0 <= i < |log| ==> InWidth(log[i])
  {
    if log == [] then [] else Frame(log[0]) + Framed(log[1..])
  }

  // ---- Parsing ----

  datatype Step = Done | Torn | Unknown | Got(record: Entry, size: nat)

  ghost function ParseOne(b: seq<byte>): (s: Step)
    ensures s.Got? ==> 9 <= s.size <= |b|
  {
    if b == [] then Done
    else if b[0] == 1 then
      if |b| < 21 then Torn
      else
        var len := Read32(b[17..21]);
        if |b| < 21 + len then Torn
        else Got(Write(Read64(b[1..9]), Read64(b[9..17]), b[21..21 + len]), 21 + len)
    else if b[0] == 2 then
      if |b| < 9 then Torn else Got(Commit(Read64(b[1..9])), 9)
    else if b[0] == 3 then
      if |b| < 9 then Torn else Got(Rollback(Read64(b[1..9])), 9)
    else Unknown
  }

  /** The records read before the loop of replay stops, and how it stops. */
  datatype Parsed = Parsed(log: seq<Entry>, end: Step)

  ghost function Parse(b: seq<byte>): (p: Parsed)
    ensures !p.end.Got?
  {
    match ParseOne(b)
    case Got(r, size) => var rest := Parse(b[size..]); Parsed([r] + rest.log, rest.end)
    case stop => Parsed([], stop)
  }

  /** The bytes of a write record lie where the parser looks for them. */
  lemma WriteBytes(t: seq<byte>, p: seq<byte>, n: seq<byte>, data: seq<byte>, tail: seq<byte>)
    requires |t| == |p| == 8 && |n| == 4
    ensures var b := [1] + t + p + n + data + tail;
            && |b| >= 21 + |data| && b[0] == 1
            && b[1..9] == t && b[9..17] == p && b[17..21] == n && b[21..21 + |data|] == data
  {
    var b := [1] + t + p + n + data + tail;
    assert b == [1] + t + (p + n + data + tail) == [1] + t + p + (n + data + tail) == [1] + t + p + n + (data + tail);
    Middle([1], t, p + n + data + tail);
    Middle([1] + t, p, n + data + tail);
    Middle([1] + t + p, n, data + tail);
    Middle([1] + t + p + n, data, tail);
  }

  lemma FrameParses(r: Entry, tail: seq<byte>)
    requires InWidth(r)
    ensures ParseOne(Frame(r) + tail) == Got(r, |Frame(r)|)
  {
    match r {
      case Write(tx, page, data) => WriteBytes(Le64(tx), Le64(page), Le32(|data|), data, tail);
      case Commit(tx) => Middle([2], Le64(tx), tail);
      case Rollback(tx) => Middle([3], Le64(tx), tail);
    }
  }

  lemma CutFrameIsTorn(r: Entry, n: nat)
    requires InWidth(r) && 0 < n < |Frame(r)|
    ensures ParseOne(Frame(r)[..n]) == Torn
  {
    var b := Frame(r)[..n];
    if r.Write? && n >= 21 {
      assert Frame(r)[17..21] == Le32(|r.data|);
      assert b[17..21] == Frame(r)[17..21];
    }
  }

  lemma {:induction false} FramedAppend(log: seq<Entry>, r: Entry)
    requires InWidth(r) && forall i :: 0 <= i < |log| ==> InWidth(log[i])
    ensures Framed(log + [r]) == Framed(log) + Frame(r)
  {
    var all := log + [r];
    if log == [] {
      assert all[1..] == [];
    } else {
      FramedAppend(log[1..], r);
      assert all[1..] == log[1..] + [r];
      Assoc(Frame(log[0]), Framed(log[1..]), Frame(r));
    }
  }

  lemma {:induction false} ParseFirst(r: Entry, rest: seq<byte>)
    requires InWidth(r)
    ensures Parse(Frame(r) + rest) == Parsed([r] + Parse(rest).log, Parse(rest).end)
  {
    FrameParses(r, rest);
    assert (Frame(r) + rest)[|Frame(r)|..] == rest;
  }

  /** Replay reads back exactly the records that were appended, whatever follows them. */
  lemma {:induction false} FramedParses(log: seq<Entry>, tail: seq<byte>)
    requires forall i :: 0 <= i < |log| ==> InWidth(log[i])
    ensures Parse(Framed(log) + tail) == Parsed(log + Parse(tail).log, Parse(tail).end)
  {
    if log == [] {
      assert Framed(log) + tail == tail;
    } else {
      var rest := Framed(log[1..]) + tail;
      FramedParses(log[1..], tail);
      ParseFirst(log[0], rest);
      Assoc(Frame(log[0]), Framed(log[1..]), tail);
      Assoc([log[0]], log[1..], Parse(tail).log);
      assert log == [log[0]] + log[1..];
    }
  }

  /** A log cut at a record boundary reads back as the records before the cut; cut anywhere else,
      replay fails. */
  lemma CutLog(log: seq<Entry>, k: nat, n: nat)
    requires k < |log| && forall i :: 0 <= i < |log| ==> InWidth(log[i])
    requires n < |Frame(log[k])|
    ensures var p := Parse(Framed(log[..k]) + Frame(log[k])[..n]);
            p.log == log[..k] && p.end == if n == 0 then Done else Torn
  {
    FramedParses(log[..k], Frame(log[k])[..n]);
    if n > 0 {
      CutFrameIsTorn(log[k], n);
    }
  }

  lemma RecordPieces(b: seq<byte>, len: nat)
    ensures |b| >= 9 ==> [b[0]] + b[1..9] == b[..9]
    ensures |b| >= 21 + len ==> [b[0]] + b[1..9] + b[9..17] + b[17..21] + b[21..21 + len] == b[..21 + len]
  {
    if |b| >= 21 + len {
      assert [b[0]] + b[1..9] == b[..9];
      Join(b, 0, 9, 17);
      Join(b, 0, 17, 21);
      Join(b, 0, 21, 21 + len);
    }
  }

  /** A record that is read is framed in the bytes it is read from. */
  lemma FramedThere(b: seq<byte>)
    requires ParseOne(b).Got?
    ensures var got := ParseOne(b); InWidth(got.record) && Frame(got.record) == b[..got.size]
  {
    Le64Of(b[1..9]);
    if b[0] == 1 {
      Le64Of(b[9..17]);
      Le32Of(b[17..21]);
      RecordPieces(b, Read32(b[17..21]));
    } else {
      RecordPieces(b, 0);
    }
  }

  lemma StartsWithRecord(r: Entry, b: seq<byte>)
    requires InWidth(r)
    ensures Frame(r) <= b ==> ParseOne(b).Got?
  {
    if Frame(r) <= b {
      FrameParses(r, b[|Frame(r)|..]);
      assert b == Frame(r) + b[|Frame(r)|..];
    }
  }

  /** No whole record at the start. */
  ghost predicate NoneWhole(b: seq<byte>) {
    forall r :: InWidth(r) ==> !(Frame(r) <= b)
  }

  lemma NotGot(b: seq<byte>)
    requires !ParseOne(b).Got?
    ensures NoneWhole(b)
  {
    forall r | InWidth(r)
      ensures !(Frame(r) <= b)
    {
      StartsWithRecord(r, b);
    }
  }

  ghost predicate FramedWith(b: seq<byte>, log: seq<Entry>, tail: seq<byte>) {
    (forall i :: 0 <= i < |log| ==> InWidth(log[i])) && b == Framed(log) + tail
  }

  lemma FramedMore(b: seq<byte>, r: Entry, size: nat, log: seq<Entry>, tail: seq<byte>)
    requires size <= |b| && InWidth(r) && Frame(r) == b[..size] && FramedWith(b[size..], log, tail)
    ensures FramedWith(b, [r] + log, tail)
  {
    assert ([r] + log)[1..] == log;
    assert b == b[..size] + b[size..];
    Assoc(Frame(r), Framed(log), tail);
  }

  /** Any file is the records that replay reads, framed one behind the other, and what it stops at:
      nothing, a byte that no record starts with, or the start of a record that is not whole. */
  lemma {:induction false} ParsedIsFramed(b: seq<byte>) returns (tail: seq<byte>)
    ensures FramedWith(b, Parse(b).log, tail) && NoneWhole(tail)
    ensures Parse(b).end == if tail == [] then Done else if 1 <= tail[0] <= 3 then Torn else Unknown
    decreases |b|
  {
    var got := ParseOne(b);
    if got.Got? {
      FramedThere(b);
      tail := ParsedIsFramed(b[got.size..]);
      FramedMore(b, got.record, got.size, Parse(b[got.size..]).log, tail);
    } else {
      tail := b;
      NotGot(b);
      assert Framed([]) + b == b;
    }
  }

  // ---- The file ----

  class Wal {
    var file: seq<byte>
    var nextTx: nat
    ghost var log: seq<Entry>

    ghost predicate Valid()
      reads this
    {
      && (forall i :: 0 <= i < |log| ==> InWidth(log[i]))
      && file == Framed(log)
    }

    /** Every commit so far is of a number that was handed out, and every image was tagged with
        the number that was next when it was written. */
    ghost predicate Running()
      reads this
    {
      && Valid() && OneRun(log)
      && (forall i :: 0 <= i < |log| && log[i].Commit? ==> log[i].tx < nextTx)
    }

    constructor ()
      ensures Running() && log == [] && nextTx == 1
    {
      file, nextTx, log := [], 1, [];
    }

    method NextTxId() returns (id: nat)
      requires Valid()
      modifies this`nextTx
      ensures Valid() && id == old(nextTx) && nextTx == id + 1
      ensures old(Running()) ==> Running()
    {
      id := nextTx;
      nextTx := nextTx + 1;
    }

    method Append(ghost r: Entry, bytes: seq<byte>)
      requires Valid() && InWidth(r) && bytes == Frame(r)
      modifies this`file, this`log
      ensures Valid() && log == old(log) + [r]
    {
      FramedAppend(log, r);
      file := file + bytes;
      log := log + [r];
    }

    method AppendWrite(page: nat, data: Data)
      requires Valid() && page < U64 && |data| < U32 && nextTx < U64
      modifies this`file, this`log
      ensures Valid() && log == old(log) + [Write(nextTx, page, data)]
      ensures old(Running()) ==> Running()
    {
      Append(Write(nextTx, page, data), [1] + Le64(nextTx) + Le64(page) + Le32(|data|) + data);
    }

    method AppendWriteFor(tx: nat, page: nat, data: Data)
      requires Valid() && page < U64 && |data| < U32 && tx < U64
      modifies this`file, this`log
      ensures Valid() && log == old(log) + [Write(tx, page, data)]
    {
      Append(Write(tx, page, data), [1] + Le64(tx) + Le64(page) + Le32(|data|) + data);
    }

    method AppendCommit(tx: nat)
      requires Valid() && tx < U64
      modifies this`file, this`log
      ensures Valid() && log == old(log) + [Commit(tx)]
      ensures old(Running()) && tx < nextTx ==> Running()
    {
      Append(Commit(tx), [2] + Le64(tx));
    }

    method AppendRollback(tx: nat)
      requires Valid() && tx < U64
      modifies this`file, this`log
      ensures Valid() && log == old(log) + [Rollback(tx)]
      ensures old(Running()) ==> Running()
    {
      Append(Rollback(tx), [3] + Le64(tx));
    }

    method Replay() returns (r: Result<seq<(nat, Data)>>)
      requires Valid()
      ensures r == Ok(KeptAsWritten(log))
      ensures Running() ==> r == Ok([])
      ensures Running() ==> (r == Ok(Selected(log, Committed(log)))
                             <==> forall i :: 0 <= i < |log| && log[i].Write? ==> !StandsCommitted(log, log[i].tx))
      ensures RollbackFree(log) ==> (r == Ok(Selected(log, Committed(log))) <==> CommitsFirst(log, Committed(log)))
    {
      r := ReplayBytes(file);
      FramedParses(log, []);
      assert Framed(log) + [] == file && log + [] == log;
      if Running() { OneRunKeepsNothing(log); }
      if RollbackFree(log) { ReplayExactly(log); }
    }

    method ReplayCommitted() returns (r: Result<seq<(nat, Data)>>)
      requires Valid()
      ensures r == Ok(Selected(log, Committed(log)))
    {
      r := ReplayBytesCommitted(file);
      FramedParses(log, []);
      assert Framed(log) + [] == file && log + [] == log;
    }
  }

  /** What one round of the replay loop reads at `pos`. */
  method ReadRecord(file: seq<byte>, pos: nat) returns (s: Step)
    requires pos <= |file|
    ensures s == ParseOne(file[pos..])
  {
    if pos == |file| {
      return Done;
    }
    match file[pos] {
      case 1 =>
        if |file| < pos + 9 { return Torn; }
        Slice(file, pos, 1, 9);
        var tx := ParseLe64(file[pos + 1..pos + 9]);
        if |file| < pos + 17 { return Torn; }
        Slice(file, pos, 9, 17);
        var page := ParseLe64(file[pos + 9..pos + 17]);
        if |file| < pos + 21 { return Torn; }
        Slice(file, pos, 17, 21);
        var len := ParseLe32(file[pos + 17..pos + 21]);
        if |file| < pos + 21 + len { return Torn; }
        Slice(file, pos, 21, 21 + len);
        return Got(Write(tx, page, file[pos + 21..pos + 21 + len]), 21 + len);
      case 2 =>
        if |file| < pos + 9 { return Torn; }
        Slice(file, pos, 1, 9);
        var tx := ParseLe64(file[pos + 1..pos + 9]);
        return Got(Commit(tx), 9);
      case 3 =>
        if |file| < pos + 9 { return Torn; }
        Slice(file, pos, 1, 9);
        var tx := ParseLe64(file[pos + 1..pos + 9]);
        return Got(Rollback(tx), 9);
      case _ =>
        return Unknown;
    }
  }

  /** The records `read` and what is left to parse are together the whole file. */
  ghost predicate ReadSoFar(all: Parsed, read: seq<Entry>, rest: Parsed) {
    all == Parsed(read + rest.log, rest.end)
  }

  method ReadNext(file: seq<byte>, pos: nat, ghost all: Parsed, ghost read: seq<Entry>) returns (s: Step)
    requires pos <= |file| && ReadSoFar(all, read, Parse(file[pos..]))
    ensures s.Got? ==> 9 <= s.size <= |file| - pos && ReadSoFar(all, read + [s.record], Parse(file[pos + s.size..]))
    ensures !s.Got? ==> all == Parsed(read, s)
  {
    s := ReadRecord(file, pos);
    if s.Got? {
      Suffix(file, pos, s.size);
      Assoc(read, [s.record], Parse(file[pos + s.size..]).log);
    } else {
      assert read + [] == read;
    }
  }

  method ReplayBytes(file: seq<byte>) returns (r: Result<seq<(nat, Data)>>)
    ensures r == if Parse(file).end == Torn then Err else Ok(KeptAsWritten(Parse(file).log))
  {
    var entries: seq<(nat, Data)>, committed: set<nat>, pos := [], {}, 0;
    ghost var all, read: seq<Entry> := Parse(file), [];
    assert file[0..] == file && [] + all.log == all.log;
    while true
      invariant pos <= |file| && ReadSoFar(all, read, Parse(file[pos..]))
      invariant entries == KeptAsWritten(read) && committed == Committed(read)
      decreases |file| - pos
    {
      var s := ReadNext(file, pos, all, read);
      match s {
        case Torn => return Err;
        case Got(record, size) =>
          KeptAppend(read, record);
          match record {
            case Write(tx, page, data) =>
              if tx in committed { entries := entries + [(page, data)]; }
            case Commit(tx) => committed := committed + {tx};
            case Rollback(tx) => committed := committed - {tx};
          }
          read := read + [record];
          pos := pos + size;
        case _ =>
          return Ok(entries);
      }
    }
  }

  method ReadAll(file: seq<byte>) returns (read: seq<Entry>, s: Step)
    ensures Parsed(read, s) == Parse(file)
  {
    var pos := 0;
    read := [];
    ghost var all := Parse(file);
    assert file[0..] == file && [] + all.log == all.log;
    while true
      invariant pos <= |file| && ReadSoFar(all, read, Parse(file[pos..]))
      decreases |file| - pos
    {
      s := ReadNext(file, pos, all, read);
      if !s.Got? {
        return;
      }
      read := read + [s.record];
      pos := pos + s.size;
    }
  }

  method CommittedIn(log: seq<Entry>) returns (txs: set<nat>)
    ensures txs == Committed(log)
  {
    txs := {};
    for i := 0 to |log|
      invariant txs == Committed(log[..i])
    {
      assert log[..i + 1][..i] == log[..i];
      match log[i] {
        case Write(_, _, _) =>
        case Commit(tx) => txs := txs + {tx};
        case Rollback(tx) => txs := txs - {tx};
      }
    }
    assert log[..|log|] == log;
  }

  method ImagesOf(log: seq<Entry>, txs: set<nat>) returns (entries: seq<(nat, Data)>)
    ensures entries == Selected(log, txs)
  {
    entries := [];
    for i := 0 to |log|
      invariant entries == Selected(log[..i], txs)
    {
      assert log[..i + 1][..i] == log[..i];
      if log[i].Write? && log[i].tx in txs {
        entries := entries + [(log[i].page, log[i].data)];
      }
    }
    assert log[..|log|] == log;
  }

  /** The intended replay: read everything first, then keep the images of committed transactions. */
  method ReplayBytesCommitted(file: seq<byte>) returns (r: Result<seq<(nat, Data)>>)
    ensures r == if Parse(file).end == Torn then Err
                 else Ok(Selected(Parse(file).log, Committed(Parse(file).log)))
  {
    var log, end := ReadAll(file);
    if end == Torn {
      return Err;
    }
    var committed := CommittedIn(log);
    var entries := ImagesOf(log, committed);
    return Ok(entries);
  }
}
