/**
 The in-memory store: typed values under string keys, expiry checked lazily by some operations and
 enforced by a sweeper that runs now and then.

 Every operation is one critical section. Apply says what it does to the map and what it replies;
 the class carries it out. Time is a parameter, in milliseconds.
 */
module Store {
  import opened Basics
  import opened Bits
  import opened Lists
  import opened ByteForms
  import Unicode
  import Words = Bytes

  datatype Value =
    | Str(s: string)
    | Raw(b: Bytes)
    | List(items: seq<string>)
    | ZSet

  datatype Entry = Entry(typ: Value, expAt: Option<nat>)

  type Data = map<string, Entry>

  predicate Expired(e: Entry, now: nat) {
    e.expAt.Some? && now >= e.expAt.value
  }

  datatype Op =
    | SetStr(key: string, val: string)
    | GetStr(key: string)
    | Del(key: string)
    | Keys
    | Expire(key: string, ms: int)
    | Ttl(key: string)
    | SetBitOp(key: string, bit: nat, on: bool)
    | GetBit(key: string, bit: nat)
    | BitCount(key: string)
    | BitField(key: string, offset: nat, width: nat)
    | LPush(key: string, item: string)
    | RPop(key: string)
    | LRemOp(key: string, count: int, item: string)
    | Sweep

  datatype Reply =
    | Done
    | Missing
    | WrongType
    | Text(s: string)
    | Flag(b: bool)
    | Num(n: int)
    | KeySet(keys: set<string>)
    | Item(item: string)

  // ---- What each operation does ----

  function Utf8(s: string): Bytes {
    Bits8(Unicode.Encode(s))
  }

  /** Reading bytes as text replaces those that are not UTF-8. */
  function LossyText(b: Bytes): string {
    Unicode.Lossy(Octets(b))
  }

  /** The bytes of a live entry that has any. */
  function LiveBytes(data: Data, now: nat, key: string): Option<Bytes> {
    if key !in data || Expired(data[key], now) then None
    else match data[key].typ case Str(s) => Some(Utf8(s)) case Raw(b) => Some(b) case _ => None
  }

  /** The bytes under a key, expired or not; none for an absent key and for other types. */
  function Held(data: Data, key: string): Bytes {
    if key !in data then []
    else match data[key].typ case Str(s) => Utf8(s) case Raw(b) => b case _ => []
  }

  function Live(data: Data, now: nat): Data {
    map key | key in data && !Expired(data[key], now) :: data[key]
  }

  /** Milliseconds are cast to 64 unsigned bits, so a negative number becomes a huge one. */
  function Unsigned(ms: int): (n: nat) {
    ms % Words.U64
  }

  /** The remaining time is cast back to 64 signed bits. */
  function Signed(n: nat): int {
    var low := n % Words.U64;
    if low < Words.U64 / 2 then low else low - Words.U64
  }

  function AfterSetBit(data: Data, key: string, bit: nat, on: bool): Data {
    if key !in data then data[key := Entry(Raw(SetBit([], bit, on)), None)]
    else
      match data[key].typ
      case Str(s) => data[key := data[key].(typ := Raw(SetBit(Utf8(s), bit, on)))]
      case Raw(b) => data[key := data[key].(typ := Raw(SetBit(b, bit, on)))]
      case _ => data
  }

  function Next(data: Data, now: nat, op: Op): Data {
    match op
    case SetStr(key, val) => data[key := Entry(Str(val), None)]
    case Del(key) => data - {key}
    case Expire(key, ms) =>
      if key in data then data[key := data[key].(expAt := Some(now + Unsigned(ms)))] else data
    case SetBitOp(key, bit, on) => AfterSetBit(data, key, bit, on)
    case LPush(key, item) =>
      if key !in data then data[key := Entry(List([item]), None)]
      else if data[key].typ.List? then data[key := data[key].(typ := List([item] + data[key].typ.items))]
      else data
    case RPop(key) =>
      if key in data && data[key].typ.List? && data[key].typ.items != [] then
        var items := data[key].typ.items;
        data[key := data[key].(typ := List(items[..|items| - 1]))]
      else data
    case LRemOp(key, count, item) =>
      if key in data && data[key].typ.List? then
        data[key := data[key].(typ := List(LRem(data[key].typ.items, count, item)))]
      else data
    case Sweep => Live(data, now)
    case _ => data
  }

  /** The operations that may change the entry of a key, sweeps aside. */
  predicate Writes(op: Op, key: string) {
    && (op.SetStr? || op.Del? || op.Expire? || op.SetBitOp? || op.LPush? || op.RPop? || op.LRemOp?)
    && op.key == key
  }

  function ReplyTo(data: Data, now: nat, op: Op): Reply {
    match op
    case GetStr(key) =>
      if key !in data || Expired(data[key], now) then Missing
      else (match data[key].typ case Str(s) => Text(s) case Raw(b) => Text(LossyText(b)) case _ => WrongType)
    case Del(key) => Flag(key in data)
    case Keys => KeySet(Live(data, now).Keys)
    case Expire(key, _) => Flag(key in data)
    case Ttl(key) =>
      if key !in data then Num(-2)
      else if data[key].expAt == None then Num(-1)
      else if Expired(data[key], now) then Num(0)
      else Num(Signed(data[key].expAt.value - now))
    case GetBit(key, bit) =>
      (match LiveBytes(data, now, key) case None => Flag(false) case Some(b) => Flag(BitAt(b, bit)))
    case BitCount(key) =>
      (match LiveBytes(data, now, key) case None => Num(0) case Some(b) => Num(CountAll(b)))
    case BitField(key, offset, width) =>
      (match LiveBytes(data, now, key) case None => Num(0) case Some(b) => Num(Field(b, offset, width)))
    case RPop(key) =>
      if key in data && data[key].typ.List? && data[key].typ.items != []
      then Item(data[key].typ.items[|data[key].typ.items| - 1])
      else Missing
    case LRemOp(key, count, item) =>
      Num(if key in data && data[key].typ.List?
          then |data[key].typ.items| - |LRem(data[key].typ.items, count, item)| else 0)
    case _ => Done
  }

  // ---- Expiry ----

  /** A string that is set is there from then on, whatever the key held before and whatever expiry
      it had, and no other key is touched. */
  lemma SetThenGet(data: Data, now: nat, key: string, val: string, later: nat, other: string)
    ensures var d := Next(data, now, SetStr(key, val));
            && ReplyTo(d, later, GetStr(key)) == Text(val) && ReplyTo(d, later, Ttl(key)) == Num(-1)
            && (other != key ==> ReplyTo(d, later, GetStr(other)) == ReplyTo(data, later, GetStr(other)))
  {
  }

  /** Bytes read as a text that stands for just these bytes exactly if they are valid UTF-8; so a
      string that became bytes, as setting a bit makes it, still reads as that string. */
  lemma BytesReadAsText(data: Data, now: nat, key: string, s: string)
    requires key in data && data[key].typ.Raw? && !Expired(data[key], now)
    ensures var b, r := data[key].typ.b, ReplyTo(data, now, GetStr(key));
            && r.Text? && (Utf8(r.s) == b <==> Unicode.ValidUtf8(Octets(b)))
            && (r == Text(s) && Unicode.ValidUtf8(Octets(b)) <==> b == Utf8(s))
  {
    var b := data[key].typ.b;
    OctetsOfBits(Unicode.Encode(LossyText(b)), b);
    OctetsOfBits(Unicode.Encode(s), b);
    Unicode.LossyExactly(Octets(b));
    Unicode.LossyEncode(s);
  }

  /** A deleted key is gone for every operation at any time, and the others are untouched. */
  lemma DeletedIsGone(data: Data, now: nat, key: string, later: nat, op: Op)
    ensures var d := Next(data, now, Del(key));
            && ReplyTo(d, later, GetStr(key)) == Missing && ReplyTo(d, later, Ttl(key)) == Num(-2)
            && key !in ReplyTo(d, later, Keys).keys
            && (forall other :: other != key ==> (other in ReplyTo(d, later, Keys).keys <==> other in ReplyTo(data, later, Keys).keys))
            && (forall i: nat :: ReplyTo(d, later, GetBit(key, i)) == Flag(false))
            && ReplyTo(d, later, BitCount(key)) == Num(0)
            && ReplyTo(d, later, RPop(key)) == Missing && ReplyTo(d, later, Del(key)) == Flag(false)
            && (!op.Keys? && !op.Sweep? && op.key != key ==> ReplyTo(d, later, op) == ReplyTo(data, later, op))
  {
  }

  /** What kind of entry a read finds. */
  lemma GetStrExactly(data: Data, now: nat, key: string)
    ensures var r := ReplyTo(data, now, GetStr(key));
            && (r == Missing <==> key !in data || Expired(data[key], now))
            && (r == WrongType <==> key in data && !Expired(data[key], now) && !data[key].typ.Str? && !data[key].typ.Raw?)
            && (r.Text? <==> LiveBytes(data, now, key).Some?)
            && (r.Text? && data[key].typ.Str? ==> r.s == data[key].typ.s)
  {
  }

  /** `expire` on a key takes effect after exactly the given time, unless the time is negative: then
      the key stays for another 2^64 milliseconds, and its remaining time reads as negative at first. */
  lemma ExpiresExactly(data: Data, now: nat, key: string, ms: int, later: nat)
    requires key in data && now <= later && -0x8000_0000_0000_0000 <= ms < 0x8000_0000_0000_0000
    ensures var d := Next(data, now, Expire(key, ms));
            && (ReplyTo(d, later, GetStr(key)) == Missing <==> later >= now + if ms >= 0 then ms else ms + Words.U64)
            && (ms >= 0 ==> ReplyTo(d, later, Ttl(key)) == Num(if later >= now + ms then 0 else now + ms - later))
            && (ms < 0 && later == now ==> ReplyTo(d, later, Ttl(key)) == Num(ms))
  {
    assert Unsigned(ms) == if ms >= 0 then ms else ms + Words.U64;
  }

  /** The listed keys are those under which a read finds something. */
  lemma KeysAreReadable(data: Data, now: nat, key: string)
    ensures ReplyTo(data, now, Keys).KeySet?
    ensures key in ReplyTo(data, now, Keys).keys <==> ReplyTo(data, now, GetStr(key)) != Missing
  {
  }

  // ---- Bit fields ----

  predicate Writable(data: Data, now: nat, key: string) {
    key in data ==> LiveBytes(data, now, key).Some?
  }

  /** The bytes a bit operation works on: an absent key counts as no bytes. */
  function Underlying(data: Data, now: nat, key: string): Bytes
    requires Writable(data, now, key)
  {
    if key in data then LiveBytes(data, now, key).value else []
  }

  ghost predicate SameElsewhere(data: Data, data': Data, key: string) {
    forall k :: k != key ==> (k in data' <==> k in data) && (k in data ==> data'[k] == data[k])
  }

  ghost predicate FieldWritten(data: Data, data': Data, now: nat, key: string, offset: nat, width: nat, val: nat)
    requires Writable(data, now, key)
  {
    && ReplyTo(data', now, BitField(key, offset, width)) == Num(val % Pow2(Min(width, 64)))
    && forall i: nat :: !Inside(offset, width, i) ==>
         ReplyTo(data', now, GetBit(key, i)) == ReplyTo(data, now, GetBit(key, i))
  }

  lemma {:induction false} SetBitLive(data: Data, now: nat, key: string, bit: nat, on: bool)
    ensures SameElsewhere(data, AfterSetBit(data, key, bit, on), key)
    ensures Writable(data, now, key) ==>
              LiveBytes(AfterSetBit(data, key, bit, on), now, key) == Some(SetBit(Underlying(data, now, key), bit, on))
  {
  }

  /** `bitfield_set` sets the bits one by one. */
  function AfterSetBits(data: Data, key: string, offset: nat, width: nat, val: nat): Data {
    if width == 0 then data
    else
      AfterSetBit(AfterSetBits(data, key, offset, width - 1, val), key, Pos(offset, width - 1), BitOf(val, (width - 1) % 64))
  }

  lemma {:induction false} SetBitsElsewhere(data: Data, key: string, offset: nat, width: nat, val: nat)
    ensures SameElsewhere(data, AfterSetBits(data, key, offset, width, val), key)
  {
    if width > 0 {
      var before := AfterSetBits(data, key, offset, width - 1, val);
      SetBitsElsewhere(data, key, offset, width - 1, val);
      SetBitLive(before, 0, key, Pos(offset, width - 1), BitOf(val, (width - 1) % 64));
      SameElsewhereTwice(data, before, AfterSetBits(data, key, offset, width, val), key);
    }
  }

  lemma SameElsewhereTwice(a: Data, b: Data, c: Data, key: string)
    requires SameElsewhere(a, b, key) && SameElsewhere(b, c, key)
    ensures SameElsewhere(a, c, key)
  {
  }

  lemma {:induction false} SetBitsLive(data: Data, now: nat, key: string, offset: nat, width: nat, val: nat)
    requires Writable(data, now, key) && width > 0
    ensures LiveBytes(AfterSetBits(data, key, offset, width, val), now, key)
            == Some(WithField(Underlying(data, now, key), offset, width, val))
  {
    var before := AfterSetBits(data, key, offset, width - 1, val);
    if width > 1 {
      SetBitsLive(data, now, key, offset, width - 1, val);
    }
    SetBitLive(before, now, key, Pos(offset, width - 1), BitOf(val, (width - 1) % 64));
    assert Writable(before, now, key)
           && Underlying(before, now, key) == WithField(Underlying(data, now, key), offset, width - 1, val);
  }

  /** Whatever the key held, string or bytes or nothing, and however far the buffer had to grow. */
  lemma {:induction false} FieldReadsBack(data: Data, data': Data, now: nat, key: string, offset: nat, width: nat, val: nat)
    requires Writable(data, now, key) && offset < Words.U32 && width < Words.U32
    requires if width == 0 then data' == data
             else LiveBytes(data', now, key) == Some(WithField(Underlying(data, now, key), offset, width, val))
    ensures FieldWritten(data, data', now, key, offset, width, val)
  {
    if width > 0 {
      var was := Underlying(data, now, key);
      FieldRoundTrip(was, offset, width, val);
      forall i: nat | !Inside(offset, width, i)
        ensures ReplyTo(data', now, GetBit(key, i)) == ReplyTo(data, now, GetBit(key, i))
      {
        WithFieldAt(was, offset, width, val, i);
      }
    }
  }

  // ---- Sweeps ----

  /** The entry is still in the map although its time is over. */
  predicate Lingers(data: Data, now: nat, key: string) {
    key in data && Expired(data[key], now)
  }

  /** `d` is `data` without some entries whose time is over. */
  ghost predicate Swept(d: Data, data: Data, now: nat) {
    && (forall key :: key in d ==> key in data && d[key] == data[key])
    && (forall key :: key in data && key !in d ==> Expired(data[key], now))
  }

  /** Del replies whether it found an entry; that is left out when replies are compared. */
  function Masked(op: Op, r: Reply): Reply {
    if op.Del? then Done else r
  }

  /** The operations that look at an entry, or change it in place, without checking its time. */
  predicate Unchecked(op: Op) {
    op.Expire? || op.Ttl? || op.SetBitOp? || op.LPush? || op.RPop? || op.LRemOp?
  }

  predicate Calm(data: Data, now: nat, op: Op) {
    Unchecked(op) ==> !Lingers(data, now, op.key)
  }

  lemma SweptIsSwept(data: Data, now: nat)
    ensures Swept(Live(data, now), data, now)
  {
  }

  lemma SweptLater(d: Data, data: Data, now: nat, later: nat)
    requires Swept(d, data, now) && now <= later
    ensures Swept(d, data, later) && Live(d, later) == Live(data, later)
  {
  }

  /** An operation that does not touch a lingering entry unchecked replies alike with or without the
      sweep, and keeps the two maps alike. */
  lemma SweepUnseen(d: Data, data: Data, now: nat, op: Op)
    requires Swept(d, data, now) && Calm(data, now, op)
    ensures Masked(op, ReplyTo(d, now, op)) == Masked(op, ReplyTo(data, now, op))
    ensures Swept(Next(d, now, op), Next(data, now, op), now)
  {
    SweptLater(d, data, now, now);
  }

  lemma SweepOnce(d: Data, data: Data, now: nat)
    requires Swept(d, data, now)
    ensures Swept(Next(d, now, Sweep), data, now)
  {
  }

  // ---- Runs ----

  datatype Timed = Timed(at: nat, op: Op)

  ghost predicate InTime(run: seq<Timed>, from: nat) {
    && (run != [] ==> from <= run[0].at)
    && forall i :: 0 < i < |run| ==> run[i - 1].at <= run[i].at
  }

  /** The replies of a run, without those of its sweeps. */
  function Replies(data: Data, run: seq<Timed>): seq<Reply>
    decreases run
  {
    if run == [] then []
    else
      var now, op := run[0].at, run[0].op;
      var rest := Replies(Next(data, now, op), run[1..]);
      if op.Sweep? then rest else [Masked(op, ReplyTo(data, now, op))] + rest
  }

  function WithoutSweeps(run: seq<Timed>): seq<Timed> {
    if run == [] then []
    else if run[0].op.Sweep? then WithoutSweeps(run[1..])
    else [run[0]] + WithoutSweeps(run[1..])
  }

  predicate CalmRun(data: Data, run: seq<Timed>)
    decreases run
  {
    run == [] || (Calm(data, run[0].at, run[0].op) && CalmRun(Next(data, run[0].at, run[0].op), run[1..]))
  }

  lemma {:induction false} SweepsUnseen(d: Data, data: Data, run: seq<Timed>, now: nat)
    requires Swept(d, data, now) && InTime(run, now) && CalmRun(data, WithoutSweeps(run))
    ensures Replies(d, run) == Replies(data, WithoutSweeps(run))
    decreases run
  {
    if run != [] {
      var at, op := run[0].at, run[0].op;
      SweptLater(d, data, now, at);
      if op.Sweep? {
        SweepOnce(d, data, at);
        SweepsUnseen(Next(d, at, op), data, run[1..], at);
      } else {
        SweepUnseen(d, data, at, op);
        assert WithoutSweeps(run)[0] == run[0] && WithoutSweeps(run)[1..] == WithoutSweeps(run[1..]);
        SweepsUnseen(Next(d, at, op), Next(data, at, op), run[1..], at);
      }
    }
  }

  /** Two runs that differ only in where and how often the sweeper ran reply alike. */
  lemma {:induction false} SweepsInvisible(data: Data, run: seq<Timed>, run': seq<Timed>)
    requires InTime(run, 0) && InTime(run', 0) && WithoutSweeps(run) == WithoutSweeps(run')
    requires CalmRun(data, WithoutSweeps(run))
    ensures Replies(data, run) == Replies(data, run')
  {
    SweepsUnseen(data, data, run, 0);
    SweepsUnseen(data, data, run', 0);
  }

  /** Whether a sweep just before an operation changes its reply, Del's aside, or what is live
      afterwards. */
  ghost predicate SweepShows(data: Data, now: nat, op: Op) {
    var d := Live(data, now);
    || Masked(op, ReplyTo(d, now, op)) != Masked(op, ReplyTo(data, now, op))
    || Live(Next(d, now, op), now) != Live(Next(data, now, op), now)
  }

  /** It does exactly for the unchecked operations on a lingering entry; only a pop or a removal that
      would have found nothing anyway does not show it. */
  lemma SweepShowsExactly(data: Data, now: nat, op: Op)
    ensures SweepShows(data, now, op) <==>
              Unchecked(op) && Lingers(data, now, op.key)
              && (op.RPop? ==> data[op.key].typ.List? && data[op.key].typ.items != [])
              && (op.LRemOp? ==> data[op.key].typ.List? && op.item in data[op.key].typ.items && op.count != LEAST)
  {
    var d := Live(data, now);
    SweptIsSwept(data, now);
    if Calm(data, now, op) {
      SweepUnseen(d, data, now, op);
      SweptLater(Next(d, now, op), Next(data, now, op), now, now);
    } else if op.SetBitOp? || op.LPush? {
      assert op.key in Live(Next(d, now, op), now) && op.key !in Live(Next(data, now, op), now);
    } else if op.RPop? && !(data[op.key].typ.List? && data[op.key].typ.items != []) {
      SweptLater(d, data, now, now);
    } else if op.LRemOp? && data[op.key].typ.List? {
      LRemExact(data[op.key].typ.items, op.count, op.item);
      SweptLater(d, data, now, now);
    }
  }

  // ---- The store ----

  class Store {
    var data: Data

    constructor ()
      ensures data == map[]
    {
      data := map[];
    }

    method SetString(key: string, val: string, ghost now: nat)
      modifies this
      ensures data == Next(old(data), now, SetStr(key, val))
      ensures data == old(data)[key := Entry(Str(val), None)]
    {
      data := data[key := Entry(Str(val), None)];
    }

    method GetString(key: string, now: nat) returns (r: Reply)
      ensures r == ReplyTo(data, now, GetStr(key))
      ensures r == Missing <==> key !in data || Expired(data[key], now)
      ensures r != Missing ==>
                match data[key].typ case Str(s) => r == Text(s) case Raw(b) => r == Text(LossyText(b)) case _ => r == WrongType
    {
      if key !in data || Expired(data[key], now) { return Missing; }
      match data[key].typ {
        case Str(s) => return Text(s);
        case Raw(b) => return Text(LossyText(b));
        case _ => return WrongType;
      }
    }

    method Delete(key: string, ghost now: nat) returns (found: bool)
      modifies this
      ensures data == Next(old(data), now, Del(key)) && Flag(found) == ReplyTo(old(data), now, Del(key))
      ensures key !in data && SameElsewhere(old(data), data, key) && (found <==> key in old(data))
    {
      found := key in data;
      data := data - {key};
    }

    method SetExpiry(key: string, ms: int, now: nat) returns (found: bool)
      requires -0x8000_0000_0000_0000 <= ms < 0x8000_0000_0000_0000
      modifies this
      ensures data == Next(old(data), now, Expire(key, ms)) && Flag(found) == ReplyTo(old(data), now, Expire(key, ms))
      ensures (found <==> key in old(data)) && SameElsewhere(old(data), data, key)
      ensures if found then data[key] == Entry(old(data)[key].typ, Some(now + if ms >= 0 then ms else ms + Words.U64)) else data == old(data)
    {
      if key !in data { return false; }
      data := data[key := data[key].(expAt := Some(now + Unsigned(ms)))];
      return true;
    }

    /** One pass of the background task: retain what has time left. */
    method SweepExpired(now: nat)
      modifies this
      ensures data == Next(old(data), now, Sweep)
      ensures forall key :: key in data <==>
                key in old(data) && (old(data)[key].expAt.Some? ==> now < old(data)[key].expAt.value)
      ensures forall key :: key in data ==> data[key] == old(data)[key]
    {
      var keys := data.Keys;
      ghost var was := data;
      while keys != {}
        invariant keys <= was.Keys
        invariant data == map key | key in was && (key in keys || !Expired(was[key], now)) :: was[key]
        decreases |keys|
      {
        var key :| key in keys;
        keys := keys - {key};
        if Expired(data[key], now) {
          data := data - {key};
        }
      }
    }

    method PutBit(key: string, bit: nat, on: bool, ghost now: nat)
      modifies this
      ensures data == Next(old(data), now, SetBitOp(key, bit, on))
      ensures SameElsewhere(old(data), data, key)
      // Lists and sorted sets are left alone; strings become bytes. The expiry stays.
      ensures key in data
      ensures if key in old(data) && !old(data)[key].typ.Str? && !old(data)[key].typ.Raw? then data == old(data)
              else && data[key].typ.Raw? && data[key].expAt == (if key in old(data) then old(data)[key].expAt else None)
                   && forall i: nat :: BitAt(Held(data, key), i) == if i == bit then on else BitAt(Held(old(data), key), i)
    {
      ghost var was := Held(data, key);
      forall i: nat
        ensures BitAt(SetBit(was, bit, on), i) == if i == bit then on else BitAt(was, i)
      {
        SetBitAt(was, bit, on, i);
      }
      if key in data {
        match data[key].typ {
          case Raw(b) => data := data[key := data[key].(typ := Raw(SetBit(b, bit, on)))];
          case Str(s) =>
            data := data[key := data[key].(typ := Raw(SetBit(Utf8(s), bit, on)))];
            assert Held(data, key) == SetBit(was, bit, on);
          case _ =>
        }
      } else {
        data := data[key := Entry(Raw(SetBit([], bit, on)), None)];
      }
    }

    method TestBit(key: string, bit: nat, now: nat) returns (on: bool)
      ensures Flag(on) == ReplyTo(data, now, GetBit(key, bit))
      ensures on <==> key in data && !Expired(data[key], now) && BitAt(Held(data, key), bit)
    {
      var bytes := LiveBytes(data, now, key);
      return bytes.Some? && BitAt(bytes.value, bit);
    }

    method CountBits(key: string, now: nat) returns (n: nat)
      ensures Num(n) == ReplyTo(data, now, BitCount(key))
      ensures var b := LiveBytes(data, now, key);
              n == if b == None then 0 else |Positions(b.value, 8 * |b.value|)|
      ensures key !in data || Expired(data[key], now) || data[key].typ.List? || data[key].typ.ZSet? ==> n == 0
    {
      var bytes := LiveBytes(data, now, key);
      if bytes == None { return 0; }
      n := 0;
      for i := 0 to |bytes.value|
        invariant n == CountAll(bytes.value[..i])
      {
        assert bytes.value[..i + 1][..i] == bytes.value[..i];
        n := n + CountOnes(bytes.value[i]);
      }
      assert bytes.value[..|bytes.value|] == bytes.value;
      CountIsPositions(bytes.value);
    }

    method GetField(key: string, offset: nat, width: nat, now: nat) returns (v: nat)
      requires offset < Words.U32 && width < Words.U32
      ensures Num(v) == ReplyTo(data, now, BitField(key, offset, width))
      ensures key !in data || Expired(data[key], now) || data[key].typ.List? || data[key].typ.ZSet? ==> v == 0
    {
      var bytes := LiveBytes(data, now, key);
      if bytes == None { return 0; }
      v := 0;
      for i := 0 to width
        invariant v == Field(bytes.value, offset, i)
      {
        if BitAt(bytes.value, Pos(offset, i)) {
          v := OrBit(v, i % 64);
        }
      }
    }

    /** Bit by bit. A live or absent key of string or byte type then reads back the value modulo
        2^width, and every other bit of it is as it was. */
    method SetField(key: string, offset: nat, width: nat, val: nat, now: nat)
      requires offset < Words.U32 && width < Words.U32 && val < Words.U64
      modifies this
      ensures data == AfterSetBits(old(data), key, offset, width, val)
      ensures SameElsewhere(old(data), data, key)
      ensures Writable(old(data), now, key) ==> FieldWritten(old(data), data, now, key, offset, width, val)
    {
      for i := 0 to width
        invariant data == AfterSetBits(old(data), key, offset, i, val)
      {
        PutBit(key, Pos(offset, i), BitOf(val, i % 64), now);
      }
      SetBitsElsewhere(old(data), key, offset, width, val);
      if Writable(old(data), now, key) {
        if width > 0 {
          SetBitsLive(old(data), now, key, offset, width, val);
        }
        FieldReadsBack(old(data), data, now, key, offset, width, val);
      }
    }

    method RemoveItems(key: string, count: int, item: string, ghost now: nat) returns (removed: nat)
      requires LEAST <= count < -LEAST
      modifies this
      ensures data == Next(old(data), now, LRemOp(key, count, item))
      ensures Num(removed) == ReplyTo(old(data), now, LRemOp(key, count, item))
      ensures SameElsewhere(old(data), data, key)
      ensures if key !in old(data) || !old(data)[key].typ.List? then data == old(data) && removed == 0
              else var items := old(data)[key].typ.items;
                   && key in data && data[key] == Entry(List(LRem(items, count, item)), old(data)[key].expAt)
                   && removed == |items| - |LRem(items, count, item)|
    {
      if key !in data || !data[key].typ.List? { return 0; }
      var kept;
      kept, removed := ListRemove(data[key].typ.items, count, item);
      data := data[key := data[key].(typ := List(kept))];
    }

    method PushLeft(key: string, item: string, ghost now: nat)
      modifies this
      ensures data == Next(old(data), now, LPush(key, item))
      ensures SameElsewhere(old(data), data, key) && key in data
      ensures if key !in old(data) then data[key] == Entry(List([item]), None)
              else if !old(data)[key].typ.List? then data == old(data)
              else data[key] == Entry(List([item] + old(data)[key].typ.items), old(data)[key].expAt)
    {
      if key in data {
        if data[key].typ.List? {
          data := data[key := data[key].(typ := List([item] + data[key].typ.items))];
        }
      } else {
        data := data[key := Entry(List([item]), None)];
      }
    }

    method PopRight(key: string, ghost now: nat) returns (r: Option<string>)
      modifies this
      ensures data == Next(old(data), now, RPop(key))
      ensures ReplyTo(old(data), now, RPop(key)) == match r case None => Missing case Some(item) => Item(item)
      ensures SameElsewhere(old(data), data, key)
      ensures r == None <==> key !in old(data) || !old(data)[key].typ.List? || old(data)[key].typ.items == []
      ensures if r == None then data == old(data)
              else && key in data && data[key].typ.List? && data[key].expAt == old(data)[key].expAt
                   && old(data)[key].typ.items == data[key].typ.items + [r.value]
    {
      if key !in data || !data[key].typ.List? { return None; }
      var items := data[key].typ.items;
      if items == [] { return None; }
      data := data[key := data[key].(typ := List(items[..|items| - 1]))];
      return Some(items[|items| - 1]);
    }
  }
}
