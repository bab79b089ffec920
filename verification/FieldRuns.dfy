/**
 A bit field written while other clients act.

 Writing a field takes the lock of the store once per bit, so other clients can act between two bits.
 As long as they change the key by setting bits only, every bit ends as it was last set, and from
 that follows when the field reads back.
 */
module FieldRuns {
  import opened Basics
  import opened Bits
  import opened Store
  import Words = Bytes

  // ---- Any run of store operations ----

  function Final(data: Data, run: seq<Timed>): Data
    decreases |run|
  {
    if run == [] then data else Final(Next(data, run[0].at, run[0].op), run[1..])
  }

  /** No operation changes the key but by setting one of its bits. */
  predicate OnlySetsBits(run: seq<Timed>, key: string) {
    forall t :: t in run && Writes(t.op, key) ==> t.op.SetBitOp?
  }

  predicate Until(run: seq<Timed>, end: nat) {
    forall t :: t in run ==> t.at <= end
  }

  /** The key is absent, or holds a string or bytes that do not expire by `end`. */
  predicate Lasting(data: Data, key: string, end: nat) {
    key in data ==> !Expired(data[key], end) && (data[key].typ.Str? || data[key].typ.Raw?)
  }

  /** Whether and how an operation sets a bit of the key. */
  function SetBy(op: Op, key: string, p: nat): Option<bool> {
    if op.SetBitOp? && op.key == key && op.bit == p then Some(op.on) else None
  }

  /** How a run sets a bit of the key last, if it does. */
  function LastSet(run: seq<Timed>, key: string, p: nat): Option<bool> {
    if run == [] then None
    else if LastSet(run[1..], key, p).Some? then LastSet(run[1..], key, p)
    else SetBy(run[0].op, key, p)
  }

  function Or(last: Option<bool>, otherwise: bool): bool {
    if last.Some? then last.value else otherwise
  }

  lemma OpSetsBit(data: Data, now: nat, op: Op, key: string, end: nat, p: nat)
    requires Lasting(data, key, end) && now <= end && (Writes(op, key) ==> op.SetBitOp?)
    ensures Lasting(Next(data, now, op), key, end)
    ensures BitAt(Held(Next(data, now, op), key), p) == Or(SetBy(op, key, p), BitAt(Held(data, key), p))
  {
    if op.SetBitOp? && op.key == key {
      SetBitAt(Held(data, key), op.bit, op.on, p);
    }
  }

  /** Every bit of the key ends as it was last set, and as it was if no operation set it. */
  lemma {:induction false} LastSetStays(data: Data, run: seq<Timed>, key: string, end: nat, p: nat)
    requires Lasting(data, key, end) && Until(run, end) && OnlySetsBits(run, key)
    ensures Lasting(Final(data, run), key, end)
    ensures BitAt(Held(Final(data, run), key), p) == Or(LastSet(run, key, p), BitAt(Held(data, key), p))
    decreases |run|
  {
    if run != [] {
      assert run[0] in run;
      OpSetsBit(data, run[0].at, run[0].op, key, end, p);
      LastSetStays(Next(data, run[0].at, run[0].op), run[1..], key, end, p);
    }
  }

  // ---- A field among other clients' operations ----

  datatype FieldWrite = FieldWrite(key: string, offset: nat, width: nat, val: nat)

  /** One turn: the writer of the field sets its next bit, or another client acts. */
  datatype Turn = Mine(at: nat) | Theirs(t: Timed)

  function BitOp(f: FieldWrite, i: nat): Op {
    SetBitOp(f.key, Pos(f.offset, i), BitOf(f.val, i % 64))
  }

  /** The store operations of some turns, where the writer goes on from bit `i`. */
  function Ops(f: FieldWrite, turns: seq<Turn>, i: nat): seq<Timed> {
    if turns == [] then []
    else match turns[0]
      case Mine(at) => [Timed(at, BitOp(f, i))] + Ops(f, turns[1..], i + 1)
      case Theirs(t) => [t] + Ops(f, turns[1..], i)
  }

  function Others(turns: seq<Turn>): seq<Timed> {
    if turns == [] then []
    else if turns[0].Mine? then Others(turns[1..])
    else [turns[0].t] + Others(turns[1..])
  }

  function OwnTurns(turns: seq<Turn>): nat {
    if turns == [] then 0 else OwnTurns(turns[1..]) + if turns[0].Mine? then 1 else 0
  }

  function At(turn: Turn): nat {
    match turn case Mine(at) => at case Theirs(t) => t.at
  }

  /** The writer sets each of its bits, everything happens by `end`, and the others change the key by
      setting bits only. */
  predicate Interleaving(f: FieldWrite, turns: seq<Turn>, end: nat) {
    && f.offset < Words.U32 && f.width < Words.U32
    && OwnTurns(turns) == f.width
    && (forall turn :: turn in turns ==> At(turn) <= end)
    && OnlySetsBits(Others(turns), f.key)
  }

  lemma {:induction false} OpsAreCalm(f: FieldWrite, turns: seq<Turn>, i: nat, end: nat)
    requires forall turn :: turn in turns ==> At(turn) <= end
    requires OnlySetsBits(Others(turns), f.key)
    ensures Until(Ops(f, turns, i), end) && OnlySetsBits(Ops(f, turns, i), f.key)
    ensures Until(Others(turns), end)
  {
    if turns != [] {
      assert turns[0] in turns;
      assert forall t :: t in Others(turns[1..]) ==> t in Others(turns);
      OpsAreCalm(f, turns[1..], if turns[0].Mine? then i + 1 else i, end);
      if turns[0].Theirs? { assert turns[0].t in Others(turns); }
    }
  }

  /** What the writer sets a position to, if it is one of those from bit `i` on. */
  function Own(f: FieldWrite, i: nat, p: nat): Option<bool> {
    var j := (p - f.offset) % Words.U32;
    if p < Words.U32 && i <= j < f.width then Some(BitOf(f.val, j % 64)) else None
  }

  /** Where the others set no bit of the field, the writer's bits and theirs fall apart. */
  lemma {:induction false} SetApart(f: FieldWrite, turns: seq<Turn>, i: nat, p: nat)
    requires f.offset < Words.U32 && f.width < Words.U32 && i + OwnTurns(turns) == f.width
    requires Inside(f.offset, f.width, p) ==> LastSet(Others(turns), f.key, p) == None
    ensures LastSet(Ops(f, turns, i), f.key, p)
            == if Own(f, i, p).Some? then Own(f, i, p) else LastSet(Others(turns), f.key, p)
  {
    if turns != [] {
      match turns[0] {
        case Mine(at) =>
          SetApart(f, turns[1..], i + 1, p);
          if p < Words.U32 { PosInverse(f.offset, i, p); }
        case Theirs(t) =>
          assert Others(turns)[1..] == Others(turns[1..]);
          SetApart(f, turns[1..], i, p);
      }
    }
  }

  /** Each bit of the field is set, by the writer if by nobody else. */
  lemma {:induction false} OwnBitIsSet(f: FieldWrite, turns: seq<Turn>, i: nat, j: nat)
    requires i <= j < i + OwnTurns(turns)
    ensures LastSet(Ops(f, turns, i), f.key, Pos(f.offset, j)).Some?
  {
    match turns[0] {
      case Mine(at) => if i < j { OwnBitIsSet(f, turns[1..], i + 1, j); }
      case Theirs(t) => OwnBitIsSet(f, turns[1..], i, j);
    }
  }

  predicate SameAt(data: Data, data': Data, k: string) {
    (k in data' <==> k in data) && (k in data ==> data'[k] == data[k])
  }

  lemma OpAt(e: Data, d: Data, now: nat, op: Op, k: string)
    requires SameAt(e, d, k)
    ensures SameAt(Next(e, now, op), Next(d, now, op), k)
  {
  }

  /** Every other key is as if only the others had acted. */
  lemma {:induction false} OthersAlone(e: Data, d: Data, f: FieldWrite, turns: seq<Turn>, i: nat, k: string)
    requires SameAt(e, d, k) && k != f.key
    ensures SameAt(Final(e, Others(turns)), Final(d, Ops(f, turns, i)), k)
    decreases |turns|
  {
    if turns != [] {
      match turns[0] {
        case Mine(at) =>
          SetBitLive(d, at, f.key, Pos(f.offset, i), BitOf(f.val, i % 64));
          OthersAlone(e, Next(d, at, BitOp(f, i)), f, turns[1..], i + 1, k);
        case Theirs(t) =>
          OpAt(e, d, t.at, t.op, k);
          OthersAlone(Next(e, t.at, t.op), Next(d, t.at, t.op), f, turns[1..], i, k);
      }
    }
  }

  lemma {:induction false} OthersElsewhere(data: Data, f: FieldWrite, turns: seq<Turn>)
    ensures SameElsewhere(Final(data, Others(turns)), Final(data, Ops(f, turns, 0)), f.key)
  {
    var d, e := Final(data, Ops(f, turns, 0)), Final(data, Others(turns));
    forall k | k != f.key
      ensures (k in d <==> k in e) && (k in e ==> d[k] == e[k])
    {
      OthersAlone(data, data, f, turns, 0, k);
    }
  }

  lemma {:induction false} RepliesFromHeld(data: Data, key: string, now: nat, end: nat, offset: nat, width: nat)
    requires Lasting(data, key, end) && now <= end
    ensures ReplyTo(data, now, BitField(key, offset, width)) == Num(Bits.Field(Held(data, key), offset, width))
    ensures forall p: nat :: ReplyTo(data, now, GetBit(key, p)) == Flag(BitAt(Held(data, key), p))
  {
    EmptyField(offset, width);
  }

  predicate OutsideField(f: FieldWrite, run: seq<Timed>) {
    forall t :: t in run && t.op.SetBitOp? && t.op.key == f.key ==> !Inside(f.offset, f.width, t.op.bit)
  }

  lemma {:induction false} NotSetInside(f: FieldWrite, run: seq<Timed>, p: nat)
    requires OutsideField(f, run) && Inside(f.offset, f.width, p)
    ensures LastSet(run, f.key, p) == None
  {
    if run != [] {
      assert run[0] in run;
      NotSetInside(f, run[1..], p);
    }
  }

  lemma {:induction false} BitAmongOthers(data: Data, f: FieldWrite, turns: seq<Turn>, end: nat, p: nat)
    requires Lasting(data, f.key, end) && Interleaving(f, turns, end) && OutsideField(f, Others(turns))
    ensures var d, e := Final(data, Ops(f, turns, 0)), Final(data, Others(turns));
            && Lasting(d, f.key, end) && Lasting(e, f.key, end)
            && BitAt(Held(d, f.key), p) == Or(Own(f, 0, p), BitAt(Held(e, f.key), p))
  {
    OpsAreCalm(f, turns, 0, end);
    if Inside(f.offset, f.width, p) { NotSetInside(f, Others(turns), p); }
    SetApart(f, turns, 0, p);
    LastSetStays(data, Ops(f, turns, 0), f.key, end, p);
    LastSetStays(data, Others(turns), f.key, end, p);
  }

  lemma OwnExactly(f: FieldWrite, p: nat)
    ensures !Inside(f.offset, f.width, p) ==> Own(f, 0, p) == None
    ensures forall i: nat :: i < f.width && f.width < Words.U32 && f.offset < Words.U32 && p == Pos(f.offset, i) ==>
              Own(f, 0, p) == Some(BitOf(f.val, i % 64))
  {
    forall i: nat | i < f.width && f.width < Words.U32 && f.offset < Words.U32 && p == Pos(f.offset, i)
      ensures Own(f, 0, p) == Some(BitOf(f.val, i % 64))
    {
      PosInverse(f.offset, i, p);
    }
  }

  /** Where the others set bits outside the field only, the field reads back whatever they do in
      between, their bits are as if the field had not been written, and so is every other key. */
  lemma {:induction false} FieldAmongOthers(data: Data, f: FieldWrite, turns: seq<Turn>, now: nat, end: nat)
    requires Lasting(data, f.key, end) && Interleaving(f, turns, end) && now <= end
    requires OutsideField(f, Others(turns))
    ensures var d, e := Final(data, Ops(f, turns, 0)), Final(data, Others(turns));
            && ReplyTo(d, now, BitField(f.key, f.offset, f.width)) == Num(f.val % Pow2(Min(f.width, 64)))
            && (forall p: nat :: !Inside(f.offset, f.width, p) ==>
                  ReplyTo(d, now, GetBit(f.key, p)) == ReplyTo(e, now, GetBit(f.key, p)))
            && SameElsewhere(e, d, f.key)
  {
    var d, e := Final(data, Ops(f, turns, 0)), Final(data, Others(turns));
    OthersElsewhere(data, f, turns);
    BitAmongOthers(data, f, turns, end, 0);
    RepliesFromHeld(d, f.key, now, end, f.offset, f.width);
    RepliesFromHeld(e, f.key, now, end, f.offset, f.width);
    forall p: nat | !Inside(f.offset, f.width, p)
      ensures BitAt(Held(d, f.key), p) == BitAt(Held(e, f.key), p)
    {
      BitAmongOthers(data, f, turns, end, p);
      OwnExactly(f, p);
    }
    forall i: nat | i < f.width
      ensures BitAt(Held(d, f.key), Pos(f.offset, i)) == BitOf(f.val, i % 64)
    {
      BitAmongOthers(data, f, turns, end, Pos(f.offset, i));
      OwnExactly(f, Pos(f.offset, i));
    }
    FieldOfBits(Held(d, f.key), f.offset, f.val, f.width);
    LowBitsIsMod(f.val, Min(f.width, 64));
  }

  /** Where they also set bits of it, a field of up to 64 bits reads back exactly if each of its bits
      was last set to what the value has there. */
  lemma {:induction false} ReadsBackExactly(data: Data, f: FieldWrite, turns: seq<Turn>, now: nat, end: nat)
    requires Lasting(data, f.key, end) && Interleaving(f, turns, end) && now <= end && f.width <= 64
    ensures ReplyTo(Final(data, Ops(f, turns, 0)), now, BitField(f.key, f.offset, f.width)) == Num(f.val % Pow2(f.width))
            <==> forall i: nat :: i < f.width ==>
                   LastSet(Ops(f, turns, 0), f.key, Pos(f.offset, i)) == Some(BitOf(f.val, i))
  {
    var run := Ops(f, turns, 0);
    var d := Final(data, run);
    OpsAreCalm(f, turns, 0, end);
    LastSetStays(data, run, f.key, end, 0);
    RepliesFromHeld(d, f.key, now, end, f.offset, f.width);
    forall i: nat | i < f.width
      ensures LastSet(run, f.key, Pos(f.offset, i)) == Some(BitAt(Held(d, f.key), Pos(f.offset, i)))
    {
      OwnBitIsSet(f, turns, 0, i);
      LastSetStays(data, run, f.key, end, Pos(f.offset, i));
    }
    FieldReadsExactly(Held(d, f.key), f.offset, f.val, f.width);
    LowBitsIsMod(f.val, f.width);
  }
}
