/** Whole runs of the B-tree: what it stands for after any sequence of operations, and after any crash. */
module BTreeRuns {
  import opened Basics
  import opened Keys
  import opened Log
  import opened BTreeModel
  import opened BTreeLemmas
  import opened BTreeReads
  import opened BTreeShape
  import opened BTree
  import ShippedView

  datatype Op =
    | PutOp(key: Key, value: Value)
    | DeleteOp(key: Key)
    | GetOp(key: Key)

  datatype Answer = Nothing | Looked(value: Option<Value>) | Deleted(found: bool)

  type Map = map<Key, Value>

  function Effect(m: Map, op: Op): Map {
    match op
    case PutOp(key, value) => m[key := value]
    case DeleteOp(key) => m - {key}
    case GetOp(_) => m
  }

  function Expected(m: Map, op: Op): Answer {
    match op
    case PutOp(_, _) => Nothing
    case DeleteOp(key) => Deleted(key in m)
    case GetOp(key) => Looked(if key in m then Some(m[key]) else None)
  }

  /** The plain map after the first `n` operations. */
  function MapAfter(ops: seq<Op>, n: nat): Map
    requires n <= |ops|
  {
    if n == 0 then map[] else Effect(MapAfter(ops, n - 1), ops[n - 1])
  }

  method Do(t: BTree, op: Op) returns (answer: Answer)
    requires t.Valid()
    modifies t
    ensures t.Valid() && t.contents == Effect(old(t.contents), op) && answer == Expected(old(t.contents), op)
    ensures !op.DeleteOp? && old(Filled(t.S(), NoHole)) ==> Filled(t.S(), NoHole)
  {
    match op {
      case PutOp(key, value) =>
        t.Put(key, value);
        answer := Nothing;
      case DeleteOp(key) =>
        var found := t.Delete(key);
        answer := Deleted(found);
      case GetOp(key) =>
        var value := t.Get(key);
        answer := Looked(value);
    }
  }

  /** Each answer is the one that the plain map gives at that point. */
  ghost predicate Answered(ops: seq<Op>, answers: seq<Answer>) {
    |answers| <= |ops| && forall i :: 0 <= i < |answers| ==> answers[i] == Expected(MapAfter(ops, i), ops[i])
  }

  lemma {:induction false} OneMoreAnswer(ops: seq<Op>, answers: seq<Answer>, answer: Answer)
    requires Answered(ops, answers) && |answers| < |ops|
    requires answer == Expected(MapAfter(ops, |answers|), ops[|answers|])
    ensures Answered(ops, answers + [answer])
  {
    var more := answers + [answer];
    forall i | 0 <= i < |more|
      ensures more[i] == Expected(MapAfter(ops, i), ops[i])
    {
      if i < |answers| {
        assert more[i] == answers[i];
      }
    }
  }

  predicate NoDelete(ops: seq<Op>, n: nat)
    requires n <= |ops|
  {
    n == 0 || (NoDelete(ops, n - 1) && !ops[n - 1].DeleteOp?)
  }

  /** A page below the root of a tree that only grew is half full, so the tree is low. */
  ghost predicate Low(s: State) {
    && Filled(s, NoHole)
    && s.root in s.info
    && (s.info[s.root].level > 0 ==> |s.contents| >= 2 * Pow(ORDER / 2, s.info[s.root].level))
  }

  lemma OnlyGrew(s: State)
    requires Whole(s) && Filled(s, NoHole)
    ensures Low(s)
  {
    if s.info[s.root].level > 0 {
      HeightBound(s);
    }
  }

  /** Any run of puts, deletes and gets on a new tree answers as a plain map does; if it deleted
      nothing, every page but the root is half full and the height is logarithmic. */
  method Play(ops: seq<Op>) returns (t: BTree, answers: seq<Answer>)
    ensures t.Valid() && t.contents == MapAfter(ops, |ops|)
    ensures |answers| == |ops| && Answered(ops, answers)
    ensures NoDelete(ops, |ops|) ==> Low(t.S())
  {
    t := new BTree.Init();
    answers := [];
    for n := 0 to |ops|
      invariant fresh(t) && t.Valid() && t.contents == MapAfter(ops, n)
      invariant |answers| == n && Answered(ops, answers)
      invariant NoDelete(ops, n) ==> Filled(t.S(), NoHole)
    {
      var answer := Do(t, ops[n]);
      OneMoreAnswer(ops, answers, answer);
      answers := answers + [answer];
    }
    if NoDelete(ops, |ops|) {
      OnlyGrew(t.S());
    }
  }

  // ---- Crashes ----

  /** The tree after the first `k` operations. */
  ghost predicate IsSnap(s: State, ops: seq<Op>, k: nat)
    requires k <= |ops|
  {
    Whole(s) && s.contents == MapAfter(ops, k)
  }

  ghost predicate Snaps(snaps: seq<State>, ops: seq<Op>) {
    |snaps| <= |ops| + 1 && forall k :: 0 <= k < |snaps| ==> IsSnap(snaps[k], ops, k)
  }

  lemma MoreSnaps(snaps: seq<State>, ops: seq<Op>, s: State)
    requires Snaps(snaps, ops) && |snaps| <= |ops| && IsSnap(s, ops, |snaps|)
    ensures Snaps(snaps + [s], ops)
  {
  }

  predicate NoPut(ops: seq<Op>, k: nat)
    requires k <= |ops|
  {
    k == 0 || (NoPut(ops, k - 1) && !ops[k - 1].PutOp?)
  }

  /** Recovery from the first `n` records finds the tree as it was after the `k` operations whose commit
      is among them. Over the pages that a new database starts with, the recovered pages are that
      tree's. Over any other database file, such as one to which a full pool has already written
      pages of unfinished operations, they agree with that tree on every page of it; only before the
      first put is there nothing to recover. */
  ghost predicate Safe(log: seq<Record<Node>>, snaps: seq<State>, ops: seq<Op>, disk: map<PageId, Node>, n: nat) {
    && n <= |log|
    && var k := CommitsIn(log[..n]);
       && k < |snaps| <= |ops| + 1
       && Recovered(INITIAL_PAGES, log[..n]) == snaps[k].pages
       && if NoPut(ops, k) then Recovered(disk, log[..n]) == disk else Agrees(snaps[k].pages, Recovered(disk, log[..n]))
  }

  ghost predicate CrashSafe(log: seq<Record<Node>>, snaps: seq<State>, ops: seq<Op>) {
    forall disk: map<PageId, Node>, n: nat :: n <= |log| ==> Safe(log, snaps, ops, disk, n)
  }

  /** What is known between two operations: as long as nothing was put, nothing has changed. */
  ghost predicate Settled(log: seq<Record<Node>>, snaps: seq<State>, ops: seq<Op>) {
    && CrashSafe(log, snaps, ops)
    && 1 <= |snaps| <= |ops| + 1 && CommitsIn(log) == |snaps| - 1
    && (NoPut(ops, |snaps| - 1) ==> Untouched(snaps[|snaps| - 1]))
  }

  ghost predicate Untouched(s: State) {
    s.pages == INITIAL_PAGES && s.contents == map[] && Filled(s, NoHole)
  }

  lemma {:induction false} SafeNow(log: seq<Record<Node>>, snaps: seq<State>, ops: seq<Op>, disk: map<PageId, Node>)
    requires Settled(log, snaps, ops)
    ensures var last := snaps[|snaps| - 1];
            && Recovered(INITIAL_PAGES, log) == last.pages
            && if NoPut(ops, |snaps| - 1) then Recovered(disk, log) == disk else Agrees(last.pages, Recovered(disk, log))
  {
    assert log[..|log|] == log;
    assert Safe(log, snaps, ops, disk, |log|);
  }

  lemma SafeBefore(log: seq<Record<Node>>, snaps: seq<State>, ops: seq<Op>, tx: nat, images: seq<(PageId, Node)>,
                   s: State, disk: map<PageId, Node>, n: nat)
    requires Settled(log, snaps, ops) && |snaps| <= |ops| && OlderThan(log, tx) && n < |log| + |Transaction(tx, images)|
    ensures Safe(log + Transaction(tx, images), snaps + [s], ops, disk, n)
  {
    var log' := log + Transaction(tx, images);
    if n <= |log| {
      assert log'[..n] == log[..n];
      assert Safe(log, snaps, ops, disk, n);
    } else {
      TransactionInvisible(INITIAL_PAGES, log, tx, images, n);
      TransactionInvisible(disk, log, tx, images, n);
      SafeNow(log, snaps, ops, disk);
    }
  }

  lemma {:induction false} SafeAfter(log: seq<Record<Node>>, snaps: seq<State>, ops: seq<Op>, tx: nat, images: seq<(PageId, Node)>,
                  s: State, disk: map<PageId, Node>)
    requires Settled(log, snaps, ops) && |snaps| <= |ops| && OlderThan(log, tx)
    requires s.pages == Applied(snaps[|snaps| - 1].pages, images)
    requires NoPut(ops, |snaps| - 1) ==> if ops[|snaps| - 1].PutOp? then Covers(images, 1) else images == []
    ensures Safe(log + Transaction(tx, images), snaps + [s], ops, disk, |log + Transaction(tx, images)|)
  {
    var log' := log + Transaction(tx, images);
    assert log'[..|log'|] == log';
    SafeNow(log, snaps, ops, disk);
    TransactionApplies(INITIAL_PAGES, log, tx, images);
    TransactionApplies(disk, log, tx, images);
    TransactionCommitsOnce(log, tx, images);
    if !NoPut(ops, |snaps| - 1) {
      AppliedAgrees(snaps[|snaps| - 1].pages, Recovered(disk, log), images);
    } else if ops[|snaps| - 1].PutOp? {
      AppliedCovered(INITIAL_PAGES, disk, images);
    }
  }

  lemma {:induction false} SafeThroughout(log: seq<Record<Node>>, snaps: seq<State>, ops: seq<Op>, tx: nat, images: seq<(PageId, Node)>,
                       s: State, disk: map<PageId, Node>, n: nat)
    requires Settled(log, snaps, ops) && |snaps| <= |ops| && OlderThan(log, tx)
    requires s.pages == Applied(snaps[|snaps| - 1].pages, images)
    requires NoPut(ops, |snaps| - 1) ==> if ops[|snaps| - 1].PutOp? then Covers(images, 1) else images == []
    requires n <= |log + Transaction(tx, images)|
    ensures Safe(log + Transaction(tx, images), snaps + [s], ops, disk, n)
  {
    if n < |log + Transaction(tx, images)| {
      SafeBefore(log, snaps, ops, tx, images, s, disk, n);
    } else {
      SafeAfter(log, snaps, ops, tx, images, s, disk);
    }
  }

  lemma {:induction false} StillSettled(log: seq<Record<Node>>, snaps: seq<State>, ops: seq<Op>, tx: nat, images: seq<(PageId, Node)>, s: State)
    requires Settled(log, snaps, ops) && |snaps| <= |ops| && OlderThan(log, tx)
    requires s.pages == Applied(snaps[|snaps| - 1].pages, images)
    requires NoPut(ops, |snaps| - 1) ==> if ops[|snaps| - 1].PutOp? then Covers(images, 1) else images == [] && Untouched(s)
    ensures Settled(log + Transaction(tx, images), snaps + [s], ops)
  {
    var log', snaps' := log + Transaction(tx, images), snaps + [s];
    TransactionCommitsOnce(log, tx, images);
    forall disk: map<PageId, Node>, n: nat | n <= |log'|
      ensures Safe(log', snaps', ops, disk, n)
    {
      SafeThroughout(log, snaps, ops, tx, images, s, disk, n);
    }
  }

  /** The first put writes the one page that `init` did not log. */
  lemma {:induction false} FirstPutCovers(s: State, images: seq<(PageId, Node)>)
    requires Whole(s) && Filled(s, NoHole) && s.contents != map[] && s.pages == Applied(INITIAL_PAGES, images)
    ensures Covers(images, 1)
  {
    if !Covers(images, 1) {
      AppliedUntouched(INITIAL_PAGES, images, 1);
      assert NodeOk(s, 0, NoHole, 1);
      assert FullEnough(s.pages[1]) || s.root == 1;
      EmptyLeafHoldsNothing(s);
    }
  }

  lemma EmptyLeafHoldsNothing(s: State)
    requires Whole(s) && s.pages[s.root] == EMPTY_LEAF
    ensures s.contents == map[]
  {
    assert NodeOk(s, 0, NoHole, s.root);
  }

  lemma {:induction false} OpSettles(log: seq<Record<Node>>, snaps: seq<State>, ops: seq<Op>, tx: nat, log': seq<Record<Node>>, s: State)
    requires Settled(log, snaps, ops) && |snaps| <= |ops| && OlderThan(log, tx)
    requires Logged(log, snaps[|snaps| - 1].pages, log', s.pages, tx)
    requires NoPut(ops, |snaps| - 1) ==>
               if ops[|snaps| - 1].PutOp? then Whole(s) && Filled(s, NoHole) && s.contents != map[]
               else Untouched(s) && log' == log + [Commit(tx)]
    ensures Settled(log', snaps + [s], ops)
  {
    var before := snaps[|snaps| - 1].pages;
    var images :| log' == log + Transaction(tx, images) && s.pages == Applied(before, images);
    if NoPut(ops, |snaps| - 1) && ops[|snaps| - 1].PutOp? {
      FirstPutCovers(s, images);
    }
    StillSettled(log, snaps, ops, tx, images, s);
  }

  method DoLogged(t: BTree, op: Op, ghost ops: seq<Op>, ghost snaps: seq<State>) returns (ghost more: seq<State>)
    requires t.Valid() && Settled(t.log, snaps, ops) && |snaps| <= |ops| && op == ops[|snaps| - 1] && !op.GetOp?
    requires snaps[|snaps| - 1] == t.S()
    modifies t
    ensures t.Valid() && t.contents == Effect(old(t.contents), op)
    ensures more == snaps + [t.S()] && Settled(t.log, more, ops)
  {
    ghost var log, tx := t.log, t.nextTx;
    match op {
      case PutOp(key, value) =>
        t.Put(key, value);
        assert key in t.contents;
      case DeleteOp(key) =>
        var found := t.Delete(key);
        assert old(t.contents) == map[] ==> t.contents == map[];
    }
    OpSettles(log, snaps, ops, tx, t.log, t.S());
    more := snaps + [t.S()];
  }

  /** Stop a run of puts and deletes anywhere, even in the middle of a cascade of splits: recovery from
      the log so far finds, whatever the database file holds, the whole tree as it was after the
      operations that had finished. */
  method RunLogged(ops: seq<Op>) returns (t: BTree, ghost snaps: seq<State>)
    requires forall i :: 0 <= i < |ops| ==> !ops[i].GetOp?
    ensures t.Valid() && t.contents == MapAfter(ops, |ops|)
    ensures |snaps| == |ops| + 1 && Snaps(snaps, ops) && CrashSafe(t.log, snaps, ops)
    ensures CommitsIn(t.log) == |ops| && snaps[|ops|] == t.S()
  {
    t := new BTree.Init();
    snaps := [t.S()];
    assert t.log == [];
    for n := 0 to |ops|
      invariant fresh(t) && t.Valid() && t.contents == MapAfter(ops, n)
      invariant |snaps| == n + 1 && snaps[n] == t.S() && Snaps(snaps, ops) && Settled(t.log, snaps, ops)
    {
      ghost var before := snaps;
      snaps := DoLogged(t, ops[n], ops, snaps);
      assert IsSnap(t.S(), ops, n + 1);
      MoreSnaps(before, ops, t.S());
    }
  }

  // ---- A run after which delete as written fails ----

  lemma LeafRootIsSmall(s: State)
    requires Whole(s) && s.pages[s.root].Leaf?
    ensures |s.contents| < ORDER
  {
    assert NodeOk(s, 0, NoHole, s.root);
    LeafSize(s, s.root);
    assert InRange(s.contents, 0, KEY_LIMIT) == s.contents.Keys;
  }

  lemma SpanInRange(m: map<Key, Value>, n: nat, lo: nat, hi: nat)
    requires ShippedView.Spans(m, 0, n) && lo <= hi <= KEY_LIMIT && n <= KEY_LIMIT
    ensures |InRange(m, lo, hi)| == Min(hi, n) - Min(lo, n)
  {
    var part := map k | k in m && lo <= k < hi :: m[k];
    assert part.Keys == InRange(m, lo, hi);
    ShippedView.SpanSize(part, Min(lo, n), Min(hi, n));
  }

  lemma {:induction false} PowAtLeast(level: nat)
    ensures Pow(ORDER / 2, level + 1) >= ORDER / 2
  {
    if level > 0 {
      PowAtLeast(level - 1);
    }
  }

  /** Three children would hold 96 keys. */
  lemma TwoKids(s: State)
    requires Whole(s) && Filled(s, NoHole) && s.pages[s.root].Inner?
    requires |InRange(s.contents, 0, KEY_LIMIT)| == ORDER
    ensures |s.pages[s.root].keys| == 1 && |s.pages[s.root].kids| == 2
  {
    var n := s.pages[s.root];
    assert NodeOk(s, 0, NoHole, s.root);
    KidsPopulation(s, s.root, |n.keys| + 1);
    PowAtLeast(s.info[s.root].level - 1);
    MulAtLeast(Pow(ORDER / 2, s.info[s.root].level), ORDER / 2, |n.keys| + 1);
  }

  /** However a tree came to hold the keys 0 to 63 by puts alone, it stores a key that is also a separator. */
  lemma StoredSeparator(s: State)
    requires Whole(s) && Filled(s, NoHole) && ShippedView.Spans(s.contents, 0, ORDER)
    ensures IsSeparator(s, ORDER / 2) && ORDER / 2 in s.contents
  {
    var n := s.pages[s.root];
    SpanInRange(s.contents, ORDER, 0, KEY_LIMIT);
    assert InRange(s.contents, 0, KEY_LIMIT) == s.contents.Keys;
    if n.Leaf? {
      LeafRootIsSmall(s);
    } else {
      TwoKids(s);
      HalfBelow(s, n.kids[0], 0);
      HalfBelow(s, n.kids[1], 1);
      assert n.keys[0] in n.keys;
    }
  }

  lemma HalfBelow(s: State, c: PageId, i: nat)
    requires Whole(s) && Filled(s, NoHole) && ShippedView.Spans(s.contents, 0, ORDER)
    requires s.pages[s.root].Inner? && |s.pages[s.root].keys| == 1 && i < |s.pages[s.root].kids| && s.pages[s.root].kids[i] == c
    ensures i == 0 ==> s.pages[s.root].keys[0] >= ORDER / 2
    ensures i == 1 ==> s.pages[s.root].keys[0] <= ORDER / 2
  {
    assert NodeOk(s, 0, NoHole, s.root);
    assert KidOk(s, NoHole, s.root, i);
    NonEmptyInterval(s, c);
    Population(s, c);
    PowAtLeast(s.info[c].level);
    SpanInRange(s.contents, ORDER, s.info[c].lo, s.info[c].hi);
  }

  /** Put the keys 0 to 63 in turn, and delete as written misses the stored key 32. */
  method DeleteMisses() returns (t: BTree, found: bool)
    ensures t.Valid() && !found && ORDER / 2 in t.contents
  {
    t := new BTree.Init();
    for i := 0 to ORDER
      invariant fresh(t) && t.Valid() && Filled(t.S(), NoHole) && ShippedView.Spans(t.contents, 0, i)
    {
      t.Put(i, Blank());
    }
    StoredSeparator(t.S());
    found := t.DeleteAsWritten(ORDER / 2);
  }
}
