/**
 Records of a write-ahead log and what recovery makes of them. `D` is the page image.
 */
module Log {
  datatype Record<+D> =
    | Write(tx: nat, page: nat, data: D)
    | Commit(tx: nat)
    | Rollback(tx: nat)

  /** A commit adds a transaction, a rollback withdraws it. */
  function After<D>(txs: set<nat>, r: Record<D>): set<nat> {
    match r
    case Write(_, _, _) => txs
    case Commit(tx) => txs + {tx}
    case Rollback(tx) => txs - {tx}
  }

  /** The transactions that a log leaves committed. */
  function Committed<D>(log: seq<Record<D>>): set<nat> {
    if log == [] then {} else After(Committed(log[..|log| - 1]), log[|log| - 1])
  }

  /** The images written by the given transactions, in log order. */
  function Selected<D>(log: seq<Record<D>>, txs: set<nat>): seq<(nat, D)> {
    if log == [] then []
    else
      var before, last := Selected(log[..|log| - 1], txs), log[|log| - 1];
      if last.Write? && last.tx in txs then before + [(last.page, last.data)] else before
  }

  /** Putting images back in order. */
  function Applied<D>(base: map<nat, D>, images: seq<(nat, D)>): map<nat, D> {
    if images == [] then base
    else
      var last := images[|images| - 1];
      Applied(base, images[..|images| - 1])[last.0 := last.1]
  }

  /** The pages that recovery builds: every image of a committed transaction, in log order. */
  function Recovered<D>(base: map<nat, D>, log: seq<Record<D>>): map<nat, D> {
    Applied(base, Selected(log, Committed(log)))
  }

  /** The pages as they would be recovered if transaction `tx` committed now. */
  function Pending<D>(base: map<nat, D>, log: seq<Record<D>>, tx: nat): map<nat, D> {
    Applied(base, Selected(log, Committed(log) + {tx}))
  }

  predicate OlderThan<D>(log: seq<Record<D>>, tx: nat) {
    forall i :: 0 <= i < |log| ==> log[i].tx < tx
  }

  /** `log'` only adds page images of transaction `tx` to `log`. */
  ghost predicate OnlyWrites<D>(log: seq<Record<D>>, log': seq<Record<D>>, tx: nat) {
    log <= log' && forall i :: |log| <= i < |log'| ==> log'[i].Write? && log'[i].tx == tx
  }

  /** Recovery looks only at the transactions that occur in the log. */
  lemma {:induction false} SelectedAgree<D>(log: seq<Record<D>>, txs: set<nat>, txs': set<nat>)
    requires forall i :: 0 <= i < |log| && log[i].Write? ==> (log[i].tx in txs <==> log[i].tx in txs')
    ensures Selected(log, txs) == Selected(log, txs')
  {
    if log != [] {
      SelectedAgree(log[..|log| - 1], txs, txs');
    }
  }

  lemma {:induction false} CommittedOccur<D>(log: seq<Record<D>>, tx: nat)
    requires tx in Committed(log)
    ensures exists i :: 0 <= i < |log| && log[i] == Commit(tx)
  {
    var before := log[..|log| - 1];
    if tx in Committed(before) {
      CommittedOccur(before, tx);
      var i :| 0 <= i < |before| && before[i] == Commit(tx);
      assert log[i] == Commit(tx);
    } else {
      assert log[|log| - 1] == Commit(tx);
    }
  }

  lemma {:induction false} NeverCommitted<D>(log: seq<Record<D>>, tx: nat)
    requires forall i :: 0 <= i < |log| ==> log[i] != Commit(tx)
    ensures tx !in Committed(log)
  {
    if tx in Committed(log) {
      CommittedOccur(log, tx);
    }
  }

  /** Images of a transaction that has not committed leave recovery where it was. */
  lemma {:induction false} UncommittedInvisible<D>(base: map<nat, D>, log: seq<Record<D>>, log': seq<Record<D>>, tx: nat)
    requires OlderThan(log, tx) && OnlyWrites(log, log', tx)
    ensures Committed(log') == Committed(log) && Recovered(base, log') == Recovered(base, log)
    decreases |log'|
  {
    if |log'| == |log| {
      assert log' == log;
    } else {
      var before := log'[..|log'| - 1];
      UncommittedInvisible(base, log, before, tx);
      if tx in Committed(before) {
        CommittedOccur(before, tx);
      }
    }
  }

  /** The commit record makes all of a transaction's images count at once. */
  lemma CommitApplies<D>(base: map<nat, D>, log: seq<Record<D>>, tx: nat)
    ensures Recovered(base, log + [Commit(tx)]) == Pending(base, log, tx)
  {
    var log' := log + [Commit(tx)];
    assert log'[..|log|] == log;
    assert Committed(log') == Committed(log) + {tx};
  }

  lemma FreshPending<D>(base: map<nat, D>, log: seq<Record<D>>, tx: nat)
    requires OlderThan(log, tx)
    ensures Pending(base, log, tx) == Recovered(base, log)
  {
    SelectedAgree(log, Committed(log) + {tx}, Committed(log));
  }

  // ---- What recovery means, without folding over the log ----

  /** A transaction is committed when it has a commit record that no rollback of it follows. */
  ghost predicate StandsCommitted<D>(log: seq<Record<D>>, tx: nat) {
    exists i :: 0 <= i < |log| && log[i] == Commit(tx) && forall j :: i < j < |log| ==> log[j] != Rollback(tx)
  }

  lemma {:induction false} CommittedExactly<D>(log: seq<Record<D>>, tx: nat)
    ensures tx in Committed(log) <==> StandsCommitted(log, tx)
  {
    if log != [] {
      var before, last := log[..|log| - 1], log[|log| - 1];
      CommittedExactly(before, tx);
      if StandsCommitted(before, tx) && last != Rollback(tx) {
        var i :| 0 <= i < |before| && before[i] == Commit(tx) && forall j :: i < j < |before| ==> before[j] != Rollback(tx);
        assert log[i] == Commit(tx) && forall j :: i < j < |log| ==> log[j] != Rollback(tx);
      }
      if last == Commit(tx) {
        assert log[|log| - 1] == Commit(tx);
      }
      if StandsCommitted(log, tx) && last != Commit(tx) {
        var i :| 0 <= i < |log| && log[i] == Commit(tx) && forall j :: i < j < |log| ==> log[j] != Rollback(tx);
        assert before[i] == Commit(tx) && forall j :: i < j < |before| ==> before[j] != Rollback(tx);
      }
    }
  }

  /** Record `i` is the last image of `page` that a committed transaction logged. */
  ghost predicate LastImage<D>(log: seq<Record<D>>, txs: set<nat>, page: nat, i: nat) {
    && i < |log| && log[i].Write? && log[i].tx in txs && log[i].page == page
    && forall j :: i < j < |log| && log[j].Write? && log[j].tx in txs ==> log[j].page != page
  }

  /** Each page ends as its last image logged by the given transactions, or as it was before. */
  lemma {:induction false} LastImageWins<D>(base: map<nat, D>, log: seq<Record<D>>, txs: set<nat>, page: nat)
    ensures var pages := Applied(base, Selected(log, txs));
            (exists i: nat :: LastImage(log, txs, page, i) && page in pages && pages[page] == log[i].data)
            || ((forall i :: 0 <= i < |log| && log[i].Write? && log[i].tx in txs ==> log[i].page != page)
                && (page in pages <==> page in base) && (page in base ==> pages[page] == base[page]))
  {
    if log != [] {
      var before, last := log[..|log| - 1], log[|log| - 1];
      LastImageWins(base, before, txs, page);
      var images, images' := Selected(before, txs), Selected(log, txs);
      if last.Write? && last.tx in txs {
        assert images'[..|images'| - 1] == images;
        if last.page == page {
          assert LastImage(log, txs, page, |log| - 1);
        }
      }
      if !(last.Write? && last.tx in txs && last.page == page) {
        if i: nat :| LastImage(before, txs, page, i) && page in Applied(base, images) && Applied(base, images)[page] == before[i].data {
          assert LastImage(log, txs, page, i);
        }
      }
    }
  }

  /** Record `i` is the last image of `page` logged by a transaction that stands committed. */
  ghost predicate LastStanding<D>(log: seq<Record<D>>, page: nat, i: nat) {
    && i < |log| && log[i].Write? && log[i].page == page && StandsCommitted(log, log[i].tx)
    && forall j :: i < j < |log| && log[j].Write? && log[j].page == page ==> !StandsCommitted(log, log[j].tx)
  }

  /** Recovery leaves each page at the last image that a committed, not rolled back transaction
      logged, and takes nothing from the other transactions. */
  lemma RecoveredPage<D>(base: map<nat, D>, log: seq<Record<D>>, page: nat)
    ensures var pages := Recovered(base, log);
            || (exists i: nat :: LastStanding(log, page, i) && page in pages && pages[page] == log[i].data)
            || ((forall i :: 0 <= i < |log| && log[i].Write? && log[i].page == page ==> !StandsCommitted(log, log[i].tx))
                && (page in pages <==> page in base) && (page in base ==> pages[page] == base[page]))
  {
    var txs := Committed(log);
    LastImageWins(base, log, txs, page);
    forall j | 0 <= j < |log|
      ensures log[j].tx in txs <==> StandsCommitted(log, log[j].tx)
    {
      CommittedExactly(log, log[j].tx);
    }
    if i: nat :| LastImage(log, txs, page, i) && page in Recovered(base, log) && Recovered(base, log)[page] == log[i].data {
      assert LastStanding(log, page, i);
    }
  }

  // ---- Logs without rollbacks, and logs of several runs ----

  ghost predicate RollbackFree<D>(log: seq<Record<D>>) {
    forall i :: 0 <= i < |log| ==> !log[i].Rollback?
  }

  lemma {:induction false} CommittedConcat<D>(a: seq<Record<D>>, b: seq<Record<D>>)
    requires RollbackFree(b)
    ensures Committed(a + b) == Committed(a) + Committed(b)
  {
    if b == [] {
      assert a + b == a;
    } else {
      var front := b[..|b| - 1];
      assert (a + b)[..|a + b| - 1] == a + front;
      CommittedConcat(a, front);
    }
  }

  lemma {:induction false} SelectedConcat<D>(a: seq<Record<D>>, b: seq<Record<D>>, txs: set<nat>)
    ensures Selected(a + b, txs) == Selected(a, txs) + Selected(b, txs)
  {
    if b == [] {
      assert a + b == a;
    } else {
      assert (a + b)[..|a + b| - 1] == a + b[..|b| - 1];
      SelectedConcat(a, b[..|b| - 1], txs);
    }
  }

  /** More transactions select more images, and equally many only if they select the same. */
  lemma {:induction false} SelectedMore<D>(log: seq<Record<D>>, txs: set<nat>, more: set<nat>)
    requires txs <= more
    ensures |Selected(log, txs)| <= |Selected(log, more)|
    ensures |Selected(log, txs)| == |Selected(log, more)| ==>
              forall i :: 0 <= i < |log| && log[i].Write? && log[i].tx in more ==> log[i].tx in txs
  {
    if log != [] {
      SelectedMore(log[..|log| - 1], txs, more);
    }
  }

  lemma {:induction false} SelectedNone<D>(log: seq<Record<D>>, txs: set<nat>)
    ensures Selected(log, txs) == [] <==> forall i :: 0 <= i < |log| && log[i].Write? ==> log[i].tx !in txs
  {
    if log != [] {
      SelectedNone(log[..|log| - 1], txs);
    }
  }

  /** No image of one run carries a number that only the other run committed. */
  ghost predicate RunsApart<D>(run: seq<Record<D>>, run': seq<Record<D>>) {
    && (forall i :: 0 <= i < |run| && run[i].Write? && run[i].tx in Committed(run') ==> run[i].tx in Committed(run))
    && (forall i :: 0 <= i < |run'| && run'[i].Write? && run'[i].tx in Committed(run) ==> run'[i].tx in Committed(run'))
  }

  /** A log cannot tell transactions of different runs with the same number apart: over two runs,
      recovery takes the committed images of each exactly when their numbers do not cross. */
  lemma {:induction false} TwoRuns<D>(run: seq<Record<D>>, run': seq<Record<D>>)
    requires RollbackFree(run) && RollbackFree(run')
    ensures Selected(run + run', Committed(run + run')) == Selected(run, Committed(run)) + Selected(run', Committed(run'))
            <==> RunsApart(run, run')
  {
    var both := Committed(run) + Committed(run');
    CommittedConcat(run, run');
    SelectedConcat(run, run', both);
    SelectedMore(run, Committed(run), both);
    SelectedMore(run', Committed(run'), both);
    if RunsApart(run, run') {
      SelectedAgree(run, both, Committed(run));
      SelectedAgree(run', both, Committed(run'));
    }
  }

  // ---- One transaction ----

  function WritesOf<D>(tx: nat, images: seq<(nat, D)>): (log: seq<Record<D>>)
    ensures |log| == |images|
  {
    seq(|images|, i requires 0 <= i < |images| => Write(tx, images[i].0, images[i].1))
  }

  lemma {:induction false} AppliedConcat<D>(base: map<nat, D>, a: seq<(nat, D)>, b: seq<(nat, D)>)
    ensures Applied(base, a + b) == Applied(Applied(base, a), b)
  {
    if b == [] {
      assert a + b == a;
    } else {
      assert (a + b)[..|a + b| - 1] == a + b[..|b| - 1];
      AppliedConcat(base, a, b[..|b| - 1]);
    }
  }

  lemma {:induction false} SelectedWrites<D>(tx: nat, images: seq<(nat, D)>, txs: set<nat>)
    requires tx in txs
    ensures Selected(WritesOf(tx, images), txs) == images
  {
    if images != [] {
      var front := images[..|images| - 1];
      assert WritesOf(tx, images)[..|images| - 1] == WritesOf(tx, front);
      SelectedWrites(tx, front, txs);
    }
  }

  /** A transaction as the log holds it: its images, and then its commit. */
  function Transaction<D>(tx: nat, images: seq<(nat, D)>): (log: seq<Record<D>>)
    ensures |log| == |images| + 1
  {
    WritesOf(tx, images) + [Commit(tx)]
  }

  lemma {:induction false} TransactionApplies<D>(base: map<nat, D>, log: seq<Record<D>>, tx: nat, images: seq<(nat, D)>)
    requires OlderThan(log, tx)
    ensures Recovered(base, log + Transaction(tx, images)) == Applied(Recovered(base, log), images)
  {
    var writes := WritesOf(tx, images);
    var log1 := log + writes;
    var txs := Committed(log) + {tx};
    assert log + Transaction(tx, images) == log1 + [Commit(tx)];
    CommitApplies(base, log1, tx);
    assert OnlyWrites(log, log1, tx);
    UncommittedInvisible(base, log, log1, tx);
    SelectedConcat(log, writes, txs);
    SelectedWrites(tx, images, txs);
    FreshPending(base, log, tx);
    AppliedConcat(base, Selected(log, txs), images);
  }

  /** Whatever pages recovery starts from, a transaction cut before its commit leaves no trace. */
  lemma {:induction false} TransactionInvisible<D>(base: map<nat, D>, log: seq<Record<D>>, tx: nat, images: seq<(nat, D)>, n: nat)
    requires OlderThan(log, tx) && |log| <= n < |log| + |Transaction(tx, images)|
    ensures var cut := (log + Transaction(tx, images))[..n];
            Recovered(base, cut) == Recovered(base, log) && CommitsIn(cut) == CommitsIn(log)
  {
    var cut := (log + Transaction(tx, images))[..n];
    assert log <= cut;
    assert OnlyWrites(log, cut, tx);
    UncommittedInvisible(base, log, cut, tx);
    WritesCommitNothing(log, cut, tx);
  }

  function CommitsIn<D>(log: seq<Record<D>>): nat {
    if log == [] then 0 else CommitsIn(log[..|log| - 1]) + if log[|log| - 1].Commit? then 1 else 0
  }

  lemma {:induction false} WritesCommitNothing<D>(log: seq<Record<D>>, log': seq<Record<D>>, tx: nat)
    requires OnlyWrites(log, log', tx)
    ensures CommitsIn(log') == CommitsIn(log)
    decreases |log'|
  {
    if |log'| == |log| {
      assert log' == log;
    } else {
      WritesCommitNothing(log, log'[..|log'| - 1], tx);
    }
  }

  lemma {:induction false} TransactionCommitsOnce<D>(log: seq<Record<D>>, tx: nat, images: seq<(nat, D)>)
    ensures CommitsIn(log + Transaction(tx, images)) == CommitsIn(log) + 1
  {
    var log1 := log + WritesOf(tx, images);
    assert log + Transaction(tx, images) == log1 + [Commit(tx)];
    assert (log1 + [Commit(tx)])[..|log1|] == log1;
    assert OnlyWrites(log, log1, tx);
    WritesCommitNothing(log, log1, tx);
  }

  // ---- Pages that agree ----

  /** Every page of `pages` is in `other`, with the same content. */
  ghost predicate Agrees<D>(pages: map<nat, D>, other: map<nat, D>) {
    forall id :: id in pages ==> id in other && other[id] == pages[id]
  }

  lemma {:induction false} AppliedAgrees<D>(pages: map<nat, D>, other: map<nat, D>, images: seq<(nat, D)>)
    requires Agrees(pages, other)
    ensures Agrees(Applied(pages, images), Applied(other, images))
  {
    if images != [] {
      AppliedAgrees(pages, other, images[..|images| - 1]);
    }
  }

  ghost predicate Covers<D>(images: seq<(nat, D)>, page: nat) {
    exists i :: 0 <= i < |images| && images[i].0 == page
  }

  lemma {:induction false} AppliedUntouched<D>(pages: map<nat, D>, images: seq<(nat, D)>, page: nat)
    requires page in pages && !Covers(images, page)
    ensures page in Applied(pages, images) && Applied(pages, images)[page] == pages[page]
  {
    if images != [] {
      var front := images[..|images| - 1];
      assert !Covers(front, page);
      AppliedUntouched(pages, front, page);
    }
  }

  /** Images of all the pages there were make the outcome independent of them. */
  lemma {:induction false} AppliedCovered<D>(pages: map<nat, D>, other: map<nat, D>, images: seq<(nat, D)>)
    requires forall id :: id in pages ==> Covers(images, id)
    ensures Agrees(Applied(pages, images), Applied(other, images))
  {
    forall id | id in Applied(pages, images)
      ensures id in Applied(other, images) && Applied(other, images)[id] == Applied(pages, images)[id]
    {
      CoveredPage(pages, other, images, id);
    }
  }

  lemma {:induction false} CoveredPage<D>(pages: map<nat, D>, other: map<nat, D>, images: seq<(nat, D)>, id: nat)
    requires id in Applied(pages, images) && (id in pages ==> Covers(images, id))
    ensures Covers(images, id)
    ensures id in Applied(other, images) && Applied(other, images)[id] == Applied(pages, images)[id]
  {
    if images != [] {
      var front, last := images[..|images| - 1], images[|images| - 1];
      if last.0 == id {
        assert Covers(images, id);
      } else {
        if Covers(images, id) {
          var i :| 0 <= i < |images| && images[i].0 == id;
          assert front[i].0 == id;
        }
        CoveredPage(pages, other, front, id);
        var i :| 0 <= i < |front| && front[i].0 == id;
        assert images[i].0 == id;
      }
    }
  }
}
