/** Which page images replay keeps, record by record, and when these are the right ones. */
module Replay {
  import opened Log

  // ---- What replay keeps ----

  /** Replay as written: an image is kept when its commit was already read. */
  function KeptAsWritten<D>(log: seq<Record<D>>): seq<(nat, D)> {
    if log == [] then []
    else
      var before, last := log[..|log| - 1], log[|log| - 1];
      var kept := KeptAsWritten(before);
      if last.Write? && last.tx in Committed(before) then kept + [(last.page, last.data)] else kept
  }

  /** Replay as written keeps the right images when each image's transaction is committed at the
      image exactly if it is committed in the end. */
  lemma {:induction false} KeptAgree<D>(log: seq<Record<D>>, txs: set<nat>)
    requires forall i :: 0 <= i < |log| && log[i].Write? ==> (log[i].tx in Committed(log[..i]) <==> log[i].tx in txs)
    ensures KeptAsWritten(log) == Selected(log, txs)
  {
    if log != [] {
      var before := log[..|log| - 1];
      forall i | 0 <= i < |before| && before[i].Write?
        ensures before[i].tx in Committed(before[..i]) <==> before[i].tx in txs
      {
        assert before[..i] == log[..i] && before[i] == log[i];
      }
      KeptAgree(before, txs);
    }
  }

  /** The log of one run, as the source writes it: numbers are handed out in order, an image is
      tagged with the next number, and only numbers already handed out are committed. */
  ghost predicate OneRun<D>(log: seq<Record<D>>) {
    forall i, j :: 0 <= i < j < |log| && log[i].Commit? && log[j].Write? ==> log[i].tx < log[j].tx
  }

  /** So replay as written keeps nothing of it, and is right exactly when no image carries a number
      that stands committed. */
  lemma {:induction false} OneRunKeepsNothing<D>(log: seq<Record<D>>)
    requires OneRun(log)
    ensures KeptAsWritten(log) == []
    ensures KeptAsWritten(log) == Selected(log, Committed(log))
            <==> forall i :: 0 <= i < |log| && log[i].Write? ==> !StandsCommitted(log, log[i].tx)
  {
    if log != [] {
      var before, last := log[..|log| - 1], log[|log| - 1];
      OneRunKeepsNothing(before);
      if last.Write? {
        NeverCommitted(before, last.tx);
      }
    }
    SelectedNone(log, Committed(log));
    forall i | 0 <= i < |log| && log[i].Write?
      ensures log[i].tx in Committed(log) <==> StandsCommitted(log, log[i].tx)
    {
      CommittedExactly(log, log[i].tx);
    }
  }

  // ---- When replay as written is right ----

  /** Each image that counts in the end follows a commit of its number. */
  ghost predicate CommitsFirst<D>(log: seq<Record<D>>, txs: set<nat>) {
    forall i :: 0 <= i < |log| && log[i].Write? && log[i].tx in txs ==> log[i].tx in Committed(log[..i])
  }

  lemma CommitsFirstBefore<D>(log: seq<Record<D>>, txs: set<nat>)
    requires log != []
    ensures CommitsFirst(log, txs) <==>
              && CommitsFirst(log[..|log| - 1], txs)
              && var last := log[|log| - 1]; last.Write? && last.tx in txs ==> last.tx in Committed(log[..|log| - 1])
  {
    var before := log[..|log| - 1];
    forall i | 0 <= i < |before|
      ensures before[..i] == log[..i] && before[i] == log[i]
    {
    }
  }

  /** Without rollbacks, replay as written keeps at most what it should; all of it only if commits come first. */
  lemma {:induction false} KeptAtMost<D>(log: seq<Record<D>>, txs: set<nat>)
    requires RollbackFree(log) && Committed(log) <= txs
    ensures |KeptAsWritten(log)| <= |Selected(log, txs)|
    ensures |KeptAsWritten(log)| == |Selected(log, txs)| ==> CommitsFirst(log, txs)
    ensures CommitsFirst(log, txs) ==> KeptAsWritten(log) == Selected(log, txs)
  {
    if log != [] {
      KeptAtMost(log[..|log| - 1], txs);
      CommitsFirstBefore(log, txs);
    }
  }

  /** The source never logs a rollback. For such logs replay as written returns the images of the
      committed transactions exactly when each of them follows a commit of its number. */
  lemma {:induction false} ReplayExactly<D>(log: seq<Record<D>>)
    requires RollbackFree(log)
    ensures KeptAsWritten(log) == Selected(log, Committed(log)) <==> CommitsFirst(log, Committed(log))
  {
    KeptAtMost(log, Committed(log));
  }

  /** Whether the image at `i` is kept, and whether it should be. */
  ghost predicate KeptAt<D>(log: seq<Record<D>>, i: nat) {
    i < |log| && log[i].Write? && log[i].tx in Committed(log[..i])
  }

  ghost predicate SelectedAt<D>(log: seq<Record<D>>, txs: set<nat>, i: nat) {
    i < |log| && log[i].Write? && log[i].tx in txs
  }

  lemma {:induction false} KeptMember<D>(log: seq<Record<D>>, image: (nat, D))
    ensures image in KeptAsWritten(log) <==> exists i: nat :: KeptAt(log, i) && (log[i].page, log[i].data) == image
  {
    if log != [] {
      var before := log[..|log| - 1];
      KeptMember(before, image);
      if i: nat :| KeptAt(before, i) && (before[i].page, before[i].data) == image {
        assert before[..i] == log[..i];
        assert KeptAt(log, i);
      }
      if i: nat :| KeptAt(log, i) && (log[i].page, log[i].data) == image {
        if i < |before| {
          assert before[..i] == log[..i];
          assert KeptAt(before, i);
        } else {
          assert log[..i] == before;
        }
      }
      if KeptAsWritten(log) != KeptAsWritten(before) {
        assert log[..|log| - 1] == before;
        assert KeptAt(log, |log| - 1);
      }
    }
  }

  lemma {:induction false} SelectedMember<D>(log: seq<Record<D>>, txs: set<nat>, image: (nat, D))
    ensures image in Selected(log, txs) <==> exists i: nat :: SelectedAt(log, txs, i) && (log[i].page, log[i].data) == image
  {
    if log != [] {
      var before := log[..|log| - 1];
      SelectedMember(before, txs, image);
      if i: nat :| SelectedAt(before, txs, i) && (before[i].page, before[i].data) == image {
        assert SelectedAt(log, txs, i);
      }
      if i: nat :| SelectedAt(log, txs, i) && (log[i].page, log[i].data) == image {
        if i < |before| {
          assert SelectedAt(before, txs, i);
        }
      }
      if Selected(log, txs) != Selected(before, txs) {
        assert SelectedAt(log, txs, |log| - 1);
      }
    }
  }

  /** With rollbacks the same holds of any log whose images all differ: replay as written is right
      exactly when each image is committed at its place if and only if it is in the end. */
  lemma {:induction false} ReplayExactlyDistinct<D>(log: seq<Record<D>>, txs: set<nat>)
    requires forall i, j :: 0 <= i < j < |log| && log[i].Write? && log[j].Write? ==> (log[i].page, log[i].data) != (log[j].page, log[j].data)
    ensures KeptAsWritten(log) == Selected(log, txs)
            <==> forall i :: 0 <= i < |log| && log[i].Write? ==> (log[i].tx in Committed(log[..i]) <==> log[i].tx in txs)
  {
    if KeptAsWritten(log) == Selected(log, txs) {
      forall i: nat | i < |log| && log[i].Write?
        ensures KeptAt(log, i) <==> SelectedAt(log, txs, i)
      {
        KeptMember(log, (log[i].page, log[i].data));
        SelectedMember(log, txs, (log[i].page, log[i].data));
      }
      assert forall i: nat :: i < |log| && log[i].Write? ==> (KeptAt(log, i) <==> SelectedAt(log, txs, i));
    }
    if forall i :: 0 <= i < |log| && log[i].Write? ==> (log[i].tx in Committed(log[..i]) <==> log[i].tx in txs) {
      KeptAgree(log, txs);
    }
  }

  // ---- Restarts ----

  /** A restart counts from 1 again and appends to the same file. Of the two runs replay as written then
      keeps exactly the images of the second whose numbers the first committed. */
  lemma {:induction false} RestartKeeps<D>(run: seq<Record<D>>, run': seq<Record<D>>)
    requires OneRun(run) && OneRun(run') && RollbackFree(run')
    ensures KeptAsWritten(run + run') == Selected(run', Committed(run))
  {
    if run' == [] {
      assert run + run' == run;
      OneRunKeepsNothing(run);
    } else {
      var front, last := run'[..|run'| - 1], run'[|run'| - 1];
      assert (run + run')[..|run + run'| - 1] == run + front;
      RestartKeeps(run, front);
      CommittedConcat(run, front);
      if last.Write? {
        NeverCommitted(front, last.tx);
      }
    }
  }

  /** That is right exactly when no image of the first run carries a number that either run committed,
      and the numbers committed for images of the second run are those the first had committed. */
  lemma {:induction false} RestartExactly<D>(run: seq<Record<D>>, run': seq<Record<D>>)
    requires OneRun(run) && OneRun(run') && RollbackFree(run) && RollbackFree(run')
    ensures KeptAsWritten(run + run') == Selected(run + run', Committed(run + run')) <==>
              && (forall i :: 0 <= i < |run| && run[i].Write? ==> run[i].tx !in Committed(run) && run[i].tx !in Committed(run'))
              && (forall i :: 0 <= i < |run'| && run'[i].Write? && run'[i].tx in Committed(run') ==> run'[i].tx in Committed(run))
  {
    var both := Committed(run) + Committed(run');
    RestartKeeps(run, run');
    CommittedConcat(run, run');
    SelectedConcat(run, run', both);
    SelectedMore(run', Committed(run), both);
    SelectedNone(run, both);
    if forall i :: 0 <= i < |run'| && run'[i].Write? && run'[i].tx in both ==> run'[i].tx in Committed(run) {
      SelectedAgree(run', both, Committed(run));
    }
  }

  /** Two puts in a first run, then a put that stops before its commit: only the image of the
      unfinished put is kept. */
  lemma RestartKeepsTheWrongImages<D>(p: nat, old1: D, old2: D, unfinished: D)
    returns (run: seq<Record<D>>, run': seq<Record<D>>)
    ensures run == [Write(2, p, old1), Commit(1), Write(3, p, old2), Commit(2)] && run' == [Write(2, p, unfinished)]
    ensures KeptAsWritten(run + run') == [(p, unfinished)]
  {
    run := [Write(2, p, old1), Commit(1), Write(3, p, old2), Commit(2)];
    run' := [Write(2, p, unfinished)];
    RestartKeeps(run, run');
    assert run[..3] + [Commit(2)] == run;
    KeptAppend(run[..3], Commit(2));
    SelectedConcat([], run', Committed(run));
    assert run'[..0] == [];
  }

  lemma {:induction false} KeptAppend<D>(log: seq<Record<D>>, r: Record<D>)
    ensures KeptAsWritten(log + [r])
         == KeptAsWritten(log) + if r.Write? && r.tx in Committed(log) then [(r.page, r.data)] else []
    ensures Committed(log + [r]) == After(Committed(log), r)
  {
    assert (log + [r])[..|log|] == log;
  }
}
