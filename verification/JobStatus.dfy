/**
 The status of a job while clients interleave.

 A submission as written pushes the job before it writes the status, so a worker can start the job in
 between. The status then falls back; here is exactly when, and that it never does when the status is
 written first.
 */
module JobStatus {
  import opened Basics
  import Lists
  import opened Store
  import opened Jobs

  function StatusOp(id: string, status: string): Op {
    SetStr(JobKey(id, ":status"), status)
  }

  /** The key holds the status `v`, so every read returns it. */
  predicate Status(data: Data, key: string, v: string) {
    key in data && data[key] == Entry(Str(v), None)
  }

  lemma StatusRead(data: Data, key: string, v: string, now: nat)
    requires Status(data, key, v)
    ensures ReplyTo(data, now, GetStr(key)) == Text(v)
  {
  }

  lemma StatusKept(data: Data, key: string, v: string, now: nat, op: Op)
    requires Status(data, key, v) && (Writes(op, key) ==> op == SetStr(key, v))
    ensures Status(Next(data, now, op), key, v)
  {
  }

  // ---- Undisturbed runs ----

  predicate PlanAvoids(c: Command, key: string) {
    forall op :: op in Plan(c) ==> !Writes(op, key)
  }

  /** The action begins no command that writes the key, and if it steps, it writes no status to it but
      one of `values`. */
  predicate Calm(w: World, a: Action, key: string, values: set<string>) {
    match a
    case Begin(_, c) => PlanAvoids(c, key)
    case Step(client, _) =>
      var ops := Pending(w, client);
      ops != [] && Writes(ops[0], key) ==> ops[0].SetStr? && ops[0].val in values
    case Sweeper(_) => true
  }

  predicate Undisturbed(w: World, actions: seq<Action>, key: string, values: set<string>) {
    actions == []
    || (Undisturbed(w, actions[..|actions| - 1], key, values)
        && Calm(Play(w, actions[..|actions| - 1]), actions[|actions| - 1], key, values))
  }

  ghost predicate NoneQueued(w: World, key: string) {
    forall client :: SetStr(key, "queued") !in Pending(w, client)
  }

  lemma PendingAfter(w: World, a: Action, client: nat)
    ensures var ops, ops' := Pending(w, client), Pending(Act(w, a), client);
            if a.Begin? && a.client == client && ops == [] then ops' == Plan(a.command)
            else if a.Step? && a.client == client && ops != [] then
              ops' == (if Pops(ops[0]) && ReplyTo(w.data, a.now, ops[0]).Item?
                       then StartSteps(ReplyTo(w.data, a.now, ops[0]).item) + ops[1..] else ops[1..])
            else ops' == ops
  {
  }

  lemma StartsRunning(p: string, op: Op)
    requires op in StartSteps(p)
    ensures op == SetStr(op.key, "running")
  {
  }

  /** What is pending after an action was pending before, or is planned now, or starts a job. */
  lemma PendingOrigin(w: World, a: Action, client: nat, op: Op)
    requires op in Pending(Act(w, a), client)
    ensures op in Pending(w, client) || (a.Begin? && op in Plan(a.command)) || (op.SetStr? && op.val == "running")
  {
    PendingAfter(w, a, client);
    if a.Step? && a.client == client && Pending(w, client) != [] {
      var head := Pending(w, client)[0];
      if Pops(head) && ReplyTo(w.data, a.now, head).Item? {
        var p := ReplyTo(w.data, a.now, head).item;
        if op in StartSteps(p) {
          StartsRunning(p, op);
        }
      }
    }
  }

  lemma NoneQueuedKept(w: World, a: Action, key: string)
    requires NoneQueued(w, key) && (a.Begin? ==> PlanAvoids(a.command, key))
    ensures NoneQueued(Act(w, a), key)
  {
    var queued := SetStr(key, "queued");
    forall client
      ensures queued !in Pending(Act(w, a), client)
    {
      if queued in Pending(Act(w, a), client) {
        PendingOrigin(w, a, client, queued);
      }
    }
  }

  lemma ActKeepsStatus(w: World, a: Action, key: string, v: string)
    requires Status(w.data, key, v) && Calm(w, a, key, {v})
    ensures Status(Act(w, a).data, key, v)
  {
    match a
    case Begin(_, _) =>
    case Step(client, now) =>
      if Pending(w, client) != [] {
        StatusKept(w.data, key, v, now, Pending(w, client)[0]);
      }
    case Sweeper(now) =>
      StatusKept(w.data, key, v, now, Sweep);
  }

  /** A running job stays running as long as no "queued" is still to be written. */
  lemma {:induction false} RunningStays(w: World, actions: seq<Action>, key: string)
    requires Status(w.data, key, "running") && NoneQueued(w, key)
    requires Undisturbed(w, actions, key, {"running", "queued"})
    ensures Status(Play(w, actions).data, key, "running") && NoneQueued(Play(w, actions), key)
  {
    if actions != [] {
      var before, a := actions[..|actions| - 1], actions[|actions| - 1];
      RunningStays(w, before, key);
      NoneQueuedKept(Play(w, before), a, key);
      if a.Step? && Pending(Play(w, before), a.client) != [] {
        assert Pending(Play(w, before), a.client)[0] in Pending(Play(w, before), a.client);
      }
      ActKeepsStatus(Play(w, before), a, key, "running");
    }
  }

  // ---- One client on its own ----

  function Alone(client: nat, n: nat): seq<Action> {
    seq(n, _ => Step(client, 0))
  }

  lemma AloneSnoc(client: nat, n: nat)
    ensures Alone(client, n + 1)[..n] == Alone(client, n) && Alone(client, n + 1)[n] == Step(client, 0)
  {
  }

  /** A client that pops nothing and does not write the key takes its steps one after the other. */
  lemma {:induction false} RunsAlone(w: World, client: nat, n: nat, key: string, values: set<string>)
    requires n <= |Pending(w, client)|
    requires forall i :: 0 <= i < n ==> !Pops(Pending(w, client)[i]) && !Writes(Pending(w, client)[i], key)
    ensures Pending(Play(w, Alone(client, n)), client) == Pending(w, client)[n..]
    ensures Undisturbed(w, Alone(client, n), key, values)
  {
    if n > 0 {
      RunsAlone(w, client, n - 1, key, values);
      AloneSnoc(client, n - 1);
      PendingAfter(Play(w, Alone(client, n - 1)), Step(client, 0), client);
    }
  }

  /** Only the last step of a command pops, and no step writes a key that a later one sets. */
  predicate Orderly(ops: seq<Op>) {
    |ops| <= 1
    || (!Pops(ops[0]) && (forall op :: op in ops[1..] && op.SetStr? ==> !Writes(ops[0], op.key)) && Orderly(ops[1..]))
  }

  ghost predicate OrderlyWorld(w: World) {
    forall client :: Orderly(Pending(w, client))
  }

  lemma JobKeysDiffer(id: string)
    ensures JobKey(id, "") != JobKey(id, ":status") && JobKey(id, ":status") != JobKey(id, ":result")
  {
    assert |JobKey(id, "")| < |JobKey(id, ":status")|;
    var n := |"devops:job:" + id|;
    assert JobKey(id, ":status")[n..] == ":status" && JobKey(id, ":result")[n..] == ":result";
    assert ":status"[1] != ":result"[1];
  }

  lemma OrderlyThree(a: Op, b: Op, c: Op)
    requires !Pops(a) && !Pops(b)
    requires (b.SetStr? ==> !Writes(a, b.key)) && (c.SetStr? ==> !Writes(a, c.key) && !Writes(b, c.key))
    ensures Orderly([a, b, c])
  {
    assert [a, b, c][1..] == [b, c] && [b, c][1..] == [c];
  }

  lemma PlanOrderly(c: Command)
    ensures Orderly(Plan(c))
  {
    match c
    case Submit(job) =>
      JobKeysDiffer(job.id);
      JobKeyIsNotQueue(job.id, "");
      JobKeyIsNotQueue(job.id, ":status");
      OrderlyThree(Plan(c)[0], Plan(c)[1], Plan(c)[2]);
    case SubmitStatusFirst(job) =>
      JobKeysDiffer(job.id);
      OrderlyThree(Plan(c)[0], Plan(c)[1], Plan(c)[2]);
    case Result(id, _, _, _) =>
      JobKeysDiffer(id);
      OrderlyThree(Plan(c)[0], Plan(c)[1], Plan(c)[2]);
    case _ =>
  }

  /** Every world that clients reach is orderly. */
  lemma OrderlyKept(w: World, a: Action)
    requires OrderlyWorld(w)
    ensures OrderlyWorld(Act(w, a))
  {
    forall client
      ensures Orderly(Pending(Act(w, a), client))
    {
      PendingAfter(w, a, client);
      var ops := Pending(w, client);
      assert Orderly(ops);
      if a.Begin? {
        PlanOrderly(a.command);
      } else if a.Step? && a.client == client && ops != [] {
        assert Pops(ops[0]) ==> ops[1..] == [];
      }
    }
  }

  lemma {:induction false} OrderlyPlay(w: World, actions: seq<Action>)
    requires OrderlyWorld(w)
    ensures OrderlyWorld(Play(w, actions))
  {
    if actions != [] {
      OrderlyPlay(w, actions[..|actions| - 1]);
      OrderlyKept(Play(w, actions[..|actions| - 1]), actions[|actions| - 1]);
    }
  }

  lemma {:induction false} OrderlyBefore(ops: seq<Op>, n: nat)
    requires Orderly(ops) && n < |ops| && ops[n].SetStr?
    ensures forall i :: 0 <= i < n ==> !Pops(ops[i]) && !Writes(ops[i], ops[n].key)
  {
    if n > 0 {
      assert ops[1..][n - 1] == ops[n];
      OrderlyBefore(ops[1..], n - 1);
      forall i | 0 <= i < n
        ensures !Pops(ops[i]) && !Writes(ops[i], ops[n].key)
      {
        if i > 0 { assert ops[i] == ops[1..][i - 1]; }
      }
    }
  }

  lemma {:induction false} ReachedOrderly(data: Data, actions: seq<Action>)
    ensures OrderlyWorld(Play(Fresh(data), actions))
  {
    OrderlyPlay(Fresh(data), actions);
  }

  /** A client that still has to write "queued" gets to write it, without any other write to the key. */
  lemma QueuedGetsWritten(w: World, client: nat, key: string) returns (actions: seq<Action>)
    requires Orderly(Pending(w, client)) && SetStr(key, "queued") in Pending(w, client)
    ensures Undisturbed(w, actions, key, {"running", "queued"})
    ensures Status(Play(w, actions).data, key, "queued")
  {
    var ops := Pending(w, client);
    var n :| 0 <= n < |ops| && ops[n] == SetStr(key, "queued");
    OrderlyBefore(ops, n);
    RunsAlone(w, client, n, key, {"running", "queued"});
    AloneSnoc(client, n);
    actions := Alone(client, n + 1);
    QueuedNow(Play(w, Alone(client, n)), client, key);
  }

  lemma QueuedNow(w: World, client: nat, key: string)
    requires Pending(w, client) != [] && Pending(w, client)[0] == SetStr(key, "queued")
    ensures Calm(w, Step(client, 0), key, {"running", "queued"}) && Status(Act(w, Step(client, 0)).data, key, "queued")
  {
  }

  // ---- When the status survives, exactly ----

  /** When a worker's "running" is written, the status stays "running" in every later world without
      another submission, result or other write of it, if and only if no client then still has its
      "queued" to write. */
  lemma StatusSurvivesExactly(w: World, client: nat, id: string, now: nat)
    requires OrderlyWorld(w) && Pending(w, client) != [] && Pending(w, client)[0] == StatusOp(id, "running")
    ensures var key, w' := JobKey(id, ":status"), Act(w, Step(client, now));
            (forall actions :: Undisturbed(w', actions, key, {"running", "queued"}) ==> Status(Play(w', actions).data, key, "running"))
            <==> NoneQueued(w', key)
  {
    var key, w' := JobKey(id, ":status"), Act(w, Step(client, now));
    assert Status(w'.data, key, "running");
    if NoneQueued(w', key) {
      forall actions | Undisturbed(w', actions, key, {"running", "queued"})
        ensures Status(Play(w', actions).data, key, "running")
      {
        RunningStays(w', actions, key);
      }
    } else {
      var c :| SetStr(key, "queued") in Pending(w', c);
      OrderlyKept(w, Step(client, now));
      var actions := QueuedGetsWritten(w', c, key);
      assert !Status(Play(w', actions).data, key, "running");
    }
  }

  /** In the other case it reads "queued" once whoever had that to write has written it. */
  lemma {:induction false} QueuedInTheEnd(w: World, actions: seq<Action>, key: string)
    requires !NoneQueued(w, key) && Undisturbed(w, actions, key, {"queued"})
    ensures NoneQueued(Play(w, actions), key) ==> Status(Play(w, actions).data, key, "queued")
  {
    QueuedOrPending(w, actions, key);
  }

  lemma {:induction false} QueuedOrPending(w: World, actions: seq<Action>, key: string)
    requires !NoneQueued(w, key) && Undisturbed(w, actions, key, {"queued"})
    ensures !NoneQueued(Play(w, actions), key) || Status(Play(w, actions).data, key, "queued")
  {
    if actions != [] {
      var before, a := actions[..|actions| - 1], actions[|actions| - 1];
      var w' := Play(w, before);
      QueuedOrPending(w, before, key);
      if Status(w'.data, key, "queued") {
        ActKeepsStatus(w', a, key, "queued");
      } else {
        QueuedStep(w', a, key);
      }
    }
  }

  lemma QueuedStep(w: World, a: Action, key: string)
    requires !NoneQueued(w, key)
    ensures !NoneQueued(Act(w, a), key) || Status(Act(w, a).data, key, "queued")
  {
    var queued := SetStr(key, "queued");
    var c :| queued in Pending(w, c);
    PendingAfter(w, a, c);
    var ops := Pending(w, c);
    if ops[0] != queued {
      assert queued in ops[1..] by {
        var i :| 0 <= i < |ops| && ops[i] == queued;
        assert ops[1..][i - 1] == queued;
      }
      assert queued in Pending(Act(w, a), c);
    } else if !(a.Step? && a.client == c) {
      assert queued in Pending(Act(w, a), c);
    }
  }

  // ---- Status first ----

  function StartKey(payload: string): string {
    JobKey(SplitN(payload, 5)[0], ":status")
  }

  /** The operation writes the status, or makes a job available whose start would. */
  predicate Concerns(op: Op, key: string) {
    Writes(op, key) || (Pushes(op) && StartKey(op.item) == key)
  }

  predicate Unconcerned(ops: seq<Op>, key: string) {
    forall op :: op in ops ==> !Concerns(op, key)
  }

  ghost predicate NotQueued(data: Data, key: string) {
    forall p :: p in Queue(data) ==> StartKey(p) != key
  }

  /** Nobody has anything to do with the job of that status key. */
  ghost predicate Untouched(w: World, key: string) {
    NotQueued(w.data, key) && forall client :: Unconcerned(Pending(w, client), key)
  }

  /** Client `c` has begun to submit the job and not yet written its status. */
  ghost predicate Preparing(w: World, key: string, c: nat, job: Job) {
    && NotQueued(w.data, key)
    && (Pending(w, c) == StatusFirstSteps(job) || Pending(w, c) == StatusFirstSteps(job)[1..])
    && forall client :: client != c ==> Unconcerned(Pending(w, client), key)
  }

  predicate OnlyRuns(ops: seq<Op>, key: string) {
    forall op :: op in ops && Writes(op, key) ==> op == SetStr(key, "running")
  }

  /** The status is written, and all that is still to be written to it is "running". */
  ghost predicate Ready(w: World, key: string) {
    forall client :: OnlyRuns(Pending(w, client), key)
  }

  /** No command begun concerns the key. */
  predicate Aloof(a: Action, key: string) {
    a.Begin? ==> Unconcerned(Plan(a.command), key)
  }

  lemma QueueAfter(data: Data, now: nat, op: Op, p: string)
    requires p in Queue(Next(data, now, op))
    ensures p in Queue(data) || (Pushes(op) && p == op.item)
  {
    if op.LRemOp? && op.key == QUEUE {
      Lists.LRemMember(Queue(data), op.count, op.item, p);
    }
  }

  lemma PoppedFromQueue(data: Data, now: nat, op: Op)
    requires Pops(op) && ReplyTo(data, now, op).Item?
    ensures ReplyTo(data, now, op).item in Queue(data)
  {
  }

  lemma StartUnconcerned(p: string, key: string)
    requires StartKey(p) != key
    ensures Unconcerned(StartSteps(p), key)
  {
    JobKeyIsNotQueue(SplitN(p, 5)[0], ":status");
  }

  /** A step of a client that is not concerned leaves everybody unconcerned. */
  lemma UnconcernedStep(w: World, client: nat, now: nat, key: string)
    requires NotQueued(w.data, key) && Unconcerned(Pending(w, client), key)
    ensures NotQueued(Act(w, Step(client, now)).data, key)
    ensures Unconcerned(Pending(Act(w, Step(client, now)), client), key)
  {
    var ops := Pending(w, client);
    PendingAfter(w, Step(client, now), client);
    if ops != [] {
      assert ops[0] in ops;
      forall p | p in Queue(Next(w.data, now, ops[0]))
        ensures StartKey(p) != key
      {
        QueueAfter(w.data, now, ops[0], p);
      }
      if Pops(ops[0]) && ReplyTo(w.data, now, ops[0]).Item? {
        PoppedFromQueue(w.data, now, ops[0]);
        StartUnconcerned(ReplyTo(w.data, now, ops[0]).item, key);
      }
    }
  }

  lemma PreparingKept(w: World, a: Action, key: string, c: nat, job: Job)
    requires Preparing(w, key, c, job) && Aloof(a, key) && key == JobKey(job.id, ":status")
    ensures Preparing(Act(w, a), key, c, job) || Ready(Act(w, a), key)
  {
    var w' := Act(w, a);
    forall client | client != c
      ensures Unconcerned(Pending(w', client), key)
    {
      PendingAfter(w, a, client);
      if a.Step? && a.client == client {
        UnconcernedStep(w, client, a.now, key);
      }
    }
    PendingAfter(w, a, c);
    if a.Step? && a.client == c {
      PreparingStep(w, a.now, key, c, job);
    } else {
      DataStep(w, a, key, c);
    }
  }

  /** The submitting client itself steps. */
  lemma PreparingStep(w: World, now: nat, key: string, c: nat, job: Job)
    requires Preparing(w, key, c, job) && key == JobKey(job.id, ":status")
    ensures var w' := Act(w, Step(c, now));
            && NotQueued(w'.data, key)
            && (Pending(w', c) == StatusFirstSteps(job)[1..]
                || (Pending(w', c) == [LPush(QUEUE, Payload(job))] && OnlyRuns(Pending(w', c), key)))
  {
    PendingAfter(w, Step(c, now), c);
    JobKeyIsNotQueue(job.id, "");
    JobKeyIsNotQueue(job.id, ":status");
    var head := Pending(w, c)[0];
    forall p | p in Queue(Next(w.data, now, head))
      ensures StartKey(p) != key
    {
      QueueAfter(w.data, now, head, p);
    }
    assert StatusFirstSteps(job)[1..][1..] == [LPush(QUEUE, Payload(job))];
  }

  lemma DataStep(w: World, a: Action, key: string, c: nat)
    requires NotQueued(w.data, key) && !(a.Step? && a.client == c)
    requires a.Step? ==> Unconcerned(Pending(w, a.client), key)
    ensures NotQueued(Act(w, a).data, key)
  {
    match a
    case Begin(_, _) =>
    case Step(client, now) => UnconcernedStep(w, client, now, key);
    case Sweeper(now) =>
      forall p | p in Queue(Next(w.data, now, Sweep))
        ensures StartKey(p) != key
      {
        QueueAfter(w.data, now, Sweep, p);
      }
  }

  lemma ReadyKept(w: World, a: Action, key: string)
    requires Ready(w, key) && Aloof(a, key)
    ensures Ready(Act(w, a), key)
  {
    forall client, op | op in Pending(Act(w, a), client) && Writes(op, key)
      ensures op == SetStr(key, "running")
    {
      PendingOrigin(w, a, client, op);
    }
  }

  predicate AllAloof(actions: seq<Action>, key: string) {
    forall a :: a in actions ==> Aloof(a, key)
  }

  lemma {:induction false} PreparedOrReady(w: World, actions: seq<Action>, key: string, c: nat, job: Job)
    requires Preparing(w, key, c, job) && AllAloof(actions, key) && key == JobKey(job.id, ":status")
    ensures Preparing(Play(w, actions), key, c, job) || Ready(Play(w, actions), key)
  {
    if actions != [] {
      var before, a := actions[..|actions| - 1], actions[|actions| - 1];
      assert a in actions && AllAloof(before, key);
      PreparedOrReady(w, before, key, c, job);
      if Ready(Play(w, before), key) {
        ReadyKept(Play(w, before), a, key);
      } else {
        PreparingKept(Play(w, before), a, key, c, job);
      }
    }
  }

  lemma {:induction false} ReadyStaysRunning(w: World, actions: seq<Action>, key: string)
    requires Ready(w, key) && Status(w.data, key, "running") && AllAloof(actions, key)
    ensures Status(Play(w, actions).data, key, "running") && Ready(Play(w, actions), key)
  {
    if actions != [] {
      var before, a := actions[..|actions| - 1], actions[|actions| - 1];
      assert a in actions && AllAloof(before, key);
      ReadyStaysRunning(w, before, key);
      ReadyKept(Play(w, before), a, key);
      var w' := Play(w, before);
      if a.Step? && Pending(w', a.client) != [] {
        assert OnlyRuns(Pending(w', a.client), key);
        assert Pending(w', a.client)[0] in Pending(w', a.client);
      } else if a.Begin? {
        assert PlanAvoids(a.command, key);
      }
      ActKeepsStatus(w', a, key, "running");
    }
  }

  lemma NobodyRunsYet(w: World, client: nat, key: string, c: nat, job: Job)
    requires Preparing(w, key, c, job) && key == JobKey(job.id, ":status") && Pending(w, client) != []
    ensures Pending(w, client)[0] != SetStr(key, "running")
  {
    if client == c {
      JobKeysDiffer(job.id);
    } else {
      assert Unconcerned(Pending(w, client), key);
      assert Pending(w, client)[0] in Pending(w, client);
    }
  }

  /** With the status written first, the status of a job that a worker has started stays "running"
      under every interleaving, as long as nobody else submits that job or writes its status. */
  lemma {:induction false} StatusStaysAsIntended(w: World, c: nat, job: Job, first: seq<Action>, worker: nat, now: nat, later: seq<Action>)
    requires var key := JobKey(job.id, ":status");
             && Untouched(w, key) && Pending(w, c) == [] && AllAloof(first, key) && AllAloof(later, key)
    requires var w' := Play(Act(w, Begin(c, SubmitStatusFirst(job))), first);
             Pending(w', worker) != [] && Pending(w', worker)[0] == StatusOp(job.id, "running")
    ensures var w' := Play(Act(w, Begin(c, SubmitStatusFirst(job))), first);
            Status(Play(Act(w', Step(worker, now)), later).data, JobKey(job.id, ":status"), "running")
  {
    var key := JobKey(job.id, ":status");
    var w1 := Act(w, Begin(c, SubmitStatusFirst(job)));
    var w' := Play(w1, first);
    forall client | client != c
      ensures Unconcerned(Pending(w1, client), key)
    {
      PendingAfter(w, Begin(c, SubmitStatusFirst(job)), client);
    }
    assert Preparing(w1, key, c, job);
    PreparedOrReady(w1, first, key, c, job);
    if Preparing(w', key, c, job) {
      NobodyRunsYet(w', worker, key, c, job);
    }
    ReadyKept(w', Step(worker, now), key);
    assert Status(Act(w', Step(worker, now)).data, key, "running");
    ReadyStaysRunning(Act(w', Step(worker, now)), later, key);
  }

  // ---- The race as written ----

  /** A submitter that has pushed its job, and a worker about to ask for one. */
  function Pushed(job: Job, now: nat): World {
    Act(Act(Act(Fresh(map[]), Begin(1, Submit(job))), Begin(2, TakeNext)), Step(1, now))
  }

  lemma PushedWorld(job: Job, now: nat)
    ensures Pushed(job, now).data == map[QUEUE := Entry(List([Payload(job)]), None)]
    ensures Pushed(job, now).pending == map[1 := SubmitSteps(job)[1..], 2 := [RPop(QUEUE)]]
    ensures Pushed(job, now).handedOut == []
  {
  }

  lemma PopStep(w: World, client: nat, now: nat, p: string)
    requires Pending(w, client) == [RPop(QUEUE)] && Queue(w.data) == [p]
    ensures var w' := Act(w, Step(client, now));
            w'.handedOut == w.handedOut + [p] && w'.pending == w.pending[client := StartSteps(p)]
  {
    var rest := [RPop(QUEUE)][1..];
    assert rest == [] && StartSteps(p) + rest == StartSteps(p);
    assert ReplyTo(w.data, now, RPop(QUEUE)) == Item(p);
  }

  lemma StartsJob(job: Job)
    requires '|' !in job.id && '|' !in job.name && '|' !in job.target && '|' !in job.command
    ensures StartSteps(Payload(job)) == [StatusOp(job.id, "running")]
  {
    PayloadParts(job);
  }

  lemma WorkerTakes(job: Job, now: nat)
    requires '|' !in job.id && '|' !in job.name && '|' !in job.target && '|' !in job.command
    ensures var w := Act(Pushed(job, now), Step(2, now));
            && w.handedOut == [Payload(job)]
            && w.pending == map[1 := SubmitSteps(job)[1..], 2 := [StatusOp(job.id, "running")]]
  {
    PushedWorld(job, now);
    StartsJob(job);
    PopStep(Pushed(job, now), 2, now, Payload(job));
  }

  lemma TwoSteps(w: World, client: nat, now: nat, a: Op, b: Op)
    requires Pending(w, client) == [a, b] && !Pops(a) && !Pops(b)
    ensures Act(Act(w, Step(client, now)), Step(client, now)).data == Next(Next(w.data, now, a), now, b)
    ensures Act(Act(w, Step(client, now)), Step(client, now)).pending == w.pending[client := []]
  {
    assert [a, b][1..] == [b] && [b][1..] == [];
  }

  /** Such a world is within reach: a worker takes a job before its submitter has written the status,
      and then the status of the job already handed out goes back to "queued". */
  lemma StatusFallsBack(job: Job, now: nat)
    requires '|' !in job.id && '|' !in job.name && '|' !in job.target && '|' !in job.command
    ensures var w := Act(Act(Pushed(job, now), Step(2, now)), Step(2, now));
            var w' := Act(Act(w, Step(1, now)), Step(1, now));
            && w.handedOut == [Payload(job)]
            && ReplyTo(w.data, now, GetStr(JobKey(job.id, ":status"))) == Text("running")
            && Pending(w', 1) == [] && Pending(w', 2) == []
            && ReplyTo(w'.data, now, GetStr(JobKey(job.id, ":status"))) == Text("queued")
  {
    WorkerTakes(job, now);
    JobKeyIsNotQueue(job.id, ":status");
    var w := Act(Act(Pushed(job, now), Step(2, now)), Step(2, now));
    TwoSteps(w, 1, now, SubmitSteps(job)[1], SubmitSteps(job)[2]);
  }
}
