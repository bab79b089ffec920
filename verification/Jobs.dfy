/**
 The job queue: `job submit`, `job next` and `job result` as sequences of store steps.

 Each store step is atomic, a command is not, so clients interleave between the steps. A world holds
 the store, what each client still has to do, and the history of the queue.
 */
module Jobs {
  import opened Basics
  import Decimals
  import Lists
  import opened Store

  // ---- Payloads ----

  function Join(parts: seq<string>, sep: string): string {
    if parts == [] then [] else if |parts| == 1 then parts[0] else parts[0] + sep + Join(parts[1..], sep)
  }

  /** The separator stands between the parts and nowhere else. */
  lemma {:induction false} JoinConcat(a: seq<string>, b: seq<string>, part: string, sep: string)
    ensures Join([], sep) == "" && Join([part], sep) == part
    ensures a != [] && b != [] ==> Join(a + b, sep) == Join(a, sep) + sep + Join(b, sep)
  {
    if a != [] && b != [] {
      assert (a + b)[1..] == a[1..] + b;
      if |a| > 1 {
        JoinConcat(a[1..], b, part, sep);
      } else {
        assert a[1..] + b == b;
      }
    }
  }

  /** Where the first bar is. */
  function Cut(s: string): (i: nat)
    requires '|' in s
    ensures i < |s| && s[i] == '|' && forall j :: 0 <= j < i ==> s[j] != '|'
  {
    if s[0] == '|' then 0 else 1 + Cut(s[1..])
  }

  /** `splitn`: at most `n` parts, the last one unsplit. */
  function SplitN(s: string, n: nat): seq<string>
    decreases |s|
  {
    if n <= 1 || '|' !in s then [s]
    else [s[..Cut(s)]] + SplitN(s[Cut(s) + 1..], n - 1)
  }

  ghost predicate BarFree(parts: seq<string>) {
    forall i :: 0 <= i < |parts| - 1 ==> '|' !in parts[i]
  }

  lemma {:induction false} CutParts(s: string)
    requires '|' in s
    ensures var i := Cut(s); '|' !in s[..i] && s == s[..i] + "|" + s[i + 1..]
  {
  }

  lemma {:induction false} JoinOnto(head: string, rest: seq<string>)
    requires rest != []
    ensures Join([head] + rest, "|") == head + "|" + Join(rest, "|")
    ensures '|' !in head && BarFree(rest) ==> BarFree([head] + rest)
  {
    var parts := [head] + rest;
    assert parts[1..] == rest;
    forall j | 0 <= j < |parts| - 1 && '|' !in head && BarFree(rest)
      ensures '|' !in parts[j]
    {
      if j > 0 { assert parts[j] == rest[j - 1]; }
    }
  }

  lemma {:induction false} SplitJoins(s: string, n: nat)
    requires n >= 1
    ensures var parts := SplitN(s, n); Join(parts, "|") == s && BarFree(parts) && 1 <= |parts| <= n
    decreases n
  {
    if n > 1 && '|' in s {
      var i := Cut(s);
      CutParts(s);
      SplitJoins(s[i + 1..], n - 1);
      JoinOnto(s[..i], SplitN(s[i + 1..], n - 1));
    }
  }

  /** Splitting undoes joining exactly when no part but the last holds a bar. */
  lemma {:induction false} SplitUndoesJoin(parts: seq<string>)
    requires parts != []
    ensures SplitN(Join(parts, "|"), |parts|) == parts <==> BarFree(parts)
  {
    SplitJoins(Join(parts, "|"), |parts|);
    if BarFree(parts) {
      BarFreeParts(parts, |parts|);
    }
  }

  lemma {:induction false} SplitOnce(head: string, tail: string, n: nat)
    requires '|' !in head && n >= 2
    ensures SplitN(head + "|" + tail, n) == [head] + SplitN(tail, n - 1)
  {
    var s := head + "|" + tail;
    assert s[|head|] == '|';
    assert forall j :: 0 <= j < |head| ==> s[j] == head[j];
    assert Cut(s) == |head|;
    assert s[..|head|] == head && s[|head| + 1..] == tail;
  }

  lemma {:induction false} FirstPart(parts: seq<string>)
    requires |parts| > 1
    ensures Join(parts, "|") == parts[0] + "|" + Join(parts[1..], "|")
    ensures parts == [parts[0]] + parts[1..]
    ensures BarFree(parts) ==> '|' !in parts[0] && BarFree(parts[1..])
  {
    forall i | 0 <= i < |parts| - 2
      ensures parts[1..][i] == parts[i + 1]
    {
    }
  }

  lemma {:induction false} BarFreeParts(parts: seq<string>, n: nat)
    requires parts != [] && BarFree(parts) && n == |parts|
    ensures SplitN(Join(parts, "|"), n) == parts
    decreases n
  {
    if n > 1 {
      FirstPart(parts);
      BarFreeParts(parts[1..], n - 1);
      SplitOnce(parts[0], Join(parts[1..], "|"), n);
    }
  }

  lemma {:induction false} BarsBehind(head: string, tail: string)
    requires '|' !in head
    ensures Lists.Occurrences(head + "|" + tail, '|') == 1 + Lists.Occurrences(tail, '|')
  {
    var bar := ['|'];
    Lists.Occurs(head, '|');
    Lists.OccurrencesConcat(head + bar, tail, '|');
    Lists.OccurrencesConcat(head, bar, '|');
    assert bar[1..] == [];
  }

  lemma {:induction false} SplitCount(s: string, n: nat)
    requires n >= 1
    ensures var bars := Lists.Occurrences(s, '|'); |SplitN(s, n)| == if n <= bars then n else bars + 1
    decreases |s|
  {
    if '|' !in s {
      Lists.Occurs(s, '|');
    } else if n > 1 {
      var i := Cut(s);
      CutParts(s);
      SplitCount(s[i + 1..], n - 1);
      BarsBehind(s[..i], s[i + 1..]);
    } else {
      Lists.Occurs(s, '|');
    }
  }

  lemma {:induction false} JoinCount(parts: seq<string>)
    requires parts != []
    ensures Lists.Occurrences(Join(parts, "|"), '|') >= |parts| - 1
  {
    if |parts| > 1 {
      var tail := Join(parts[1..], "|");
      JoinCount(parts[1..]);
      Lists.OccurrencesConcat(parts[0] + "|", tail, '|');
      Lists.OccurrencesConcat(parts[0], "|", '|');
      assert "|"[1..] == "";
    }
  }

  lemma {:induction false} PartsExact(parts: seq<string>, n: nat)
    requires parts != [] && n == |parts|
    ensures |SplitN(Join(parts, "|"), n)| == n
    ensures SplitN(Join(parts, "|"), n) == parts <==> BarFree(parts)
  {
    SplitUndoesJoin(parts);
    JoinCount(parts);
    SplitCount(Join(parts, "|"), n);
  }

  datatype Job = Job(id: string, name: string, target: string, command: string, args: seq<string>)

  function Fields(job: Job): seq<string> {
    [job.id, job.name, job.target, job.command, Join(job.args, ",")]
  }

  function Payload(job: Job): string {
    job.id + "|" + (job.name + "|" + (job.target + "|" + (job.command + "|" + Join(job.args, ","))))
  }

  lemma PayloadJoinsFields(job: Job)
    ensures Payload(job) == Join(Fields(job), "|")
  {
    var a := Join(job.args, ",");
    var f3, f2, f1 := [job.command, a], [job.target, job.command, a], [job.name, job.target, job.command, a];
    assert f3[1..] == [a] && f2[1..] == f3 && f1[1..] == f2 && Fields(job)[1..] == f1;
    assert Join(f3, "|") == job.command + "|" + a;
    assert Join(f2, "|") == job.target + "|" + (job.command + "|" + a);
    assert Join(f1, "|") == job.name + "|" + (job.target + "|" + (job.command + "|" + a));
  }

  /** The payload of a job always has its five parts, and they are the submitted fields exactly when
      none of the first four holds a bar. */
  lemma PayloadParts(job: Job)
    ensures |SplitN(Payload(job), 5)| == 5
    ensures SplitN(Payload(job), 5) == Fields(job) <==>
              '|' !in job.id && '|' !in job.name && '|' !in job.target && '|' !in job.command
  {
    var f := Fields(job);
    PayloadJoinsFields(job);
    PartsExact(f, 5);
    assert f[0] == job.id && f[1] == job.name && f[2] == job.target && f[3] == job.command;
  }

  // ---- Keys ----

  const QUEUE := "devops:queue"
  const RESULTS := "devops:results"

  function JobKey(id: string, suffix: string): string {
    "devops:job:" + id + suffix
  }

  /** Whatever the id, the keys of a job are not the queue. */
  lemma JobKeyIsNotQueue(id: string, suffix: string)
    ensures JobKey(id, suffix) != QUEUE && RESULTS != QUEUE
  {
    assert JobKey(id, suffix)[7] == 'j';
    assert QUEUE[7] == 'q' && RESULTS[7] == 'r';
  }

  // ---- Steps ----

  function SubmitSteps(job: Job): seq<Op> {
    [LPush(QUEUE, Payload(job)), SetStr(JobKey(job.id, ""), Payload(job)), SetStr(JobKey(job.id, ":status"), "queued")]
  }

  /** The order that a submission should have: the job can be taken only when its status is written. */
  function StatusFirstSteps(job: Job): seq<Op> {
    [SetStr(JobKey(job.id, ""), Payload(job)), SetStr(JobKey(job.id, ":status"), "queued"), LPush(QUEUE, Payload(job))]
  }

  /** What `job next` does once it has popped a payload. */
  function StartSteps(payload: string): seq<Op> {
    var parts := SplitN(payload, 5);
    if |parts| < 5 then [] else [SetStr(JobKey(parts[0], ":status"), "running")]
  }

  function ResultSteps(id: string, status: string, result: string, entry: string): seq<Op> {
    [SetStr(JobKey(id, ":status"), status), SetStr(JobKey(id, ":result"), result), LPush(RESULTS, entry)]
  }

  /** The operation leaves the queue alone. */
  predicate Elsewhere(op: Op) {
    op.Keys? || op.Sweep? || op.key != QUEUE
  }

  predicate Pushes(op: Op) {
    op.LPush? && op.key == QUEUE
  }

  predicate Pops(op: Op) {
    op.RPop? && op.key == QUEUE
  }

  ghost predicate IsPayload(p: string) {
    exists job :: p == Payload(job)
  }

  /** What a step of some client may be: a job pushed, a job popped, or anything off the queue. */
  ghost predicate JobStep(op: Op) {
    Elsewhere(op) || Pops(op) || (Pushes(op) && IsPayload(op.item))
  }

  // ---- The queue under one step ----

  function Queue(data: Data): seq<string> {
    if QUEUE in data && data[QUEUE].typ.List? then data[QUEUE].typ.items else []
  }

  /** The queue is a list that never expires and holds job payloads only. */
  ghost predicate QueueFine(data: Data) {
    && (QUEUE in data ==> data[QUEUE].typ.List? && data[QUEUE].expAt == None)
    && forall p :: p in Queue(data) ==> IsPayload(p)
  }

  lemma StepOnQueue(data: Data, now: nat, op: Op)
    requires QueueFine(data) && JobStep(op)
    ensures QueueFine(Next(data, now, op))
    ensures var q, q' := Queue(data), Queue(Next(data, now, op));
            if Pushes(op) then q' == [op.item] + q
            else if Pops(op) && q != [] then q == q' + [q[|q| - 1]] && ReplyTo(data, now, op) == Item(q[|q| - 1])
            else q' == q && (Pops(op) ==> ReplyTo(data, now, op) == Missing)
  {
    var q, q' := Queue(data), Queue(Next(data, now, op));
    if Elsewhere(op) {
      assert QUEUE in Next(data, now, op) <==> QUEUE in data;
      assert QUEUE in data ==> Next(data, now, op)[QUEUE] == data[QUEUE];
    } else if Pops(op) && q != [] {
      assert q == q' + [q[|q| - 1]];
    }
  }

  // ---- Clients ----

  datatype Command =
    | Submit(job: Job)
    | SubmitStatusFirst(job: Job)
    | TakeNext
    | Result(id: string, status: string, result: string, entry: string)
    | Other(op: Op)

  datatype World = World(data: Data, pending: map<nat, seq<Op>>, submitted: seq<string>, handedOut: seq<string>)

  datatype Action =
    | Begin(client: nat, command: Command)
    | Step(client: nat, now: nat)
    | Sweeper(now: nat)

  function Pending(w: World, client: nat): seq<Op> {
    if client in w.pending then w.pending[client] else []
  }

  function Plan(c: Command): seq<Op> {
    match c
    case Submit(job) => SubmitSteps(job)
    case SubmitStatusFirst(job) => StatusFirstSteps(job)
    case TakeNext => [RPop(QUEUE)]
    case Result(id, status, result, entry) => ResultSteps(id, status, result, entry)
    case Other(op) => [op]
  }

  /** One action: a client takes up a command once it is done with the last, or makes one step. */
  function Act(w: World, a: Action): World {
    match a
    case Begin(client, command) =>
      if Pending(w, client) == [] then w.(pending := w.pending[client := Plan(command)]) else w
    case Step(client, now) =>
      if Pending(w, client) == [] then w
      else
        var op, rest := Pending(w, client)[0], Pending(w, client)[1..];
        var reply := ReplyTo(w.data, now, op);
        var got := Pops(op) && reply.Item?;
        World(Next(w.data, now, op),
              w.pending[client := if got then StartSteps(reply.item) + rest else rest],
              if Pushes(op) then w.submitted + [op.item] else w.submitted,
              if got then w.handedOut + [reply.item] else w.handedOut)
    case Sweeper(now) => w.(data := Next(w.data, now, Sweep))
  }

  function Play(w: World, actions: seq<Action>): World {
    if actions == [] then w else Act(Play(w, actions[..|actions| - 1]), actions[|actions| - 1])
  }

  /** Only the job commands touch the queue. */
  predicate OnlyJobs(actions: seq<Action>) {
    forall a :: a in actions ==> a.Begin? && a.command.Other? ==> Elsewhere(a.command.op)
  }

  ghost predicate JobSteps(ops: seq<Op>) {
    forall op :: op in ops ==> JobStep(op)
  }

  ghost predicate Conserved(submitted: seq<string>, handedOut: seq<string>, queue: seq<string>) {
    submitted == handedOut + Lists.Reverse(queue)
  }

  ghost predicate Fine(w: World) {
    && QueueFine(w.data)
    && (forall client :: client in w.pending ==> JobSteps(w.pending[client]))
    && Conserved(w.submitted, w.handedOut, Queue(w.data))
    && forall p :: p in w.handedOut ==> IsPayload(p)
  }

  lemma PlanTakesJobSteps(c: Command)
    requires c.Other? ==> Elsewhere(c.op)
    ensures JobSteps(Plan(c))
  {
    match c
    case Submit(job) =>
      JobKeyIsNotQueue(job.id, "");
      JobKeyIsNotQueue(job.id, ":status");
    case SubmitStatusFirst(job) =>
      JobKeyIsNotQueue(job.id, "");
      JobKeyIsNotQueue(job.id, ":status");
    case Result(id, status, result, entry) =>
      JobKeyIsNotQueue(id, ":status");
      JobKeyIsNotQueue(id, ":result");
    case _ =>
  }

  lemma Pushing(submitted: seq<string>, handedOut: seq<string>, q: seq<string>, p: string)
    requires Conserved(submitted, handedOut, q)
    ensures Conserved(submitted + [p], handedOut, [p] + q)
  {
    assert ([p] + q)[1..] == q;
  }

  lemma Popping(submitted: seq<string>, handedOut: seq<string>, q: seq<string>, p: string)
    requires Conserved(submitted, handedOut, q + [p])
    ensures Conserved(submitted, handedOut + [p], q)
  {
    Lists.ReverseSnoc(q, p);
  }

  lemma ActKeepsFine(w: World, a: Action)
    requires Fine(w) && OnlyJobs([a])
    ensures Fine(Act(w, a))
  {
    var w' := Act(w, a);
    match a
    case Begin(client, command) =>
      assert a in [a];
      PlanTakesJobSteps(command);
    case Step(client, now) =>
      if Pending(w, client) != [] {
        StepKeepsFine(w, client, now);
      }
    case Sweeper(now) =>
      StepOnQueue(w.data, now, Sweep);
  }

  lemma StepKeepsFine(w: World, client: nat, now: nat)
    requires Fine(w) && Pending(w, client) != []
    ensures Fine(Act(w, Step(client, now)))
  {
    var op, rest := Pending(w, client)[0], Pending(w, client)[1..];
    var q := Queue(w.data);
    assert JobSteps(rest);
    StepOnQueue(w.data, now, op);
    if Pushes(op) {
      Pushing(w.submitted, w.handedOut, q, op.item);
    } else if Pops(op) && q != [] {
      var p := q[|q| - 1];
      Popping(w.submitted, w.handedOut, Queue(Next(w.data, now, op)), p);
      StartTakesJobSteps(p, rest);
    }
  }

  lemma StartTakesJobSteps(p: string, rest: seq<Op>)
    requires JobSteps(rest)
    ensures JobSteps(StartSteps(p) + rest)
  {
    JobKeyIsNotQueue(SplitN(p, 5)[0], ":status");
  }

  /** Under every interleaving, the jobs handed out followed by the reversed queue are the jobs
      submitted, in order: first in, first out, none lost and none delivered twice. And `job next`
      never meets a malformed payload. */
  lemma {:induction false} JobsInOrder(w: World, actions: seq<Action>)
    requires Fine(w) && OnlyJobs(actions)
    ensures Fine(Play(w, actions))
    ensures var w' := Play(w, actions);
            && w'.submitted == w'.handedOut + Lists.Reverse(Queue(w'.data))
            && forall p :: p in w'.handedOut ==> |SplitN(p, 5)| == 5
  {
    if actions != [] {
      var before, last := actions[..|actions| - 1], actions[|actions| - 1];
      JobsInOrder(w, before);
      assert last in actions;
      ActKeepsFine(Play(w, before), last);
    }
    forall p | p in Play(w, actions).handedOut
      ensures |SplitN(p, 5)| == 5
    {
      var job :| p == Payload(job);
      PayloadParts(job);
    }
  }

  function Fresh(data: Data): World {
    World(data, map[], [], [])
  }

  /** A store without a queue is a fine place to start from. */
  lemma StartsFine(data: Data)
    requires QUEUE !in data
    ensures Fine(Fresh(data))
  {
  }

  // ---- The commands ----

  ghost function Steps(data: Data, now: nat, ops: seq<Op>): Data
    decreases ops
  {
    if ops == [] then data else Steps(Next(data, now, ops[0]), now, ops[1..])
  }

  lemma {:induction false} StepsCons(data: Data, now: nat, op: Op, rest: seq<Op>)
    ensures Steps(data, now, [op] + rest) == Steps(Next(data, now, op), now, rest)
  {
    assert ([op] + rest)[1..] == rest;
  }

  lemma {:induction false} StepsOfThree(data: Data, now: nat, a: Op, b: Op, c: Op)
    ensures Steps(data, now, [a, b, c]) == Next(Next(Next(data, now, a), now, b), now, c)
  {
    assert [a, b, c] == [a] + [b, c] && [b, c] == [b] + [c] && [c] == [c] + [];
    StepsCons(data, now, a, [b, c]);
    StepsCons(Next(data, now, a), now, b, [c]);
    StepsCons(Next(Next(data, now, a), now, b), now, c, []);
  }

  datatype Taken = Nothing | Malformed | Taken(fields: seq<string>)

  /** The arguments after the command name; the job's own arguments are whatever follows the first four. */
  function JobOf(args: seq<string>): Job
    requires |args| >= 5
  {
    Job(args[1], args[2], args[3], args[4], args[5..])
  }

  /** What is submitted: the first four arguments and then the others, joined by commas. */
  function Submitted(args: seq<string>): seq<string>
    requires |args| >= 5
  {
    [args[1], args[2], args[3], args[4], Join(args[5..], ",")]
  }

  predicate NoBars(args: seq<string>)
    requires |args| >= 5
  {
    '|' !in args[1] && '|' !in args[2] && '|' !in args[3] && '|' !in args[4]
  }

  /** The payload is what is submitted, joined by bars, and splits into it again exactly when the first
      four arguments hold no bar. */
  lemma SubmittedSplits(args: seq<string>)
    requires |args| >= 5
    ensures Payload(JobOf(args)) == Join(Submitted(args), "|")
    ensures SplitN(Payload(JobOf(args)), 5) == Submitted(args) <==> NoBars(args)
  {
    PayloadJoinsFields(JobOf(args));
    PayloadParts(JobOf(args));
  }

  /** The payload is in front of the queue and under the job's key, the status is "queued", and nothing
      else has changed. */
  ghost predicate SubmitDone(data: Data, data': Data, args: seq<string>)
    requires |args| >= 5
  {
    SubmitDoneAt(data, data', Join(Submitted(args), "|"), "devops:job:" + args[1], "devops:job:" + args[1] + ":status")
  }

  ghost predicate SubmitDoneAt(data: Data, data': Data, payload: string, key: string, status: string) {
    && (QueueFine(data) ==> QueueFine(data') && Queue(data') == [payload] + Queue(data))
    && key in data' && data'[key] == Entry(Str(payload), None)
    && status in data' && data'[status] == Entry(Str("queued"), None)
    && forall k :: k != "devops:queue" && k != key && k != status ==> SameUnder(data, data', k)
  }

  lemma PushSetSet(data: Data, now: nat, p: string, key: string, status: string)
    requires IsPayload(p) && key != QUEUE && status != QUEUE && key != status
    ensures SubmitDoneAt(data, Next(Next(Next(data, now, LPush(QUEUE, p)), now, SetStr(key, p)), now, SetStr(status, "queued")), p, key, status)
    ensures SubmitDoneAt(data, Next(Next(Next(data, now, SetStr(key, p)), now, SetStr(status, "queued")), now, LPush(QUEUE, p)), p, key, status)
  {
    PushEffect(data, now, p);
    var d := Next(data, now, LPush(QUEUE, p));
    SetEffect(d, now, key, p);
    SetEffect(d[key := Entry(Str(p), None)], now, status, "queued");
    SetEffect(data, now, key, p);
    var e := data[key := Entry(Str(p), None)];
    SetEffect(e, now, status, "queued");
    PushEffect(e[status := Entry(Str("queued"), None)], now, p);
  }

  ghost predicate SameUnder(data: Data, data': Data, k: string) {
    (k in data' <==> k in data) && (k in data ==> data'[k] == data[k])
  }

  lemma SetEffect(data: Data, now: nat, key: string, val: string)
    requires key != QUEUE
    ensures var d := data[key := Entry(Str(val), None)];
            Next(data, now, SetStr(key, val)) == d && Queue(d) == Queue(data) && (QueueFine(data) ==> QueueFine(d))
  {
  }

  lemma PushEffect(data: Data, now: nat, p: string)
    requires IsPayload(p)
    ensures var d := Next(data, now, LPush(QUEUE, p));
            && (QueueFine(data) ==> QueueFine(d) && Queue(d) == [p] + Queue(data))
            && forall k :: k != QUEUE ==> SameUnder(data, d, k)
  {
    if QueueFine(data) { StepOnQueue(data, now, LPush(QUEUE, p)); }
  }

  lemma SubmitIsDone(data: Data, now: nat, args: seq<string>)
    requires |args| >= 5
    ensures var steps := SubmitSteps(JobOf(args)); SubmitDone(data, Next(Next(Next(data, now, steps[0]), now, steps[1]), now, steps[2]), args)
    ensures var steps := StatusFirstSteps(JobOf(args)); SubmitDone(data, Next(Next(Next(data, now, steps[0]), now, steps[1]), now, steps[2]), args)
  {
    var job := JobOf(args);
    SubmittedSplits(args);
    JobKeys(job.id);
    assert IsPayload(Payload(job));
    PushSetSet(data, now, Payload(job), JobKey(job.id, ""), JobKey(job.id, ":status"));
  }

  lemma JobKeys(id: string)
    ensures JobKey(id, "") == "devops:job:" + id && JobKey(id, ":status") == "devops:job:" + id + ":status"
    ensures JobKey(id, ":result") == "devops:job:" + id + ":result"
    ensures JobKey(id, "") != JobKey(id, ":status") && JobKey(id, ":result") != JobKey(id, ":status")
    ensures JobKey(id, "") != QUEUE && JobKey(id, ":status") != QUEUE
    ensures JobKey(id, ":status") != RESULTS && JobKey(id, ":result") != RESULTS
  {
    JobKeyIsNotQueue(id, "");
    JobKeyIsNotQueue(id, ":status");
    assert |JobKey(id, "")| == 11 + |id| && |JobKey(id, ":status")| == 18 + |id| && |JobKey(id, ":result")| == 18 + |id|;
    assert JobKey(id, ":status")[12 + |id|] == 's' && JobKey(id, ":result")[12 + |id|] == 'r';
    assert JobKey(id, ":status")[7] == 'j' && JobKey(id, ":result")[7] == 'j' && RESULTS[7] == 'r';
  }

  /** Too few arguments are an error and change nothing. */
  method JobSubmit(store: Store, args: seq<string>, ghost now: nat) returns (id: Option<string>)
    modifies store
    ensures |args| < 5 ==> id == None && store.data == old(store.data)
    ensures |args| >= 5 ==> id == Some(args[1]) && SubmitDone(old(store.data), store.data, args)
    ensures |args| >= 5 ==> id == Some(args[1]) && store.data == Steps(old(store.data), now, SubmitSteps(JobOf(args)))
  {
    if |args| < 5 { return None; }
    var job := JobOf(args);
    var payload := Payload(job);
    StepsOfThree(store.data, now, SubmitSteps(job)[0], SubmitSteps(job)[1], SubmitSteps(job)[2]);
    SubmitIsDone(store.data, now, args);
    store.PushLeft(QUEUE, payload, now);
    store.SetString(JobKey(job.id, ""), payload, now);
    store.SetString(JobKey(job.id, ":status"), "queued", now);
    return Some(job.id);
  }

  /** The submission with its steps in the order they should have. */
  method JobSubmitStatusFirst(store: Store, args: seq<string>, ghost now: nat) returns (id: Option<string>)
    modifies store
    ensures |args| < 5 ==> id == None && store.data == old(store.data)
    ensures |args| >= 5 ==> id == Some(args[1]) && SubmitDone(old(store.data), store.data, args)
    ensures |args| >= 5 ==> id == Some(args[1]) && store.data == Steps(old(store.data), now, StatusFirstSteps(JobOf(args)))
  {
    if |args| < 5 { return None; }
    var job := JobOf(args);
    var payload := Payload(job);
    StepsOfThree(store.data, now, StatusFirstSteps(job)[0], StatusFirstSteps(job)[1], StatusFirstSteps(job)[2]);
    SubmitIsDone(store.data, now, args);
    store.SetString(JobKey(job.id, ""), payload, now);
    store.SetString(JobKey(job.id, ":status"), "queued", now);
    store.PushLeft(QUEUE, payload, now);
    return Some(job.id);
  }

  /** The payload is taken from the back of the queue, the status of its job is "running", and nothing
      else has changed. */
  ghost predicate NextDone(data: Data, data': Data, fields: seq<string>) {
    && |fields| == 5 && QueueFine(data') && Queue(data) == Queue(data') + [Join(fields, "|")]
    && var status := "devops:job:" + fields[0] + ":status";
       && status in data' && data'[status] == Entry(Str("running"), None)
       && forall k :: k != "devops:queue" && k != status ==> SameUnder(data, data', k)
  }

  lemma PopEffect(data: Data, now: nat)
    requires QueueFine(data) && Queue(data) != []
    ensures var d, q := Next(data, now, RPop(QUEUE)), Queue(data);
            && QueueFine(d) && q == Queue(d) + [q[|q| - 1]] && IsPayload(q[|q| - 1])
            && forall k :: k != QUEUE ==> SameUnder(data, d, k)
  {
    var q := Queue(data);
    assert q[|q| - 1] in q;
    StepOnQueue(data, now, RPop(QUEUE));
  }

  lemma {:induction false} PayloadSplits(p: string)
    requires IsPayload(p)
    ensures |SplitN(p, 5)| == 5 && Join(SplitN(p, 5), "|") == p
  {
    var job :| p == Payload(job);
    PayloadParts(job);
    SplitJoins(p, 5);
  }

  lemma {:induction false} RunningSet(data: Data, d: Data, now: nat, parts: seq<string>)
    requires |parts| == 5 && QueueFine(d) && Queue(data) == Queue(d) + [Join(parts, "|")]
    requires forall k :: k != QUEUE ==> SameUnder(data, d, k)
    ensures NextDone(data, Next(d, now, SetStr(JobKey(parts[0], ":status"), "running")), parts)
  {
    var status := JobKey(parts[0], ":status");
    JobKeys(parts[0]);
    SetEffect(d, now, status, "running");
    var d' := d[status := Entry(Str("running"), None)];
    forall k | k != QUEUE && k != status
      ensures SameUnder(data, d', k)
    {
      assert SameUnder(data, d, k);
    }
  }

  lemma NextIsDone(data: Data, now: nat)
    requires QueueFine(data) && Queue(data) != []
    ensures var p := Queue(data)[|Queue(data)| - 1];
            && |SplitN(p, 5)| == 5
            && NextDone(data, Next(Next(data, now, RPop(QUEUE)), now, StartSteps(p)[0]), SplitN(p, 5))
  {
    var p := Queue(data)[|Queue(data)| - 1];
    PopEffect(data, now);
    PayloadSplits(p);
    RunningSet(data, Next(data, now, RPop(QUEUE)), now, SplitN(p, 5));
  }

  /** On a fine queue the reply is the five parts of the job pushed longest ago. */
  method JobNext(store: Store, ghost now: nat) returns (r: Taken)
    modifies store
    ensures var popped := ReplyTo(old(store.data), now, RPop(QUEUE));
            store.data == Steps(old(store.data), now, [RPop(QUEUE)] + if popped.Item? then StartSteps(popped.item) else [])
    ensures QueueFine(old(store.data)) ==>
              var q := Queue(old(store.data));
              if q == [] then r == Nothing && store.data == old(store.data)
              else r == Taken(SplitN(q[|q| - 1], 5)) && |r.fields| == 5 && NextDone(old(store.data), store.data, r.fields)
  {
    ghost var was := store.data;
    if QueueFine(was) && Queue(was) != [] { NextIsDone(was, now); }
    var popped := store.PopRight(QUEUE, now);
    StepsCons(was, now, RPop(QUEUE), if popped == None then [] else StartSteps(popped.value));
    if popped == None { return Nothing; }
    var parts := SplitN(popped.value, 5);
    if |parts| < 5 { return Malformed; }
    store.SetString(JobKey(parts[0], ":status"), "running", now);
    return Taken(parts);
  }

  /** On an empty queue, the job that was just submitted is handed out, with the arguments it was
      submitted with exactly when the first four hold no bar. */
  method SubmitThenNext(store: Store, args: seq<string>, ghost now: nat, ghost later: nat) returns (r: Taken)
    requires |args| >= 5 && QueueFine(store.data) && Queue(store.data) == []
    modifies store
    ensures r == Taken([args[1], args[2], args[3], args[4], Join(args[5..], ",")]) <==> NoBars(args)
    ensures r.Taken? && |r.fields| == 5 && Join(r.fields, "|") == Join(Submitted(args), "|")
    ensures Queue(store.data) == []
  {
    SubmittedSplits(args);
    SplitJoins(Payload(JobOf(args)), 5);
    var _ := JobSubmit(store, args, now);
    assert Queue(store.data) == [Payload(JobOf(args))];
    r := JobNext(store, later);
  }

  // ---- Numbers ----

  function Decimal(n: int): string {
    if n < 0 then "-" + Unsigned(-n) else Unsigned(n)
  }

  function Unsigned(n: nat): (s: string)
    ensures s != [] && AllDigits(s)
  {
    var d := Decimals.Digits(n);
    seq(|d|, i requires 0 <= i < |d| => (48 + d[i]) as char)
  }

  predicate AllDigits(s: string) {
    forall i :: 0 <= i < |s| ==> '0' <= s[i] <= '9'
  }

  function DigitsOf(s: string): seq<nat>
    requires AllDigits(s)
  {
    seq(|s|, i requires 0 <= i < |s| => s[i] as nat - 48)
  }

  const LEAST: int := Lists.LEAST

  /** Parsing a 64-bit integer: an optional sign and at least one digit, nothing else, within range. */
  function ParseInt(s: string): Option<int> {
    var signed := s != [] && (s[0] == '-' || s[0] == '+');
    var digits := if signed then s[1..] else s;
    if digits == [] || !AllDigits(digits) then None
    else
      var n: int := Decimals.Value(DigitsOf(digits));
      var v := if signed && s[0] == '-' then -n else n;
      if LEAST <= v < -LEAST then Some(v) else None
  }

  lemma UnsignedValue(n: nat)
    ensures Decimals.Value(DigitsOf(Unsigned(n))) == n
  {
    assert DigitsOf(Unsigned(n)) == Decimals.Digits(n);
    Decimals.ValueOfDigits(n);
  }

  function Zeros(k: nat): (s: string)
    ensures AllDigits(s)
  {
    seq(k, _ => '0')
  }

  /** An optional sign, any number of zeros, and the digits of the number. */
  predicate Numeral(s: string, sign: string, k: nat, v: int) {
    && s == sign + (Zeros(k) + Unsigned(if v < 0 then -v else v))
    && if sign == "-" then v <= 0 else (sign == "" || sign == "+") && v >= 0
  }

  lemma ZerosValue(k: nat, n: nat)
    ensures AllDigits(Zeros(k) + Unsigned(n)) && Decimals.Value(DigitsOf(Zeros(k) + Unsigned(n))) == n
  {
    var text, d := Zeros(k) + Unsigned(n), Decimals.Zeros(k) + Decimals.Digits(n);
    assert |text| == |d| && forall i :: 0 <= i < |d| ==> text[i] as nat == 48 + d[i];
    assert DigitsOf(text) == d;
    Decimals.LeadingZeros(k, Decimals.Digits(n));
    Decimals.ValueOfDigits(n);
  }

  lemma DigitsAreNumeral(digits: string) returns (k: nat)
    requires digits != [] && AllDigits(digits)
    ensures digits == Zeros(k) + Unsigned(Decimals.Value(DigitsOf(digits)))
  {
    var d := DigitsOf(digits);
    k := Decimals.WithoutZeros(d);
    var all := Decimals.Zeros(k) + Decimals.Digits(Decimals.Value(d));
    var text := Zeros(k) + Unsigned(Decimals.Value(d));
    assert d == all && |text| == |all|;
    forall i | 0 <= i < |digits|
      ensures digits[i] == text[i]
    {
      assert d[i] == digits[i] as nat - 48 && text[i] as nat == 48 + all[i];
    }
  }

  /** What is read without its sign. */
  lemma ParseDigits(s: string, sign: string, digits: string)
    requires digits != [] && AllDigits(digits) && s == sign + digits && (sign == "" || sign == "+" || sign == "-")
    ensures var n: int := Decimals.Value(DigitsOf(digits));
            var v := if sign == "-" then -n else n;
            ParseInt(s) == if LEAST <= v < -LEAST then Some(v) else None
  {
    assert '0' <= digits[0] <= '9';
    if sign == "" {
      assert s == digits;
    } else {
      assert s[0] == sign[0] && s[1..] == digits;
    }
  }

  lemma SignAndDigits(s: string) returns (sign: string, digits: string)
    requires ParseInt(s).Some?
    ensures digits != [] && AllDigits(digits) && s == sign + digits && (sign == "" || sign == "+" || sign == "-")
  {
    sign, digits := if s[0] == '-' || s[0] == '+' then s[..1] else "", if s[0] == '-' || s[0] == '+' then s[1..] else s;
  }

  lemma NumeralParses(s: string, sign: string, k: nat, v: int)
    requires Numeral(s, sign, k, v)
    ensures ParseInt(s) == if LEAST <= v < -LEAST then Some(v) else None
  {
    var n: nat := if v < 0 then -v else v;
    ZerosValue(k, n);
    ParseDigits(s, sign, Zeros(k) + Unsigned(n));
  }

  lemma ParsedIsNumeral(s: string) returns (sign: string, k: nat)
    requires ParseInt(s).Some?
    ensures Numeral(s, sign, k, ParseInt(s).value) && LEAST <= ParseInt(s).value < -LEAST
  {
    var digits;
    sign, digits := SignAndDigits(s);
    ParseDigits(s, sign, digits);
    k := DigitsAreNumeral(digits);
  }

  /** A text is read as a number exactly if it writes that number and the number has 64 bits. */
  lemma ParseExactly(s: string, v: int)
    ensures ParseInt(s) == Some(v) <==> LEAST <= v < -LEAST && exists sign, k :: Numeral(s, sign, k, v)
  {
    if ParseInt(s) == Some(v) {
      var sign, k := ParsedIsNumeral(s);
    } else if sign, k :| Numeral(s, sign, k, v) {
      NumeralParses(s, sign, k, v);
    }
  }

  lemma NoZeros(sign: string, digits: string)
    ensures sign + (Zeros(0) + digits) == sign + digits && "" + digits == digits
  {
    assert Zeros(0) + digits == digits;
  }

  /** A printed integer parses back exactly when it fits in 64 bits. */
  lemma ParsePrinted(n: int)
    ensures ParseInt(Decimal(n)) == Some(n) <==> LEAST <= n < -LEAST
  {
    var sign, digits := if n < 0 then "-" else "", Unsigned(if n < 0 then -n else n);
    NoZeros(sign, digits);
    assert Decimal(n) == sign + digits;
    NumeralParses(Decimal(n), sign, 0, n);
  }

  function Items(data: Data, key: string): seq<string> {
    if key in data && data[key].typ.List? then data[key].typ.items else []
  }

  /** Outcome and result are under the keys of the job, the entry is in front of the list of results if
      there is a list or nothing, and nothing else has changed. */
  ghost predicate ResultDone(data: Data, data': Data, id: string, status: string, result: string, entry: string) {
    var k1, k2 := "devops:job:" + id + ":status", "devops:job:" + id + ":result";
    && k1 in data' && data'[k1] == Entry(Str(status), None)
    && k2 in data' && data'[k2] == Entry(Str(result), None)
    && ("devops:results" in data && !data["devops:results"].typ.List? ==> SameUnder(data, data', "devops:results"))
    && (("devops:results" in data ==> data["devops:results"].typ.List?) ==>
          Items(data', "devops:results") == [entry] + Items(data, "devops:results"))
    && forall k :: k != "devops:results" && k != k1 && k != k2 ==> SameUnder(data, data', k)
  }

  lemma ResultIsDone(data: Data, now: nat, id: string, status: string, result: string, entry: string)
    ensures var steps := ResultSteps(id, status, result, entry);
            ResultDone(data, Next(Next(Next(data, now, steps[0]), now, steps[1]), now, steps[2]), id, status, result, entry)
  {
    JobKeys(id);
  }

  /** A wrong number of arguments, or one that is no number, is an error and changes nothing. */
  method JobResult(store: Store, args: seq<string>, ghost now: nat) returns (status: Option<string>)
    modifies store
    ensures status.Some? <==> |args| == 4 && ParseInt(args[2]).Some? && ParseInt(args[3]).Some?
    ensures status == None ==> store.data == old(store.data)
    ensures status.Some? ==>
              var exitCode, duration := ParseInt(args[2]).value, ParseInt(args[3]).value;
              && status.value == (if exitCode == 0 then "passed" else "failed")
              && ResultDone(old(store.data), store.data, args[1], status.value,
                            "exit_code=" + Decimal(exitCode) + ",duration_ms=" + Decimal(duration),
                            args[1] + "|" + status.value + "|" + Decimal(duration))
              && store.data == Steps(old(store.data), now,
                                     ResultSteps(args[1], status.value,
                                                 "exit_code=" + Decimal(exitCode) + ",duration_ms=" + Decimal(duration),
                                                 args[1] + "|" + status.value + "|" + Decimal(duration)))
  {
    if |args| != 4 { return None; }
    var exitCode, duration := ParseInt(args[2]), ParseInt(args[3]);
    if exitCode == None || duration == None { return None; }
    var id, outcome := args[1], if exitCode.value == 0 then "passed" else "failed";
    var result := "exit_code=" + Decimal(exitCode.value) + ",duration_ms=" + Decimal(duration.value);
    var entry := id + "|" + outcome + "|" + Decimal(duration.value);
    ghost var steps := ResultSteps(id, outcome, result, entry);
    StepsOfThree(store.data, now, steps[0], steps[1], steps[2]);
    ResultIsDone(store.data, now, id, outcome, result, entry);
    store.SetString(JobKey(id, ":status"), outcome, now);
    store.SetString(JobKey(id, ":result"), result, now);
    store.PushLeft(RESULTS, entry, now);
    return Some(outcome);
  }
}
