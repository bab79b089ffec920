/**
 Time series: points kept sorted by timestamp, retention applied on every add, range queries.

 What a series holds is described by its whole history of adds and policy changes. Timestamps are in
 milliseconds and values are real numbers.
 */
module TimeSeries {
  import opened Basics

  datatype Point = Point(timestamp: nat, value: real, labels: map<string, string>)

  /** The bound on the number of points is stored but never enforced by the source. */
  datatype Policy = Policy(maxAgeSecs: nat, maxPoints: nat)

  datatype Series = Series(points: seq<Point>, retention: Option<Policy>)

  // ---- Stable sorting by timestamp ----

  ghost predicate InTimeOrder(s: seq<Point>) {
    forall i, j :: 0 <= i < j < |s| ==> s[i].timestamp <= s[j].timestamp
  }

  /** `p` goes after every point that is not later. */
  function Placed(s: seq<Point>, p: Point): seq<Point> {
    if s == [] || s[|s| - 1].timestamp <= p.timestamp then s + [p]
    else Placed(s[..|s| - 1], p) + [s[|s| - 1]]
  }

  function SortByTime(s: seq<Point>): seq<Point> {
    if s == [] then [] else Placed(SortByTime(s[..|s| - 1]), s[|s| - 1])
  }

  predicate InRange(p: Point, from: nat, to: Option<nat>) {
    from <= p.timestamp && (to.Some? ==> p.timestamp <= to.value)
  }

  /** The points with timestamps from `from` up to `to`, in order; None is no bound. */
  function Within(s: seq<Point>, from: nat, to: Option<nat>): seq<Point> {
    if s == [] then []
    else
      var front, last := Within(s[..|s| - 1], from, to), s[|s| - 1];
      if InRange(last, from, to) then front + [last] else front
  }

  lemma {:induction false} PlacedOrder(s: seq<Point>, p: Point)
    requires InTimeOrder(s)
    ensures InTimeOrder(Placed(s, p)) && |Placed(s, p)| == |s| + 1
    ensures forall x :: x in Placed(s, p) <==> x in s || x == p
  {
    if s != [] && s[|s| - 1].timestamp > p.timestamp {
      var front, last := s[..|s| - 1], s[|s| - 1];
      PlacedOrder(front, p);
      assert s == front + [last];
      var t := Placed(front, p);
      forall i | 0 <= i < |t|
        ensures t[i].timestamp <= last.timestamp
      {
        assert t[i] in t;
      }
    }
  }

  lemma {:induction false} SortedOrder(s: seq<Point>)
    ensures InTimeOrder(SortByTime(s))
    ensures multiset(SortByTime(s)) == multiset(s)
  {
    if s != [] {
      var front, last := s[..|s| - 1], s[|s| - 1];
      SortedOrder(front);
      PlacedOrder(SortByTime(front), last);
      PlacedMultiset(SortByTime(front), last);
      assert s == front + [last];
    }
  }

  lemma {:induction false} PlacedMultiset(s: seq<Point>, p: Point)
    ensures multiset(Placed(s, p)) == multiset(s) + multiset{p}
  {
    if s != [] && s[|s| - 1].timestamp > p.timestamp {
      PlacedMultiset(s[..|s| - 1], p);
      assert s == s[..|s| - 1] + [s[|s| - 1]];
    }
  }

  lemma {:induction false} WithinSnoc(s: seq<Point>, p: Point, from: nat, to: Option<nat>)
    ensures Within(s + [p], from, to) == if InRange(p, from, to) then Within(s, from, to) + [p] else Within(s, from, to)
  {
    assert (s + [p])[..|s|] == s;
  }

  lemma {:induction false} PlacedSnoc(s: seq<Point>, last: Point, p: Point)
    ensures Placed(s + [last], p) == if last.timestamp <= p.timestamp then s + [last] + [p] else Placed(s, p) + [last]
  {
    assert (s + [last])[..|s|] == s;
  }

  lemma {:induction false} PlacedAtEnd(s: seq<Point>, p: Point)
    requires forall x :: x in s ==> x.timestamp <= p.timestamp
    ensures Placed(s, p) == s + [p]
  {
    if s != [] {
      assert s[|s| - 1] in s;
    }
  }

  /** Selecting a range and placing a point commute. */
  lemma {:induction false} PlacedWithin(s: seq<Point>, p: Point, from: nat, to: Option<nat>)
    requires InTimeOrder(s)
    ensures Within(Placed(s, p), from, to)
         == if InRange(p, from, to) then Placed(Within(s, from, to), p) else Within(s, from, to)
  {
    if s == [] || s[|s| - 1].timestamp <= p.timestamp {
      WithinSnoc(s, p, from, to);
      WithinMembers(s, from, to);
      PlacedAtEnd(Within(s, from, to), p);
    } else {
      var front, last := s[..|s| - 1], s[|s| - 1];
      PlacedWithin(front, p, from, to);
      WithinSnoc(Placed(front, p), last, from, to);
      PlacedSnoc(Within(front, from, to), last, p);
    }
  }

  lemma {:induction false} WithinMembers(s: seq<Point>, from: nat, to: Option<nat>)
    ensures forall x :: x in Within(s, from, to) <==> x in s && InRange(x, from, to)
  {
    if s != [] {
      WithinMembers(s[..|s| - 1], from, to);
      assert s == s[..|s| - 1] + [s[|s| - 1]];
    }
  }

  lemma {:induction false} SortSnoc(s: seq<Point>, p: Point)
    ensures SortByTime(s + [p]) == Placed(SortByTime(s), p)
  {
    assert (s + [p])[..|s|] == s;
  }

  /** Selecting a range of the sorted points is sorting the selected points. */
  lemma {:induction false} SortWithin(s: seq<Point>, from: nat, to: Option<nat>)
    ensures Within(SortByTime(s), from, to) == SortByTime(Within(s, from, to))
  {
    if s != [] {
      var front, last := s[..|s| - 1], s[|s| - 1];
      SortWithin(front, from, to);
      SortedOrder(front);
      PlacedWithin(SortByTime(front), last, from, to);
      SortSnoc(Within(front, from, to), last);
    }
  }

  /** The sort is stable: the points of each timestamp stay in the order they had. */
  lemma {:induction false} SortIsStable(s: seq<Point>, t: nat)
    ensures Within(SortByTime(s), t, Some(t)) == Within(s, t, Some(t))
  {
    SortWithin(s, t, Some(t));
    WithinMembers(s, t, Some(t));
    AllSame(Within(s, t, Some(t)), t);
  }

  lemma {:induction false} AllSame(s: seq<Point>, t: nat)
    requires forall x :: x in s ==> x.timestamp == t
    ensures SortByTime(s) == s
  {
    if s != [] {
      var front, last := s[..|s| - 1], s[|s| - 1];
      AllSame(front, t);
      assert Placed(front, last) == front + [last] by {
        assert last in s;
        if front != [] { assert front[|front| - 1] in s; }
      }
      assert s == front + [last];
    }
  }

  // ---- Histories ----

  datatype Event = Add(point: Point) | SetPolicy(policy: Policy)

  /** The policy in force after the first `n` events. */
  function PolicyAfter(h: seq<Event>, n: nat): Option<Policy>
    requires n <= |h|
  {
    if n == 0 then None
    else if h[n - 1].SetPolicy? then Some(h[n - 1].policy)
    else PolicyAfter(h, n - 1)
  }

  /** An add at time `now` drops everything older than this. */
  function Cutoff(now: nat, policy: Option<Policy>): nat {
    if policy == None || now < policy.value.maxAgeSecs * 1000 then 0 else now - policy.value.maxAgeSecs * 1000
  }

  /** Event `k` set the policy that holds just before event `n`. */
  ghost predicate InForce(h: seq<Event>, k: nat, n: nat)
    requires k < n <= |h|
  {
    h[k].SetPolicy? && forall l :: k < l < n ==> !h[l].SetPolicy?
  }

  /** If event `j` is an add, the point added by event `i` is not older then than the policy in force
      allows, if there is one. */
  ghost predicate Outlives(h: seq<Event>, i: nat, j: nat)
    requires i < |h| && j < |h| && h[i].Add?
  {
    h[j].Add? ==>
      forall k: nat :: k < j && InForce(h, k, j) ==>
        h[i].point.timestamp + 1000 * h[k].policy.maxAgeSecs >= h[j].point.timestamp
  }

  lemma {:induction false} PolicyInForce(h: seq<Event>, n: nat)
    requires n <= |h|
    ensures forall k: nat :: k < n && InForce(h, k, n) ==> PolicyAfter(h, n) == Some(h[k].policy)
    ensures PolicyAfter(h, n).Some? ==> exists k: nat :: k < n && InForce(h, k, n) && h[k].policy == PolicyAfter(h, n).value
    ensures PolicyAfter(h, n) == None <==> forall k :: 0 <= k < n ==> !h[k].SetPolicy?
  {
    if n > 0 {
      PolicyInForce(h, n - 1);
      if h[n - 1].SetPolicy? {
        assert InForce(h, n - 1, n);
      } else {
        forall k: nat | k < n - 1
          ensures InForce(h, k, n) <==> InForce(h, k, n - 1)
        {
        }
      }
    }
  }

  /** The cutoff is where the points begin that outlive an add. */
  lemma {:induction false} OutlivesByCutoff(h: seq<Event>, i: nat, j: nat)
    requires i < |h| && j < |h| && h[i].Add? && h[j].Add?
    ensures Outlives(h, i, j) <==> h[i].point.timestamp >= Cutoff(h[j].point.timestamp, PolicyAfter(h, j))
  {
    PolicyInForce(h, j);
  }

  /** The point added by event `i` outlives every add from then on. */
  ghost predicate Survives(h: seq<Event>, i: nat)
    requires i < |h|
  {
    h[i].Add? && forall j: nat {:trigger Outlives(h, i, j)} :: i <= j < |h| ==> Outlives(h, i, j)
  }

  /** The survivors among the first `n` events, in the order they were added. */
  ghost function Survivors(h: seq<Event>, n: nat): seq<Point>
    requires n <= |h|
  {
    if n == 0 then []
    else if Survives(h, n - 1) then Survivors(h, n - 1) + [h[n - 1].point]
    else Survivors(h, n - 1)
  }

  /** What the source does to a series, event by event. */
  function Step(s: Series, e: Event): Series {
    match e
    case SetPolicy(policy) => s.(retention := Some(policy))
    case Add(p) =>
      var sorted := SortByTime(s.points + [p]);
      s.(points := if s.retention == None then sorted else Within(sorted, Cutoff(p.timestamp, s.retention), None))
  }

  lemma {:induction false} PolicyAfterPrefix(h: seq<Event>, e: Event, n: nat)
    requires n <= |h|
    ensures PolicyAfter(h + [e], n) == PolicyAfter(h, n)
  {
    if n > 0 {
      PolicyAfterPrefix(h, e, n - 1);
    }
  }

  lemma OutlivesPrefix(h: seq<Event>, e: Event, i: nat, j: nat)
    requires i < |h| && j < |h| && h[i].Add?
    ensures Outlives(h + [e], i, j) <==> Outlives(h, i, j)
  {
    PolicyAfterPrefix(h, e, j);
    if h[j].Add? {
      OutlivesByCutoff(h, i, j);
      OutlivesByCutoff(h + [e], i, j);
    }
  }

  /** The event `e`, when it comes after the history `h`, keeps the point. */
  ghost predicate Keeps(h: seq<Event>, e: Event, p: Point) {
    e.Add? ==> p.timestamp >= Cutoff(e.point.timestamp, PolicyAfter(h, |h|))
  }

  lemma OutlivesLast(h: seq<Event>, e: Event, i: nat)
    requires i < |h| && h[i].Add?
    ensures Outlives(h + [e], i, |h|) <==> Keeps(h, e, h[i].point)
  {
    PolicyAfterPrefix(h, e, |h|);
    if e.Add? { OutlivesByCutoff(h + [e], i, |h|); }
  }

  /** Without a policy every point stays. */
  lemma NoPolicyKeepsAll(h: seq<Event>, i: nat)
    requires i < |h| && forall k :: 0 <= k < |h| ==> !h[k].SetPolicy?
    ensures Survives(h, i)
  {
  }

  lemma SurvivesNext(h: seq<Event>, e: Event, i: nat)
    requires i < |h|
    ensures Survives(h + [e], i) <==> Survives(h, i) && Keeps(h, e, h[i].point)
  {
    var h' := h + [e];
    assert h'[i] == h[i];
    if h[i].Add? {
      OutlivesLast(h, e, i);
      forall j: nat | i <= j < |h|
        ensures Outlives(h', i, j) <==> Outlives(h, i, j)
      {
        OutlivesPrefix(h, e, i, j);
      }
    }
  }

  /** The time from which the event `e` keeps points. */
  ghost function KeptFrom(h: seq<Event>, e: Event): nat {
    if e.Add? then Cutoff(e.point.timestamp, PolicyAfter(h, |h|)) else 0
  }

  /** Each further add thins the survivors out by its cutoff. */
  lemma {:induction false} SurvivorsNext(h: seq<Event>, e: Event, n: nat)
    requires n <= |h|
    ensures Survivors(h + [e], n) == Within(Survivors(h, n), KeptFrom(h, e), None)
  {
    if n > 0 {
      SurvivorsNext(h, e, n - 1);
      SurvivesNext(h, e, n - 1);
      assert (h + [e])[n - 1] == h[n - 1];
      if Survives(h, n - 1) {
        WithinSnoc(Survivors(h, n - 1), h[n - 1].point, KeptFrom(h, e), None);
      }
    }
  }

  /** One of the first `n` events added the point, and it survives. */
  ghost predicate Surviving(h: seq<Event>, n: nat, p: Point)
    requires n <= |h|
  {
    exists i: nat :: i < n && Survives(h, i) && h[i].point == p
  }

  lemma {:induction false} SurvivorsMembers(h: seq<Event>, n: nat, p: Point)
    requires n <= |h|
    ensures p in Survivors(h, n) <==> Surviving(h, n, p)
  {
    if n > 0 {
      SurvivorsMembers(h, n - 1, p);
      if Survives(h, n - 1) && h[n - 1].point == p {
        assert Surviving(h, n, p);
      } else if Surviving(h, n, p) {
        var i: nat :| i < n && Survives(h, i) && h[i].point == p;
        assert i < n - 1;
      }
    }
  }

  lemma {:induction false} SurvivingPoint(h: seq<Event>, start: nat, end: nat, p: Point)
    ensures p in SortByTime(Within(Survivors(h, |h|), start, Some(end)))
            <==> start <= p.timestamp <= end && Surviving(h, |h|, p)
  {
    var s := Within(Survivors(h, |h|), start, Some(end));
    SurvivorsMembers(h, |h|, p);
    WithinMembers(Survivors(h, |h|), start, Some(end));
    SortedOrder(s);
    assert p in SortByTime(s) <==> p in multiset(SortByTime(s));
  }

  /** What a series holds after a history: the surviving points in stable timestamp order. */
  ghost predicate Reflects(s: Series, h: seq<Event>) {
    s.points == SortByTime(Survivors(h, |h|)) && s.retention == PolicyAfter(h, |h|)
  }

  lemma {:induction false} SortSorted(s: seq<Point>, p: Point)
    ensures SortByTime(SortByTime(s) + [p]) == SortByTime(s + [p])
  {
    var t := SortByTime(s);
    assert (t + [p])[..|t|] == t && (s + [p])[..|s|] == s;
    SortedOrder(s);
    OrderedIsSorted(t);
  }

  lemma {:induction false} OrderedIsSorted(s: seq<Point>)
    requires InTimeOrder(s)
    ensures SortByTime(s) == s
  {
    if s != [] {
      var front, last := s[..|s| - 1], s[|s| - 1];
      OrderedIsSorted(front);
      assert Placed(front, last) == front + [last] by {
        if front != [] { assert front[|front| - 1] == s[|s| - 2]; }
      }
      assert s == front + [last];
    }
  }

  lemma {:induction false} AllWithin(s: seq<Point>)
    ensures Within(s, 0, None) == s
  {
    if s != [] {
      AllWithin(s[..|s| - 1]);
      assert s == s[..|s| - 1] + [s[|s| - 1]];
    }
  }

  lemma CutoffNotAfter(now: nat, policy: Option<Policy>)
    ensures Cutoff(now, policy) <= now
  {
  }

  /** An add survives itself; a policy change adds no point. */
  lemma LastSurvives(h: seq<Event>, e: Event)
    ensures Survives(h + [e], |h|) <==> e.Add?
  {
    var h' := h + [e];
    assert h'[|h|] == e;
    if e.Add? {
      CutoffNotAfter(e.point.timestamp, PolicyAfter(h', |h|));
      OutlivesByCutoff(h', |h|, |h|);
    }
  }

  lemma AddStep(s: Series, p: Point)
    ensures Step(s, Add(p)) == Series(Within(SortByTime(s.points + [p]), Cutoff(p.timestamp, s.retention), None), s.retention)
  {
    if s.retention == None {
      AllWithin(SortByTime(s.points + [p]));
    }
  }

  lemma {:induction false} AddSurvivors(h: seq<Event>, p: Point)
    ensures Survivors(h + [Add(p)], |h| + 1)
         == Within(Survivors(h, |h|) + [p], Cutoff(p.timestamp, PolicyAfter(h, |h|)), None)
  {
    LastSurvives(h, Add(p));
    SurvivorsNext(h, Add(p), |h|);
    CutoffNotAfter(p.timestamp, PolicyAfter(h, |h|));
    WithinSnoc(Survivors(h, |h|), p, Cutoff(p.timestamp, PolicyAfter(h, |h|)), None);
  }

  lemma AddReflects(s: Series, h: seq<Event>, p: Point)
    requires Reflects(s, h)
    ensures Reflects(Step(s, Add(p)), h + [Add(p)])
  {
    var survivors := Survivors(h, |h|);
    AddStep(s, p);
    AddSurvivors(h, p);
    SortSorted(survivors, p);
    SortWithin(survivors + [p], Cutoff(p.timestamp, s.retention), None);
    PolicyAfterPrefix(h, Add(p), |h|);
  }

  lemma PolicyReflects(s: Series, h: seq<Event>, policy: Policy)
    requires Reflects(s, h)
    ensures Reflects(Step(s, SetPolicy(policy)), h + [SetPolicy(policy)])
  {
    LastSurvives(h, SetPolicy(policy));
    SurvivorsNext(h, SetPolicy(policy), |h|);
    AllWithin(Survivors(h, |h|));
  }

  lemma StepReflects(s: Series, h: seq<Event>, e: Event)
    requires Reflects(s, h)
    ensures Reflects(Step(s, e), h + [e])
  {
    match e {
      case Add(p) => AddReflects(s, h, p);
      case SetPolicy(policy) => PolicyReflects(s, h, policy);
    }
  }

  // ---- Queries ----

  datatype Aggregation = Sum | Avg | Min | Max | Count | Last

  /** Folds over no values start at an infinity. */
  datatype Number = NegInfinity | Finite(r: real) | Infinity

  function Smaller(a: Number, b: real): Number {
    if a == Infinity || (a.Finite? && b < a.r) then Finite(b) else a
  }

  function Larger(a: Number, b: real): Number {
    if a == NegInfinity || (a.Finite? && b > a.r) then Finite(b) else a
  }

  function Total(s: seq<Point>): real {
    if s == [] then 0.0 else Total(s[..|s| - 1]) + s[|s| - 1].value
  }

  function Least(s: seq<Point>): Number {
    if s == [] then Infinity else Smaller(Least(s[..|s| - 1]), s[|s| - 1].value)
  }

  function Greatest(s: seq<Point>): Number {
    if s == [] then NegInfinity else Larger(Greatest(s[..|s| - 1]), s[|s| - 1].value)
  }

  function Aggregated(s: seq<Point>, a: Aggregation): Number {
    match a
    case Sum => Finite(Total(s))
    case Avg => Finite(if s == [] then 0.0 else Total(s) / |s| as real)
    case Min => Least(s)
    case Max => Greatest(s)
    case Count => Finite(|s| as real)
    case Last => Finite(if s == [] then 0.0 else s[|s| - 1].value)
  }

  lemma {:induction false} TotalConcat(a: seq<Point>, b: seq<Point>)
    ensures Total(a + b) == Total(a) + Total(b)
  {
    if b == [] {
      assert a + b == a;
    } else {
      assert (a + b)[..|a + b| - 1] == a + b[..|b| - 1];
      TotalConcat(a, b[..|b| - 1]);
    }
  }

  /** The sum adds up over parts of the points. */
  lemma SumOfParts(a: seq<Point>, b: seq<Point>, p: Point)
    ensures Aggregated([], Sum) == Finite(0.0) && Aggregated([p], Sum) == Finite(p.value)
    ensures Aggregated(a, Sum).Finite? && Aggregated(b, Sum).Finite?
    ensures Aggregated(a + b, Sum) == Finite(Aggregated(a, Sum).r + Aggregated(b, Sum).r)
  {
    TotalConcat(a, b);
    assert Total([p]) == Total([p][..0]) + p.value;
  }

  lemma Division(x: real, n: real)
    requires n > 0.0
    ensures x / n * n == x
  {
  }

  /** The average spread over all points is their sum. */
  lemma MeanOfAll(s: seq<Point>)
    ensures Aggregated([], Avg) == Finite(0.0) && Aggregated(s, Avg).Finite?
    ensures s != [] ==> Finite(Aggregated(s, Avg).r * |s| as real) == Aggregated(s, Sum)
  {
    if s != [] { Division(Total(s), |s| as real); }
  }

  /** The other aggregates: without points the least is infinite, the greatest is negative infinity
      and the last is 0. */
  lemma OtherAggregates(s: seq<Point>)
    ensures Aggregated(s, Count) == Finite(|s| as real)
    ensures Aggregated(s, Last) == Finite(if s == [] then 0.0 else s[|s| - 1].value)
    ensures if s == [] then Aggregated(s, Min) == Infinity && Aggregated(s, Max) == NegInfinity
            else && Aggregated(s, Min).Finite? && (forall x :: x in s ==> Aggregated(s, Min).r <= x.value)
                 && Aggregated(s, Max).Finite? && (forall x :: x in s ==> Aggregated(s, Max).r >= x.value)
  {
    if s != [] {
      LeastIsMinimum(s);
      GreatestIsMaximum(s);
    }
  }

  lemma {:induction false} LeastIsMinimum(s: seq<Point>)
    requires s != []
    ensures Least(s).Finite? && (exists x :: x in s && x.value == Least(s).r) && forall x :: x in s ==> Least(s).r <= x.value
  {
    var front, last := s[..|s| - 1], s[|s| - 1];
    assert s == front + [last];
    assert last in s;
    if front != [] {
      LeastIsMinimum(front);
      var x :| x in front && x.value == Least(front).r;
      assert x in s;
    }
  }

  lemma {:induction false} GreatestIsMaximum(s: seq<Point>)
    requires s != []
    ensures Greatest(s).Finite? && (exists x :: x in s && x.value == Greatest(s).r) && forall x :: x in s ==> Greatest(s).r >= x.value
  {
    var front, last := s[..|s| - 1], s[|s| - 1];
    assert s == front + [last];
    assert last in s;
    if front != [] {
      GreatestIsMaximum(front);
      var x :| x in front && x.value == Greatest(front).r;
      assert x in s;
    }
  }

  /** The last of the sorted points is at the latest timestamp, and of those at that time it is the
      last added. */
  lemma LatestIsLast(s: seq<Point>)
    requires s != []
    ensures var q := SortByTime(s);
            && |q| == |s|
            && var last := q[|q| - 1];
               && (forall x :: x in s ==> x.timestamp <= last.timestamp)
               && var same := Within(s, last.timestamp, Some(last.timestamp));
                  same != [] && same[|same| - 1] == last
  {
    var q := SortByTime(s);
    SortedOrder(s);
    assert |multiset(q)| == |q| && |multiset(s)| == |s|;
    forall x | x in s
      ensures x.timestamp <= q[|q| - 1].timestamp
    {
      assert x in multiset(q);
      var i :| 0 <= i < |q| && q[i] == x;
    }
    SortIsStable(s, q[|q| - 1].timestamp);
  }

  class TimeSeriesDB {
    var series: map<string, Series>
    ghost var history: map<string, seq<Event>>

    ghost predicate Valid()
      reads this
    {
      && series.Keys == history.Keys
      && forall name :: name in series ==> Reflects(series[name], history[name])
    }

    constructor ()
      ensures Valid() && series == map[]
    {
      series, history := map[], map[];
    }

    method AddPoint(name: string, timestamp: nat, value: real, labels: map<string, string>)
      requires Valid()
      modifies this
      ensures Valid()
      ensures history == old(history)[name :=
                (if name in old(history) then old(history)[name] else []) + [Add(Point(timestamp, value, labels))]]
    {
      var point := Point(timestamp, value, labels);
      var s := if name in series then series[name] else Series([], None);
      ghost var h := if name in series then history[name] else [];
      StepReflects(s, h, Add(point));
      var points := SortByTime(s.points + [point]);
      points := Retained(points, timestamp, s.retention);
      series := series[name := s.(points := points)];
      history := history[name := h + [Add(point)]];
    }

    /** What the policy leaves of the points when one is added at `now`. */
    method Retained(points: seq<Point>, now: nat, retention: Option<Policy>) returns (kept: seq<Point>)
      ensures kept == if retention == None then points else Within(points, Cutoff(now, retention), None)
    {
      kept := points;
      if retention.Some? {
        var age := retention.value.maxAgeSecs * 1000;
        var cutoff := if now < age then 0 else now - age;
        kept := Within(kept, cutoff, None);
      }
    }

    method SetRetention(name: string, policy: Policy) returns (ok: bool)
      requires Valid()
      modifies this
      ensures Valid() && ok == (name in old(series))
      ensures history == if ok then old(history)[name := old(history)[name] + [SetPolicy(policy)]] else old(history)
    {
      if name !in series {
        return false;
      }
      StepReflects(series[name], history[name], SetPolicy(policy));
      series := series[name := series[name].(retention := Some(policy))];
      history := history[name := history[name] + [SetPolicy(policy)]];
      return true;
    }

    /** The points in [start, end] of what survives of the series, in stable timestamp order, and
        one number made of their values; None for an unknown series. */
    method Query(name: string, start: nat, end: nat, aggregation: Aggregation)
      returns (r: Option<(seq<Point>, Number)>)
      requires Valid()
      ensures r == None <==> name !in series
      ensures r.Some? ==> var h := history[name];
                && r.value.0 == SortByTime(Within(Survivors(h, |h|), start, Some(end)))
                && forall p :: p in r.value.0 <==> start <= p.timestamp <= end && Surviving(h, |h|, p)
      ensures r.Some? ==> r.value.1 == Aggregated(r.value.0, aggregation)
    {
      if name !in series {
        return None;
      }
      var points := Within(series[name].points, start, Some(end));
      ghost var h := history[name];
      SortWithin(Survivors(h, |h|), start, Some(end));
      forall p
        ensures p in points <==> start <= p.timestamp <= end && Surviving(h, |h|, p)
      {
        SurvivingPoint(h, start, end, p);
      }
      return Some((points, Aggregated(points, aggregation)));
    }
  }
}
