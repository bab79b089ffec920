/**
 What the B-tree with every line as written, on node records, comes down to: at most two leaves, and
 which puts lose one.
 */
module ShippedView {
  import opened Basics
  import opened Keys
  import opened BTreeModel

  /** What the reachable part of the pages holds: one leaf, or two leaves under one separator. */
  datatype View = View(inner: bool, sep: Key, lower: map<Key, Value>, upper: map<Key, Value>)

  ghost function Contents(v: View): map<Key, Value> {
    v.lower + v.upper
  }

  ghost predicate GoesUp(v: View, key: Key) {
    v.inner && v.sep <= key
  }

  ghost function Target(v: View, key: Key): map<Key, Value> {
    if GoesUp(v, key) then v.upper else v.lower
  }

  ghost function Beside(v: View, key: Key): map<Key, Value> {
    if GoesUp(v, key) then v.lower else v.upper
  }

  ghost predicate Splits(v: View, key: Key) {
    key !in Target(v, key) && |Target(v, key)| == ORDER - 1
  }

  /** The put splits a leaf that has a non-empty leaf beside it. */
  ghost predicate Loses(v: View, key: Key) {
    Splits(v, key) && Beside(v, key) != map[]
  }

  ghost predicate ViewOk(v: View) {
    && (!v.inner ==> v.upper == map[])
    && (v.inner ==> forall k :: k in v.lower ==> k < v.sep)
    && (forall k :: k in v.upper ==> v.sep <= k)
    && |v.lower| < ORDER && |v.upper| < ORDER
  }

  ghost predicate PutStep(v: View, key: Key, value: Value, v': View) {
    var m := Target(v, key)[key := value];
    if !Splits(v, key) then
      v' == if GoesUp(v, key) then v.(upper := m) else v.(lower := m)
    else
      && v'.inner
      && v'.lower == Below(m, v'.sep) && v'.upper == From(m, v'.sep)
      && |v'.lower| == ORDER / 2 && |v'.upper| == ORDER - ORDER / 2
  }

  ghost function Below(m: map<Key, Value>, sep: Key): map<Key, Value> {
    map k | k in m && k < sep :: m[k]
  }

  ghost function From(m: map<Key, Value>, sep: Key): map<Key, Value> {
    map k | k in m && sep <= k :: m[k]
  }

  lemma UpdateRight(a: map<Key, Value>, b: map<Key, Value>, key: Key, value: Value)
    ensures (a + b)[key := value] == a + b[key := value]
  {
  }

  lemma UpdateLeft(a: map<Key, Value>, b: map<Key, Value>, key: Key, value: Value)
    requires key !in b
    ensures (a + b)[key := value] == a[key := value] + b
  {
  }

  lemma UpdateSize(m: map<Key, Value>, key: Key, value: Value)
    ensures |m[key := value]| == if key in m then |m| else |m| + 1
  {
  }

  lemma PlainPut(v: View, key: Key, value: Value, v': View)
    requires ViewOk(v) && PutStep(v, key, value, v') && !Splits(v, key)
    ensures ViewOk(v') && Contents(v') == Contents(v)[key := value]
  {
    UpdateSize(Target(v, key), key, value);
    if GoesUp(v, key) {
      UpdateRight(v.lower, v.upper, key, value);
    } else {
      UpdateLeft(v.lower, v.upper, key, value);
    }
  }

  lemma SplittingPut(v: View, key: Key, value: Value, v': View)
    requires ViewOk(v) && PutStep(v, key, value, v') && Splits(v, key)
    ensures ViewOk(v') && Contents(v') == Target(v, key)[key := value]
  {
    var m := Target(v, key)[key := value];
    assert Below(m, v'.sep) + From(m, v'.sep) == m;
  }

  lemma BesideIsLost(v: View, key: Key, value: Value)
    requires ViewOk(v) && Beside(v, key) != map[]
    ensures Contents(v)[key := value] != Target(v, key)[key := value]
  {
    var k :| k in Beside(v, key);
    assert v.inner && k !in Target(v, key) && k != key;
    assert k in Contents(v)[key := value] && k !in Target(v, key)[key := value];
  }

  lemma NothingBeside(v: View, key: Key)
    requires ViewOk(v) && Beside(v, key) == map[]
    ensures Contents(v) == Target(v, key)
  {
  }

  /** What a put leaves in the tree. */
  ghost function AfterPut(v: View, key: Key, value: Value): map<Key, Value> {
    if Loses(v, key) then Target(v, key)[key := value] else Contents(v)[key := value]
  }

  lemma PutOutcome(v: View, key: Key, value: Value, v': View)
    requires ViewOk(v) && PutStep(v, key, value, v')
    ensures ViewOk(v') && Contents(v') == AfterPut(v, key, value)
  {
    if !Splits(v, key) {
      PlainPut(v, key, value, v');
    } else {
      SplittingPut(v, key, value, v');
      if Beside(v, key) == map[] {
        NothingBeside(v, key);
      }
    }
  }

  /** A put does what a map update does exactly when it does not split a leaf beside a non-empty one. */
  lemma PutExactly(v: View, key: Key, value: Value)
    requires ViewOk(v)
    ensures AfterPut(v, key, value) == Contents(v)[key := value] <==> !Loses(v, key)
  {
    if Loses(v, key) {
      BesideIsLost(v, key, value);
    }
  }

  /** However many keys are put, the tree never holds more than two leaves full. */
  lemma Capacity(v: View)
    requires ViewOk(v)
    ensures |Contents(v)| <= 2 * (ORDER - 1)
  {
    assert Contents(v).Keys == v.lower.Keys + v.upper.Keys;
    assert |v.lower.Keys + v.upper.Keys| <= |v.lower.Keys| + |v.upper.Keys|;
  }

  // ---- A run that loses keys ----

  ghost predicate Spans(m: map<Key, Value>, a: int, b: int) {
    forall k: Key :: k in m <==> a <= k < b
  }

  lemma {:induction false} SpanSize(m: map<Key, Value>, a: nat, b: nat)
    requires a <= b <= KEY_LIMIT && Spans(m, a, b)
    ensures |m| == b - a
    decreases b - a
  {
    if a < b {
      var last: Key := b - 1;
      var front := m - {last};
      SpanSize(front, a, b - 1);
      assert m == front[last := m[last]];
    } else {
      assert m == map[];
    }
  }

  /** The keys 0, 1, 2, ... put in turn into an empty tree. */
  ghost predicate Ascending(run: seq<View>) {
    && 1 <= |run| <= 97
    && run[0] == View(false, 0, map[], map[])
    && forall i: nat :: i < |run| - 1 ==> PutStep(run[i], i, Blank(), run[i + 1])
  }

  lemma {:induction false} OneLeafYet(run: seq<View>, n: nat)
    requires Ascending(run) && n < ORDER && n < |run|
    ensures !run[n].inner && Spans(run[n].lower, 0, n) && run[n].upper == map[]
  {
    if n > 0 {
      OneLeafYet(run, n - 1);
      SpanSize(run[n - 1].lower, 0, n - 1);
      assert PutStep(run[n - 1], n - 1, Blank(), run[n]);
    }
  }

  lemma FirstSplit(v: View, last: Key, v': View)
    requires !v.inner && v.upper == map[] && Spans(v.lower, 0, last) && last == ORDER - 1
    requires PutStep(v, last, Blank(), v')
    ensures v'.inner && v'.sep == 32 && Spans(v'.lower, 0, 32) && Spans(v'.upper, 32, ORDER)
  {
    SpanSize(v.lower, 0, last);
    var m := v.lower[last := Blank()];
    assert Spans(m, 0, ORDER);
    assert Spans(v'.lower, 0, Min(v'.sep, ORDER));
    SpanSize(v'.lower, 0, Min(v'.sep, ORDER));
  }

  lemma {:induction false} TwoLeavesYet(run: seq<View>, n: nat)
    requires Ascending(run) && ORDER <= n <= 95 && n < |run|
    ensures var v := run[n]; v.inner && v.sep == 32 && Spans(v.lower, 0, 32) && Spans(v.upper, 32, n)
  {
    assert PutStep(run[n - 1], n - 1, Blank(), run[n]);
    if n == ORDER {
      OneLeafYet(run, n - 1);
      FirstSplit(run[n - 1], n - 1, run[n]);
    } else {
      TwoLeavesYet(run, n - 1);
      SpanSize(run[n - 1].upper, 32, n - 1);
    }
  }

  /** Putting 0, 1, ..., 95 leaves a tree without key 0, which was there one put earlier. */
  lemma AscendingLosesKeys(run: seq<View>)
    requires Ascending(run) && |run| == 97
    ensures 0 in Contents(run[95]) && 0 !in Contents(run[96])
  {
    TwoLeavesYet(run, 95);
    SpanSize(run[95].upper, 32, 95);
    assert PutStep(run[95], 95, Blank(), run[96]);
  }

  lemma OneMorePut(run: seq<View>, v: View)
    requires Ascending(run) && |run| < 97 && PutStep(run[|run| - 1], |run| - 1, Blank(), v)
    ensures Ascending(run + [v])
  {
  }
}
