/** What the descents, the scan and the count of the B-tree rely on, and what the tree's shape is good for. */
module BTreeReads {
  import opened Keys
  import opened Slots
  import opened BTreeModel
  import opened BTreeLemmas

  // ---- Separators ----

  ghost predicate IsSeparator(s: State, key: Key) {
    exists id :: id in s.pages && s.pages[id].Inner? && key in s.pages[id].keys
  }

  ghost predicate NoSeparatorAbove(s: State, key: Key, level: nat)
    requires s.pages.Keys == s.info.Keys
  {
    forall id :: id in s.pages && s.pages[id].Inner? && s.info[id].level > level ==> key !in s.pages[id].keys
  }

  /** One step of the descent that goes left on equality, from page `id` to its child number `i`. */
  lemma StepDown(s: State, id: PageId, i: nat, key: Key)
    requires Whole(s) && id in s.pages && s.pages[id].Inner? && i < |s.pages[id].kids| == |s.pages[id].keys| + 1
    requires (s.info[id].lo <= key < s.info[id].hi && NoSeparatorAbove(s, key, s.info[id].level))
             || (key == s.info[id].hi && IsSeparator(s, key))
    requires forall j :: 0 <= j < i ==> s.pages[id].keys[j] < key
    requires i < |s.pages[id].keys| ==> key <= s.pages[id].keys[i]
    ensures var c := s.pages[id].kids[i];
            && c in s.pages && s.info[c].level < s.info[id].level
            && ((s.info[c].lo <= key < s.info[c].hi && NoSeparatorAbove(s, key, s.info[c].level))
                || (key == s.info[c].hi && IsSeparator(s, key)))
  {
    var n, b, c := s.pages[id], s.info[id], s.pages[id].kids[i];
    assert NodeOk(s, 0, NoHole, id);
    assert KidOk(s, NoHole, id, i);
    if key < s.info[c].hi {
      forall j | 0 <= j < |n.keys|
        ensures n.keys[j] != key
      {
        if i < j { assert n.keys[i] < n.keys[j]; }
      }
      forall x | x in s.pages && s.pages[x].Inner? && s.info[x].level > s.info[c].level
        ensures key !in s.pages[x].keys
      {
        if s.info[x].level == b.level && key in s.pages[x].keys {
          assert NodeOk(s, 0, NoHole, x);
          UniqueRange(s, 0, x, id, key);
        }
      }
    }
  }

  lemma NothingAboveRoot(s: State, key: Key)
    requires Whole(s)
    ensures NoSeparatorAbove(s, key, s.info[s.root].level)
  {
    forall id | id in s.pages && s.pages[id].Inner?
      ensures s.info[id].level <= s.info[s.root].level
    {
      assert NodeOk(s, 0, NoHole, id);
    }
  }

  lemma EverythingAboveLeaves(s: State, key: Key)
    requires Whole(s) && NoSeparatorAbove(s, key, 0)
    ensures !IsSeparator(s, key)
  {
    forall id | id in s.pages && s.pages[id].Inner?
      ensures s.info[id].level > 0
    {
      assert NodeOk(s, 0, NoHole, id);
    }
  }

  // ---- Range listings ----

  /** `out` lists exactly the bindings of `m` with lo <= key < hi and start <= key <= end, each
      once and in increasing key order. */
  ghost predicate Listing(out: seq<(Key, Value)>, m: map<Key, Value>, lo: int, hi: int, start: int, end: int) {
    && (forall i, j :: 0 <= i < j < |out| ==> out[i].0 < out[j].0)
    && (forall i :: 0 <= i < |out| ==> out[i].0 in m && m[out[i].0] == out[i].1
                                       && lo <= out[i].0 < hi && start <= out[i].0 <= end)
    && (forall k :: k in m && lo <= k < hi && start <= k <= end ==> (k, m[k]) in out)
  }

  lemma ListingJoin(p: seq<(Key, Value)>, q: seq<(Key, Value)>, m: map<Key, Value>, lo: int, x: int, hi: int,
                    start: int, end: int)
    requires lo <= x <= hi && Listing(p, m, lo, x, start, end) && Listing(q, m, x, hi, start, end)
    ensures Listing(p + q, m, lo, hi, start, end)
  {
  }

  lemma ListingSkip(p: seq<(Key, Value)>, m: map<Key, Value>, lo: int, x: int, hi: int, start: int, end: int)
    requires lo <= x <= hi <= start && Listing(p, m, lo, x, start, end)
    ensures Listing(p, m, lo, hi, start, end)
  {
  }

  function Pick(node: Node, i: nat, start: int, end: int): seq<(Key, Value)>
    requires node.Leaf? && i < |node.keys| == |node.vals|
  {
    if node.keys[i] >= start && node.keys[i] <= end then [(node.keys[i], node.vals[i])] else []
  }

  /** The first `n` slots of a leaf that lie between `start` and `end`. */
  function Picked(node: Node, n: nat, start: int, end: int): seq<(Key, Value)>
    requires node.Leaf? && n <= |node.keys| == |node.vals|
  {
    if n == 0 then [] else Picked(node, n - 1, start, end) + Pick(node, n - 1, start, end)
  }

  lemma {:induction false} PickedListing(s: State, id: PageId, n: nat, start: int, end: int)
    requires Whole(s) && id in s.pages && s.pages[id].Leaf? && n <= |s.pages[id].keys| == |s.pages[id].vals|
    ensures Listing(Picked(s.pages[id], n, start, end), s.contents, s.info[id].lo, HiAt(s.pages[id], s.info[id], n), start, end)
  {
    if n == 0 {
      NoSlot(s, id, start, end);
    } else {
      PickedListing(s, id, n - 1, start, end);
      OneSlot(s, id, n - 1, start, end);
      var node, b := s.pages[id], s.info[id];
      ListingJoin(Picked(node, n - 1, start, end), Pick(node, n - 1, start, end),
                  s.contents, b.lo, node.keys[n - 1], HiAt(node, b, n), start, end);
    }
  }

  lemma NoSlot(s: State, id: PageId, start: int, end: int)
    requires Whole(s) && id in s.pages && s.pages[id].Leaf?
    ensures Listing([], s.contents, s.info[id].lo, HiAt(s.pages[id], s.info[id], 0), start, end)
  {
    var node, b := s.pages[id], s.info[id];
    assert NodeOk(s, 0, NoHole, id);
    forall k | k in s.contents && b.lo <= k < b.hi
      ensures HiAt(node, b, 0) <= k
    {
      var j :| 0 <= j < |node.keys| && node.keys[j] == k;
    }
  }

  /** Between one key of a leaf and the next nothing else is stored. */
  lemma OneSlot(s: State, id: PageId, i: nat, start: int, end: int)
    requires Whole(s) && id in s.pages && s.pages[id].Leaf? && i < |s.pages[id].keys| == |s.pages[id].vals|
    ensures Listing(Pick(s.pages[id], i, start, end), s.contents,
                    s.pages[id].keys[i], HiAt(s.pages[id], s.info[id], i + 1), start, end)
    ensures s.info[id].lo <= s.pages[id].keys[i] <= HiAt(s.pages[id], s.info[id], i + 1)
  {
    var node := s.pages[id];
    assert NodeOk(s, 0, NoHole, id);
    forall k | k in s.contents && node.keys[i] <= k < HiAt(node, s.info[id], i + 1)
      ensures k == node.keys[i]
    {
      var j :| 0 <= j < |node.keys| && node.keys[j] == k;
    }
  }

  /** The interval's end after the first `i` children of a page. */
  ghost function Reached(n: Node, b: Info, i: nat): int
    requires i <= |n.keys| + 1
  {
    if i == |n.keys| + 1 then b.hi else LoAt(n, b, i)
  }

  /** What a scan gathers below page `id`, and below its first `i` children. */
  ghost function Gathered(s: State, id: PageId, start: int, end: int): seq<(Key, Value)>
    requires Whole(s) && id in s.pages
    decreases s.info[id].level, |s.pages[id].keys| + 2
  {
    var n := s.pages[id];
    assert NodeOk(s, 0, NoHole, id);
    if n.Leaf? then Picked(n, |n.keys|, start, end) else GatheredKids(s, id, |n.keys| + 1, start, end)
  }

  ghost function GatheredKids(s: State, id: PageId, i: nat, start: int, end: int): seq<(Key, Value)>
    requires Whole(s) && id in s.pages && s.pages[id].Inner? && i <= |s.pages[id].keys| + 1
    decreases s.info[id].level, i
  {
    if i == 0 then []
    else
      var n := s.pages[id];
      assert NodeOk(s, 0, NoHole, id);
      assert KidOk(s, NoHole, id, i - 1);
      GatheredKids(s, id, i - 1, start, end)
      + if i <= |n.keys| && start >= n.keys[i - 1] then [] else Gathered(s, n.kids[i - 1], start, end)
  }

  /** A scan returns exactly the bindings in its range, once each and in key order, although it
      skips the children left of `start`. */
  lemma {:induction false} GatheredListing(s: State, id: PageId, start: int, end: int)
    requires Whole(s) && id in s.pages
    ensures Listing(Gathered(s, id, start, end), s.contents, s.info[id].lo, s.info[id].hi, start, end)
    decreases s.info[id].level, |s.pages[id].keys| + 2
  {
    var n := s.pages[id];
    assert NodeOk(s, 0, NoHole, id);
    if n.Leaf? {
      PickedListing(s, id, |n.keys|, start, end);
    } else {
      GatheredKidsListing(s, id, |n.keys| + 1, start, end);
    }
  }

  lemma {:induction false} GatheredKidsListing(s: State, id: PageId, i: nat, start: int, end: int)
    requires Whole(s) && id in s.pages && s.pages[id].Inner? && i <= |s.pages[id].keys| + 1
    ensures Listing(GatheredKids(s, id, i, start, end), s.contents, s.info[id].lo, Reached(s.pages[id], s.info[id], i), start, end)
    decreases s.info[id].level, i
  {
    if i > 0 {
      var n, b := s.pages[id], s.info[id];
      KidBounds(s, id, i - 1);
      GatheredKidsListing(s, id, i - 1, start, end);
      var front := GatheredKids(s, id, i - 1, start, end);
      var x, hi := Reached(n, b, i - 1), Reached(n, b, i);
      if i <= |n.keys| && start >= n.keys[i - 1] {
        ListingSkip(front, s.contents, b.lo, x, hi, start, end);
      } else {
        var c := n.kids[i - 1];
        GatheredListing(s, c, start, end);
        ListingJoin(front, Gathered(s, c, start, end), s.contents, b.lo, x, hi, start, end);
      }
    }
  }

  lemma KidBounds(s: State, id: PageId, i: nat)
    requires Whole(s) && id in s.pages && s.pages[id].Inner? && i <= |s.pages[id].keys|
    ensures var n, b := s.pages[id], s.info[id];
            && |n.kids| == |n.keys| + 1
            && n.kids[i] in s.pages
            && s.info[n.kids[i]].level + 1 == b.level
            && s.info[n.kids[i]].lo == Reached(n, b, i) && s.info[n.kids[i]].hi == Reached(n, b, i + 1)
            && b.lo <= Reached(n, b, i) < Reached(n, b, i + 1)
  {
    assert NodeOk(s, 0, NoHole, id);
    assert KidOk(s, NoHole, id, i);
  }

  // ---- Counting ----

  function InRange(m: map<Key, Value>, lo: int, hi: int): set<Key> {
    set k | k in m && lo <= k < hi
  }

  lemma RangeSplit(m: map<Key, Value>, lo: int, x: int, hi: int)
    requires lo <= x <= hi
    ensures |InRange(m, lo, hi)| == |InRange(m, lo, x)| + |InRange(m, x, hi)|
  {
    assert InRange(m, lo, hi) == InRange(m, lo, x) + InRange(m, x, hi);
  }

  function KeySet(keys: seq<Key>): set<Key> {
    set k | k in keys
  }

  lemma {:induction false} SortedSize(keys: seq<Key>)
    requires Sorted(keys)
    ensures |KeySet(keys)| == |keys|
  {
    if keys != [] {
      var front, last := keys[..|keys| - 1], keys[|keys| - 1];
      SortedSize(front);
      assert keys == front + [last];
      assert KeySet(keys) == KeySet(front) + {last};
      assert last !in KeySet(front);
    }
  }

  lemma LeafSize(s: State, id: PageId)
    requires Whole(s) && id in s.pages && s.pages[id].Leaf?
    ensures |InRange(s.contents, s.info[id].lo, s.info[id].hi)| == |s.pages[id].keys|
  {
    assert NodeOk(s, 0, NoHole, id);
    SortedSize(s.pages[id].keys);
    assert InRange(s.contents, s.info[id].lo, s.info[id].hi) == KeySet(s.pages[id].keys);
  }
}
