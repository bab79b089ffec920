/** What the shape invariant says about the tree as a whole. */
module BTreeShape {
  import opened Basics
  import opened Keys
  import opened Slots
  import opened BTreeModel
  import opened BTreeLemmas
  import opened BTreeReads

  const LAST_KEY: Key := KEY_LIMIT - 1

  // ---- The leaves hold the map ----

  ghost predicate Stored(s: State, id: PageId, key: Key, value: Value) {
    && id in s.pages && s.pages[id].Leaf? && |s.pages[id].vals| == |s.pages[id].keys|
    && exists i :: 0 <= i < |s.pages[id].keys| && s.pages[id].keys[i] == key && s.pages[id].vals[i] == value
  }

  /** The leaf that a key is routed to from page `id`. */
  lemma {:induction false} RoutedLeaf(s: State, id: PageId, key: Key) returns (leaf: PageId)
    requires Whole(s) && id in s.pages && s.info[id].lo <= key < s.info[id].hi
    ensures leaf in s.pages && s.pages[leaf].Leaf? && s.info[leaf].lo <= key < s.info[leaf].hi
    decreases s.info[id].level
  {
    var n := s.pages[id];
    assert NodeOk(s, 0, NoHole, id);
    if n.Leaf? {
      leaf := id;
    } else {
      var i := 0;
      while i < |n.keys| && n.keys[i] <= key
        invariant i <= |n.keys| && Reached(n, s.info[id], i) <= key
      {
        i := i + 1;
      }
      KidBounds(s, id, i);
      leaf := RoutedLeaf(s, n.kids[i], key);
    }
  }

  /** The tree stands for exactly the bindings in its leaves. */
  lemma ContentsAreTheLeaves(s: State, key: Key, value: Value)
    requires Whole(s)
    ensures key in s.contents && s.contents[key] == value <==> exists id :: Stored(s, id, key, value)
  {
    if key in s.contents && s.contents[key] == value {
      var leaf := RoutedLeaf(s, s.root, key);
      assert NodeOk(s, 0, NoHole, leaf);
      var i :| 0 <= i < |s.pages[leaf].keys| && s.pages[leaf].keys[i] == key;
      assert Stored(s, leaf, key, value);
    }
    if id :| Stored(s, id, key, value) {
      assert NodeOk(s, 0, NoHole, id);
    }
  }

  /** No key is stored twice. */
  lemma StoredOnce(s: State, a: PageId, b: PageId, key: Key, v: Value, w: Value)
    requires Whole(s) && Stored(s, a, key, v) && Stored(s, b, key, w)
    ensures a == b && v == w
  {
    assert NodeOk(s, 0, NoHole, a) && NodeOk(s, 0, NoHole, b);
    UniqueRange(s, 0, a, b, key);
  }

  /** No page is the child of two pages, nor twice of one. */
  lemma OneParent(s: State, p: PageId, i: nat, q: PageId, j: nat)
    requires Whole(s) && p in s.pages && q in s.pages && s.pages[p].Inner? && s.pages[q].Inner?
    requires i < |s.pages[p].kids| && j < |s.pages[q].kids| && s.pages[p].kids[i] == s.pages[q].kids[j]
    ensures p == q && i == j
  {
    assert NodeOk(s, 0, NoHole, p) && NodeOk(s, 0, NoHole, q);
    assert KidOk(s, NoHole, p, i) && KidOk(s, NoHole, q, j);
    if i < j { KidsDistinct(s, 0, NoHole, p, i, j); }
    if j < i { KidsDistinct(s, 0, NoHole, p, j, i); }
  }

  // ---- The chain of leaves ----

  lemma {:induction false} NonEmptyInterval(s: State, id: PageId)
    requires Whole(s) && id in s.pages
    ensures 0 <= s.info[id].lo < s.info[id].hi <= KEY_LIMIT
    decreases s.info[s.root].level - s.info[id].level
  {
    assert NodeOk(s, 0, NoHole, id);
    if id != s.root {
      BelowRoot(s, 0, id);
      var p := s.pages[id].parent;
      NonEmptyInterval(s, p);
      var i :| 0 <= i < |s.pages[p].kids| && s.pages[p].kids[i] == id;
      assert NodeOk(s, 0, NoHole, p);
      assert KidOk(s, NoHole, p, i);
    }
  }

  /** All slots of a leaf and of the leaves after it, following `next_leaf`. */
  ghost function Chain(s: State, id: PageId): seq<(Key, Value)>
    requires Whole(s) && id in s.pages && s.pages[id].Leaf?
    decreases KEY_LIMIT - s.info[id].lo
  {
    var n := s.pages[id];
    assert NodeOk(s, 0, NoHole, id);
    NonEmptyInterval(s, id);
    var here := Picked(n, |n.keys|, 0, LAST_KEY);
    if n.next == 0 then here else NonEmptyInterval(s, n.next); here + Chain(s, n.next)
  }

  /** Following `next_leaf` from any leaf visits every binding from there on, in key order. */
  lemma {:induction false} ChainListing(s: State, id: PageId)
    requires Whole(s) && id in s.pages && s.pages[id].Leaf?
    ensures Listing(Chain(s, id), s.contents, s.info[id].lo, KEY_LIMIT, 0, LAST_KEY)
    decreases KEY_LIMIT - s.info[id].lo
  {
    var n := s.pages[id];
    assert NodeOk(s, 0, NoHole, id);
    NonEmptyInterval(s, id);
    PickedListing(s, id, |n.keys|, 0, LAST_KEY);
    if n.next != 0 {
      NonEmptyInterval(s, n.next);
      ChainListing(s, n.next);
      ListingJoin(Picked(n, |n.keys|, 0, LAST_KEY), Chain(s, n.next), s.contents, s.info[id].lo, s.info[id].hi, KEY_LIMIT, 0, LAST_KEY);
    }
  }

  /** A range has only one listing, so the two ways of reading the tree agree. */
  lemma {:induction false} OneListing(out: seq<(Key, Value)>, out': seq<(Key, Value)>, m: map<Key, Value>,
                                      lo: int, hi: int, start: int, end: int)
    requires Listing(out, m, lo, hi, start, end) && Listing(out', m, lo, hi, start, end)
    ensures out == out'
  {
    OneOrder(out, out');
  }

  lemma HasFirst(b: seq<(Key, Value)>)
    requires b != []
    ensures exists x :: x in b
  {
    assert b[0] in b;
  }

  lemma {:induction false} OneOrder(a: seq<(Key, Value)>, b: seq<(Key, Value)>)
    requires forall i, j :: 0 <= i < j < |a| ==> a[i].0 < a[j].0
    requires forall i, j :: 0 <= i < j < |b| ==> b[i].0 < b[j].0
    requires forall x :: x in a <==> x in b
    ensures a == b
  {
    if a == [] {
      if b != [] { HasFirst(b); }
    } else {
      assert a[0] in b;
      assert b[0] in a;
      assert a[0].0 <= b[0].0 && b[0].0 <= a[0].0;
      forall x | x in a[1..]
        ensures x in b[1..]
      {
        assert x in a;
        var i :| 0 <= i < |b| && b[i] == x;
      }
      forall x | x in b[1..]
        ensures x in a[1..]
      {
        assert x in b;
        var i :| 0 <= i < |a| && a[i] == x;
      }
      OneOrder(a[1..], b[1..]);
    }
  }

  lemma {:induction false} ChainIsScan(s: State, first: PageId)
    requires Whole(s) && first in s.pages && s.pages[first].Leaf? && s.info[first].lo == 0
    ensures Chain(s, first) == Gathered(s, s.root, 0, LAST_KEY)
  {
    ChainListing(s, first);
    GatheredListing(s, s.root, 0, LAST_KEY);
    OneListing(Chain(s, first), Gathered(s, s.root, 0, LAST_KEY), s.contents, 0, KEY_LIMIT, 0, LAST_KEY);
  }

  // ---- Height ----

  function Pow(b: nat, n: nat): nat {
    if n == 0 then 1 else b * Pow(b, n - 1)
  }

  /** In a tree grown by puts alone, a page below the root at level `l` covers at least
      (ORDER / 2)^(l + 1) keys. */
  lemma {:induction false} Population(s: State, id: PageId)
    requires Whole(s) && Filled(s, NoHole) && id in s.pages && id != s.root
    ensures |InRange(s.contents, s.info[id].lo, s.info[id].hi)| >= Pow(ORDER / 2, s.info[id].level + 1)
    decreases s.info[id].level, ORDER + 1
  {
    var n := s.pages[id];
    assert NodeOk(s, 0, NoHole, id);
    assert FullEnough(n);
    if n.Leaf? {
      LeafSize(s, id);
      assert Pow(ORDER / 2, 1) == ORDER / 2 * Pow(ORDER / 2, 0);
    } else {
      KidsPopulation(s, id, |n.keys| + 1);
      MulAtLeast(|n.keys| + 1, ORDER / 2, Pow(ORDER / 2, s.info[id].level));
    }
  }

  lemma {:induction false} KidsPopulation(s: State, id: PageId, i: nat)
    requires Whole(s) && Filled(s, NoHole) && id in s.pages && s.pages[id].Inner? && i <= |s.pages[id].keys| + 1
    ensures |InRange(s.contents, s.info[id].lo, Reached(s.pages[id], s.info[id], i))| >= i * Pow(ORDER / 2, s.info[id].level)
    decreases s.info[id].level, i
  {
    if i > 0 {
      var n, b := s.pages[id], s.info[id];
      KidBounds(s, id, i - 1);
      assert n.kids[i - 1] != s.root by { assert NodeOk(s, 0, NoHole, id); assert KidOk(s, NoHole, id, i - 1); }
      KidsPopulation(s, id, i - 1);
      Population(s, n.kids[i - 1]);
      RangeSplit(s.contents, b.lo, Reached(n, b, i - 1), Reached(n, b, i));
    }
  }

  /** So the height of such a tree is logarithmic in the number of keys. */
  lemma HeightBound(s: State)
    requires Whole(s) && Filled(s, NoHole) && s.info[s.root].level > 0
    ensures |s.contents| >= 2 * Pow(ORDER / 2, s.info[s.root].level)
  {
    var n := s.pages[s.root];
    assert NodeOk(s, 0, NoHole, s.root);
    KidsPopulation(s, s.root, |n.keys| + 1);
    MulAtLeast(|n.keys| + 1, 2, Pow(ORDER / 2, s.info[s.root].level));
    assert InRange(s.contents, 0, KEY_LIMIT) == s.contents.Keys;
  }
}
