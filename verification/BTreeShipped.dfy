/**
 The B-tree's put, get and delete exactly as written, on node records: with the bytes of a page as
 written too, already the operation after the first put reads outside the page
 (PageLayout.LeafTurnsInner).

 No line of the source ever gives a page a parent other than 0: `init` and a new root use 0, a right
 half copies its sibling's, and nobody tells the old page about its new root. So every split grows
 a new root over just the two halves, the branch that would insert into the parent is never taken,
 and a leaf beside the one that splits drops out of the tree.
 */
module BTreeShipped {
  import opened Basics
  import opened Keys
  import opened Slots
  import opened BTreeModel
  import opened BTreeLemmas
  import opened BTreeReads
  import opened ShippedView

  ghost predicate Holds(n: Node, m: map<Key, Value>) {
    && n.Leaf? && Sorted(n.keys) && |n.vals| == |n.keys|
    && (forall i :: 0 <= i < |n.keys| ==> n.keys[i] in m && m[n.keys[i]] == n.vals[i])
    && (forall k :: k in m ==> k in n.keys)
  }

  lemma HoldsSize(n: Node, m: map<Key, Value>)
    requires Holds(n, m)
    ensures |m| == |n.keys|
  {
    SortedSize(n.keys);
    assert m.Keys == KeySet(n.keys);
  }

  lemma HoldsInsert(n: Node, m: map<Key, Value>, pos: nat, key: Key, value: Value, n': Node)
    requires Holds(n, m) && pos <= |n.keys|
    requires forall j :: 0 <= j < pos ==> n.keys[j] < key
    requires forall j :: pos <= j < |n.keys| ==> key < n.keys[j]
    requires n'.Leaf? && n'.keys == InsertAt(n.keys, pos, key) && n'.vals == InsertAt(n.vals, pos, value)
    ensures Holds(n', m[key := value]) && key !in m
  {
    SortedInsert(n.keys, pos, key);
    InsertedSlots(n.keys, n.vals, pos, key, value, m, 0, KEY_LIMIT);
  }

  lemma HoldsReplace(n: Node, m: map<Key, Value>, pos: nat, value: Value, n': Node)
    requires Holds(n, m) && pos < |n.keys|
    requires n'.Leaf? && n'.keys == n.keys && n'.vals == n.vals[pos := value]
    ensures Holds(n', m[n.keys[pos] := value])
  {
  }

  lemma HoldsRemove(n: Node, m: map<Key, Value>, pos: nat, n': Node)
    requires Holds(n, m) && pos < |n.keys|
    requires n'.Leaf? && n'.keys == RemoveAt(n.keys, pos) && n'.vals == RemoveAt(n.vals, pos)
    ensures Holds(n', m - {n.keys[pos]})
  {
    RemovedSlots(n.keys, n.vals, pos, m, 0, KEY_LIMIT);
  }

  lemma HoldsLower(n: Node, m: map<Key, Value>, mid: nat, left: Node)
    requires Holds(n, m) && mid < |n.keys|
    requires left.Leaf? && left.keys == n.keys[..mid] && left.vals == n.vals[..mid]
    ensures Holds(left, Below(m, n.keys[mid]))
  {
    forall k | k in m && k < n.keys[mid]
      ensures k in left.keys
    {
      HalfSlots(n.keys, mid, k);
    }
  }

  lemma HoldsUpper(n: Node, m: map<Key, Value>, mid: nat, right: Node)
    requires Holds(n, m) && mid < |n.keys|
    requires right.Leaf? && right.keys == n.keys[mid..] && right.vals == n.vals[mid..]
    ensures Holds(right, From(m, n.keys[mid]))
  {
    forall k | k in m && n.keys[mid] <= k
      ensures k in right.keys
    {
      HalfSlots(n.keys, mid, k);
    }
    forall i | 0 <= i < |right.keys|
      ensures right.keys[i] in From(m, n.keys[mid]) && m[right.keys[i]] == right.vals[i]
    {
      assert right.keys[i] == n.keys[mid + i] && right.vals[i] == n.vals[mid + i];
      assert i > 0 ==> n.keys[mid] < n.keys[mid + i];
    }
  }

  ghost predicate Base(pages: map<PageId, Node>, next: PageId) {
    && next != 0
    && (forall id :: id in pages ==> 0 < id < next)
    && (forall id :: id in pages ==> pages[id].parent == 0)
  }

  /** The pages reachable from the root are what the view says. */
  ghost predicate Shows(pages: map<PageId, Node>, root: PageId, v: View) {
    && root in pages
    && (pages[root].Inner? <==> v.inner)
    && if v.inner then
         var n := pages[root];
         && n.keys == [v.sep] && |n.kids| == 2 && n.kids[0] != n.kids[1]
         && n.kids[0] in pages && n.kids[1] in pages
         && Holds(pages[n.kids[0]], v.lower) && Holds(pages[n.kids[1]], v.upper)
       else
         Holds(pages[root], v.lower)
  }

  /** The leaf that `key` is routed to from the root. */
  ghost function LeafFor(pages: map<PageId, Node>, root: PageId, v: View, key: Key): PageId
    requires Shows(pages, root, v)
  {
    if !v.inner then root else if v.sep <= key then pages[root].kids[1] else pages[root].kids[0]
  }

  ghost function WithTarget(v: View, up: bool, m: map<Key, Value>): View {
    if up then v.(upper := m) else v.(lower := m)
  }

  /** Rewriting one leaf changes one half of the view. */
  lemma LeafRewritten(pages: map<PageId, Node>, root: PageId, v: View, up: bool, m: map<Key, Value>, n: Node)
    requires Shows(pages, root, v) && Holds(n, m) && n.parent == 0 && (up ==> v.inner)
    ensures var id := if !v.inner then root else pages[root].kids[if up then 1 else 0];
            Shows(pages[id := n], root, WithTarget(v, up, m))
  {
  }

  lemma RemoveRight(a: map<Key, Value>, b: map<Key, Value>, key: Key)
    requires key !in a
    ensures a + (b - {key}) == (a + b) - {key}
  {
  }

  lemma RemoveLeft(a: map<Key, Value>, b: map<Key, Value>, key: Key)
    requires key !in b
    ensures (a - {key}) + b == (a + b) - {key}
  {
  }

  lemma RemoveSize(m: map<Key, Value>, key: Key)
    ensures |m - {key}| <= |m|
  {
    assert (m - {key}).Keys <= m.Keys;
    SubsetSize((m - {key}).Keys, m.Keys);
  }

  lemma {:induction false} SubsetSize(a: set<Key>, b: set<Key>)
    requires a <= b
    ensures |a| <= |b|
  {
    assert |b| == |a| + |b - a| by { assert b == a + (b - a); }
  }

  lemma RemovedView(v: View, up: bool, key: Key)
    requires ViewOk(v) && (if up then v.inner && key > v.sep else !v.inner || key <= v.sep)
    requires key in if up then v.upper else v.lower
    ensures var v' := WithTarget(v, up, (if up then v.upper else v.lower) - {key});
            ViewOk(v') && Contents(v') == Contents(v) - {key}
  {
    if up {
      RemoveSize(v.upper, key);
      RemoveRight(v.lower, v.upper, key);
    } else {
      RemoveSize(v.lower, key);
      RemoveLeft(v.lower, v.upper, key);
    }
  }

  lemma PlainStep(v: View, key: Key, value: Value)
    requires ViewOk(v) && !Splits(v, key)
    ensures var v' := WithTarget(v, GoesUp(v, key), Target(v, key)[key := value]);
            ViewOk(v') && PutStep(v, key, value, v')
  {
    UpdateSize(Target(v, key), key, value);
  }

  lemma HalvesView(n: Node, m: map<Key, Value>, left: Node, right: Node)
    requires Holds(n, m) && |n.keys| == ORDER
    requires left.Leaf? && left.keys == n.keys[..ORDER / 2] && left.vals == n.vals[..ORDER / 2]
    requires right.Leaf? && right.keys == n.keys[ORDER / 2..] && right.vals == n.vals[ORDER / 2..]
    ensures var middle := n.keys[ORDER / 2];
            && Holds(left, Below(m, middle)) && Holds(right, From(m, middle))
            && ViewOk(View(true, middle, Below(m, middle), From(m, middle)))
            && |Below(m, middle)| == ORDER / 2 && |From(m, middle)| == ORDER - ORDER / 2
  {
    var middle := n.keys[ORDER / 2];
    HoldsLower(n, m, ORDER / 2, left);
    HoldsUpper(n, m, ORDER / 2, right);
    HoldsSize(left, Below(m, middle));
    HoldsSize(right, From(m, middle));
  }

  class ShippedBTree {
    var pages: map<PageId, Node>
    var rootId: PageId
    var nextPageId: PageId
    ghost var view: View

    ghost predicate Valid()
      reads this
    {
      Base(pages, nextPageId) && ViewOk(view) && Shows(pages, rootId, view)
    }

    constructor Init()
      ensures Valid() && view == View(false, 0, map[], map[])
    {
      pages := map[1 := Leaf([], [], 0, 0)];
      rootId, nextPageId := 1, 2;
      view := View(false, 0, map[], map[]);
    }

    method Get(key: Key) returns (r: Option<Value>)
      requires Valid()
      ensures r == if key in Contents(view) then Some(Contents(view)[key]) else None
    {
      r := FindValue(rootId, key);
    }

    method FindValue(id: PageId, key: Key) returns (r: Option<Value>)
      requires Valid() && (id == rootId || id == LeafFor(pages, rootId, view, key))
      ensures r == if key in Contents(view) then Some(Contents(view)[key]) else None
      decreases if id in pages && pages[id].Inner? then 1 else 0
    {
      var node := pages[id];
      if node.Leaf? {
        var found, pos := FindKey(node.keys, key);
        return if found then Some(node.vals[pos]) else None;
      }
      assert node.keys == [view.sep];
      for i := 0 to |node.keys|
        invariant forall j :: 0 <= j < i ==> node.keys[j] <= key
      {
        if key < node.keys[i] {
          r := FindValue(node.kids[i], key);
          return;
        }
      }
      assert node.keys[0] <= key;
      r := FindValue(node.kids[|node.keys|], key);
    }

    method Put(key: Key, value: Value)
      requires Valid()
      modifies this
      ensures Valid()
      ensures PutStep(old(view), key, value, view)
      ensures Contents(view) == old(AfterPut(view, key, value))
      ensures Contents(view) == old(Contents(view))[key := value] <==> !old(Loses(view, key))
    {
      ghost var v := view;
      InsertInto(rootId, key, value);
      PutOutcome(v, key, value, view);
      PutExactly(v, key, value);
    }

    method InsertInto(id: PageId, key: Key, value: Value)
      requires Valid() && (id == rootId || id == LeafFor(pages, rootId, view, key))
      modifies this
      ensures Valid() && PutStep(old(view), key, value, view)
      decreases if id in pages && pages[id].Inner? then 1 else 0
    {
      var node := pages[id];
      if node.Leaf? {
        InsertIntoLeaf(id, key, value);
        return;
      }
      for i := 0 to |node.keys|
        invariant forall j :: 0 <= j < i ==> node.keys[j] <= key
      {
        if key < node.keys[i] {
          InsertInto(node.kids[i], key, value);
          return;
        }
      }
      assert node.keys[0] <= key;
      InsertInto(node.kids[|node.keys|], key, value);
    }

    method InsertIntoLeaf(id: PageId, key: Key, value: Value)
      requires Valid() && id == LeafFor(pages, rootId, view, key)
      modifies this
      ensures Valid() && PutStep(old(view), key, value, view)
    {
      var node := pages[id];
      var found, pos := LeafSlot(node.keys, key);
      if found {
        ReplaceAtSlot(id, key, value, pos);
      } else {
        InsertAtSlot(id, key, value, pos);
      }
    }

    method ReplaceAtSlot(id: PageId, key: Key, value: Value, pos: nat)
      requires Valid() && id == LeafFor(pages, rootId, view, key) && pos < |pages[id].keys| && pages[id].keys[pos] == key
      modifies this
      ensures Valid() && PutStep(old(view), key, value, view)
    {
      var node := pages[id];
      ghost var m := Target(view, key);
      HoldsSize(node, m);
      assert node.keys[pos] in m;
      PlainStep(view, key, value);
      HoldsReplace(node, m, pos, value, node.(vals := node.vals[pos := value]));
      Rewrite(id, GoesUp(view, key), m[key := value], node.(vals := node.vals[pos := value]));
    }

    method InsertAtSlot(id: PageId, key: Key, value: Value, pos: nat)
      requires Valid() && id == LeafFor(pages, rootId, view, key) && pos <= |pages[id].keys|
      requires forall j :: 0 <= j < pos ==> pages[id].keys[j] < key
      requires forall j :: pos <= j < |pages[id].keys| ==> key < pages[id].keys[j]
      modifies this
      ensures Valid() && PutStep(old(view), key, value, view)
    {
      var node := pages[id];
      ghost var m := Target(view, key);
      var keys := ShiftIn(node.keys, pos, key);
      var vals := ShiftIn(node.vals, pos, value);
      var node' := node.(keys := keys, vals := vals);
      HoldsSize(node, m);
      HoldsInsert(node, m, pos, key, value, node');
      if |keys| >= ORDER {
        pages := pages[id := node'];
        SplitLeaf(id, m[key := value]);
      } else {
        PlainStep(view, key, value);
        Rewrite(id, GoesUp(view, key), m[key := value], node');
      }
    }

    method Rewrite(id: PageId, ghost up: bool, ghost m: map<Key, Value>, node: Node)
      requires Valid() && Holds(node, m) && node.parent == 0 && (up ==> view.inner)
      requires id == if !view.inner then rootId else pages[rootId].kids[if up then 1 else 0]
      requires ViewOk(WithTarget(view, up, m))
      modifies this
      ensures Valid() && view == WithTarget(old(view), up, m)
    {
      LeafRewritten(pages, rootId, view, up, m, node);
      pages := pages[id := node];
      view := WithTarget(view, up, m);
    }

    method SplitLeaf(id: PageId, ghost m: map<Key, Value>)
      requires Base(pages, nextPageId) && id in pages && Holds(pages[id], m) && |pages[id].keys| == ORDER
      modifies this
      ensures Valid() && view.inner
      ensures view.lower == Below(m, view.sep) && view.upper == From(m, view.sep)
      ensures |view.lower| == ORDER / 2 && |view.upper| == ORDER - ORDER / 2
    {
      var node := pages[id];
      var right := CutLeaf(id);
      var middle := node.keys[|node.keys| / 2];
      HalvesView(node, m, pages[id], pages[right]);
      if node.parent == 0 {
        NewRoot(id, middle, right, Below(m, middle), From(m, middle));
      } else {
        // Only here would the source call insert_into_internal, and so split_internal.
        assert false;
      }
    }

    method CutLeaf(id: PageId) returns (right: PageId)
      requires Base(pages, nextPageId) && id in pages && pages[id].Leaf?
      requires |pages[id].keys| == |pages[id].vals| == ORDER
      modifies this`pages, this`nextPageId
      ensures Base(pages, nextPageId) && id in pages && right in pages && right != id
      ensures var n, mid := old(pages[id]), ORDER / 2;
              && pages[id] == Leaf(n.keys[..mid], n.vals[..mid], n.parent, right)
              && pages[right] == Leaf(n.keys[mid..], n.vals[mid..], n.parent, n.next)
    {
      var node := pages[id];
      var mid := |node.keys| / 2;
      right := nextPageId;
      nextPageId := nextPageId + 1;
      var keys := CopyOut(node.keys, mid, |node.keys|);
      var vals := CopyOut(node.vals, mid, |node.keys|);
      assert keys == node.keys[mid..] && vals == node.vals[mid..];
      pages := pages[right := Leaf(keys, vals, node.parent, node.next)];
      pages := pages[id := Leaf(node.keys[..mid], node.vals[..mid], node.parent, right)];
    }

    method NewRoot(left: PageId, middle: Key, right: PageId, ghost lower: map<Key, Value>, ghost upper: map<Key, Value>)
      requires Base(pages, nextPageId) && left in pages && right in pages && left != right
      requires Holds(pages[left], lower) && Holds(pages[right], upper) && ViewOk(View(true, middle, lower, upper))
      modifies this
      ensures Valid() && view == View(true, middle, lower, upper)
    {
      var newRoot := nextPageId;
      nextPageId := nextPageId + 1;
      pages := pages[newRoot := Inner([middle], [left, right], 0)];
      rootId := newRoot;
      view := View(true, middle, lower, upper);
    }

    method Delete(key: Key) returns (found: bool)
      requires Valid()
      modifies this
      ensures Valid()
      ensures found == (key in old(Contents(view)) && !(old(view).inner && key == old(view).sep))
      ensures Contents(view) == if found then old(Contents(view)) - {key} else old(Contents(view))
      ensures Contents(view) == old(Contents(view)) - {key}
              <==> !(key in old(Contents(view)) && old(view).inner && key == old(view).sep)
    {
      found := DeleteFrom(rootId, key);
    }

    method DeleteFrom(id: PageId, key: Key) returns (found: bool)
      requires Valid()
      requires id == rootId || (view.inner && id == pages[rootId].kids[if key <= view.sep then 0 else 1])
      modifies this
      ensures Valid()
      ensures found == (key in old(Contents(view)) && !(old(view).inner && key == old(view).sep))
      ensures Contents(view) == if found then old(Contents(view)) - {key} else old(Contents(view))
      decreases if id in pages && pages[id].Inner? then 1 else 0
    {
      var node := pages[id];
      if node.Leaf? {
        found := DeleteFromLeaf(id, key);
        return;
      }
      for i := 0 to |node.keys|
        invariant forall j :: 0 <= j < i ==> node.keys[j] < key
      {
        if key <= node.keys[i] {
          found := DeleteFrom(node.kids[i], key);
          return;
        }
      }
      assert node.keys[0] < key;
      found := DeleteFrom(node.kids[|node.keys|], key);
    }

    method DeleteFromLeaf(id: PageId, key: Key) returns (found: bool)
      requires Valid()
      requires if view.inner then id == pages[rootId].kids[if key <= view.sep then 0 else 1] else id == rootId
      modifies this
      ensures Valid()
      ensures found == (key in old(Contents(view)) && !(old(view).inner && key == old(view).sep))
      ensures Contents(view) == if found then old(Contents(view)) - {key} else old(Contents(view))
    {
      var node := pages[id];
      ghost var up := view.inner && key > view.sep;
      ghost var m := if up then view.upper else view.lower;
      var pos;
      found, pos := FindKey(node.keys, key);
      if !found {
        return;
      }
      var keys := ShiftOut(node.keys, pos);
      var vals := ShiftOut(node.vals, pos);
      HoldsRemove(node, m, pos, node.(keys := keys, vals := vals));
      RemovedView(view, up, key);
      Rewrite(id, up, m - {key}, node.(keys := keys, vals := vals));
    }
  }

  /** The keys 0, 1, ..., n - 1 put in turn into a new tree. */
  method PutInTurn(n: nat) returns (t: ShippedBTree, ghost run: seq<View>)
    requires n <= 96
    ensures fresh(t) && t.Valid() && |run| == n + 1 && Ascending(run) && run[n] == t.view
  {
    t := new ShippedBTree.Init();
    run := [t.view];
    for i := 0 to n
      invariant t.Valid() && fresh(t) && |run| == i + 1 && run[i] == t.view && Ascending(run)
    {
      t.Put(i, Blank());
      OneMorePut(run, t.view);
      run := run + [t.view];
    }
  }

  /** The losing run, carried out: the tree returned was given key 0 and no longer has it. */
  method PutLoses() returns (t: ShippedBTree)
    ensures t.Valid() && 0 !in Contents(t.view)
  {
    ghost var run;
    t, run := PutInTurn(96);
    AscendingLosesKeys(run);
  }

  /** After the first split, delete misses the stored separator. */
  method DeleteMisses() returns (t: ShippedBTree, found: bool)
    ensures t.Valid() && !found && ORDER / 2 in Contents(t.view)
  {
    ghost var run;
    t, run := PutInTurn(ORDER);
    TwoLeavesYet(run, ORDER);
    found := t.Delete(ORDER / 2);
  }
}
