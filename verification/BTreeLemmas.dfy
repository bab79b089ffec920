/** What one step of the B-tree's code does to the shape invariant. */
module BTreeLemmas {
  import opened Keys
  import opened BTreeModel
  import opened Slots

  // ---- No key is routed to two pages of the same height ----

  lemma BelowRoot(s: State, over: PageId, a: PageId)
    requires Inv(s, over, NoHole) && a in s.pages && a != s.root
    ensures var p := s.pages[a].parent;
            p in s.pages && s.pages[p].Inner? && s.info[a].level + 1 == s.info[p].level <= s.info[s.root].level
  {
    var p := s.pages[a].parent;
    assert NodeOk(s, over, NoHole, a);
    assert NodeOk(s, over, NoHole, p);
    var i :| 0 <= i < |s.pages[p].kids| && s.pages[p].kids[i] == a;
    assert KidOk(s, NoHole, p, i);
  }

  lemma BelowRootOrRoot(s: State, over: PageId, a: PageId)
    requires Inv(s, over, NoHole) && a in s.pages
    ensures (s.pages[a].parent == 0) == (a == s.root)
    ensures a != s.root ==>
              var p := s.pages[a].parent;
              p in s.pages && s.pages[p].Inner? && s.info[a].level + 1 == s.info[p].level <= s.info[s.root].level
  {
    assert NodeOk(s, over, NoHole, a);
    if a != s.root { BelowRoot(s, over, a); }
  }

  /** The interval that page `p` gives to its child number `i`. */
  ghost predicate Routed(s: State, p: PageId, i: nat, k: int)
    requires p in s.pages && p in s.info && s.pages[p].Inner? && i <= |s.pages[p].keys|
  {
    LoAt(s.pages[p], s.info[p], i) <= k < HiAt(s.pages[p], s.info[p], i)
  }

  lemma {:induction false} UniqueRange(s: State, over: PageId, a: PageId, b: PageId, k: int)
    requires Inv(s, over, NoHole)
    requires a in s.pages && b in s.pages && s.info[a].level == s.info[b].level
    requires s.info[a].lo <= k < s.info[a].hi && s.info[b].lo <= k < s.info[b].hi
    ensures a == b
    decreases s.info[s.root].level - s.info[a].level
  {
    assert NodeOk(s, over, NoHole, a) && NodeOk(s, over, NoHole, b);
    if a != s.root && b != s.root {
      var p, q := s.pages[a].parent, s.pages[b].parent;
      assert NodeOk(s, over, NoHole, p) && NodeOk(s, over, NoHole, q);
      var i :| 0 <= i < |s.pages[p].kids| && s.pages[p].kids[i] == a;
      var j :| 0 <= j < |s.pages[q].kids| && s.pages[q].kids[j] == b;
      assert KidOk(s, NoHole, p, i) && KidOk(s, NoHole, q, j);
      UniqueRange(s, over, p, q, k);
      assert Routed(s, p, i, k) && Routed(s, p, j, k);
    } else if a != s.root {
      BelowRoot(s, over, a);
    } else if b != s.root {
      BelowRoot(s, over, b);
    }
  }

  lemma KidsArePages(s: State, id: PageId)
    requires Inv(s, id, NoHole) && id in s.pages && s.pages[id].Inner?
    ensures |s.pages[id].kids| == |s.pages[id].keys| + 1
    ensures forall i :: 0 <= i < |s.pages[id].kids| ==> s.pages[id].kids[i] in s.pages
  {
    assert NodeOk(s, id, NoHole, id);
    forall i | 0 <= i < |s.pages[id].kids|
      ensures s.pages[id].kids[i] in s.pages
    {
      assert KidOk(s, NoHole, id, i);
    }
  }

  // ---- Clauses that survive a change elsewhere ----

  /** Everything about page `c` that its parent's clause reads. */
  ghost predicate SameSeen(s: State, hole: Hole, s': State, hole': Hole, c: PageId)
    requires c in s.pages && c in s.info && (hole.Hole? ==> hole.right in s.info)
    requires hole'.Hole? ==> hole'.right in s'.info
  {
    && c in s'.pages && c in s'.info
    && s'.pages[c].parent == s.pages[c].parent
    && s'.info[c].level == s.info[c].level
    && s'.info[c].lo == s.info[c].lo
    && SeenHi(s', hole', c) == SeenHi(s, hole, c)
  }

  lemma KeepInner(s: State, hole: Hole, s': State, hole': Hole, x: PageId)
    requires (hole.Hole? ==> hole.right in s.info) && (hole'.Hole? ==> hole'.right in s'.info)
    requires x in s.pages && x in s.info && s.pages[x].Inner? && InnerOk(s, hole, x)
    requires x in s'.pages && x in s'.info && s'.info[x] == s.info[x]
    requires s'.pages[x].Inner? && s'.pages[x].keys == s.pages[x].keys && s'.pages[x].kids == s.pages[x].kids
    requires s'.root in s.info ==> s'.root == s.root
    requires forall c :: c in s.pages && c in s.info && s.pages[c].parent == x ==> SameSeen(s, hole, s', hole', c)
    ensures InnerOk(s', hole', x)
  {
    forall i: nat | i < |s.pages[x].kids|
      ensures KidOk(s', hole', x, i)
    {
      assert KidOk(s, hole, x, i);
    }
  }

  lemma KeepParent(s: State, hole: Hole, s': State, hole': Hole, x: PageId)
    requires (hole.Hole? ==> hole.left in s.pages) && (hole'.Hole? ==> hole'.left in s'.pages)
    requires s.root == s'.root && s.root in s.info && x in s.pages && x in s.info && ParentOk(s, hole, x)
    requires s'.root in s'.info && x in s'.pages && x in s'.info
    requires s'.pages[x].parent == s.pages[x].parent
    requires s'.info[x].level == s.info[x].level && s'.info[s.root].level == s.info[s.root].level
    requires !(hole.Hole? && x == hole.right) && !(hole'.Hole? && x == hole'.right)
    requires x != s.root ==>
               var p := s.pages[x].parent;
               p in s'.pages && s'.pages[p].Inner? && (p in s.pages && s.pages[p].Inner? ==> s'.pages[p].kids == s.pages[p].kids)
    ensures ParentOk(s', hole', x)
  {
  }

  // ---- Rewriting the slots of one leaf ----

  /** The bindings of one leaf's interval are replaced; nothing else is touched. */
  lemma {:induction false} LeafRewrite(s: State, s': State, id: PageId, keys: seq<Key>, vals: seq<Value>)
    requires Whole(s) && id in s.pages && s.pages[id].Leaf?
    requires Sorted(keys) && |vals| == |keys| <= ORDER
    requires forall i :: 0 <= i < |keys| ==> s.info[id].lo <= keys[i] < s.info[id].hi
    requires s'.pages == s.pages[id := s.pages[id].(keys := keys, vals := vals)]
    requires s'.info == s.info && s'.root == s.root
    requires forall i :: 0 <= i < |keys| ==> keys[i] in s'.contents && s'.contents[keys[i]] == vals[i]
    requires forall k :: k in s'.contents && s.info[id].lo <= k < s.info[id].hi ==> k in keys
    requires SameOutside(s.contents, s'.contents, s.info[id])
    ensures Inv(s', if |keys| == ORDER then id else 0, NoHole)
  {
    var over := if |keys| == ORDER then id else 0;
    assert NodeOk(s, 0, NoHole, id);
    forall x | x in s'.pages
      ensures NodeOk(s', over, NoHole, x)
    {
      if x != id {
        RewriteElsewhere(s, s', id, over, x);
      } else {
        RewriteParent(s, s', id, x);
      }
    }
  }

  lemma RewriteParent(s: State, s': State, id: PageId, x: PageId)
    requires Whole(s) && id in s.pages && s.pages[id].Leaf? && x in s.pages
    requires s'.info == s.info && s'.root == s.root && id in s'.pages && s'.pages[id].Leaf?
    requires s'.pages == s.pages[id := s'.pages[id]] && s'.pages[id].parent == s.pages[id].parent
    ensures ParentOk(s', NoHole, x)
  {
    assert NodeOk(s, 0, NoHole, x);
    if x != s.root { assert NodeOk(s, 0, NoHole, s.pages[x].parent); }
    KeepParent(s, NoHole, s', NoHole, x);
  }

  lemma RewriteElsewhere(s: State, s': State, id: PageId, over: PageId, x: PageId)
    requires Whole(s) && id in s.pages && s.pages[id].Leaf? && x in s.pages && x != id
    requires s'.info == s.info && s'.root == s.root && id in s'.pages && s'.pages[id].Leaf?
    requires s'.pages == s.pages[id := s'.pages[id]] && s'.pages[id].parent == s.pages[id].parent
    requires SameOutside(s.contents, s'.contents, s.info[id])
    ensures NodeOk(s', over, NoHole, x)
  {
    assert NodeOk(s, 0, NoHole, x);
    RewriteParent(s, s', id, x);
    if s.pages[x].Inner? {
      KeepInner(s, NoHole, s', NoHole, x);
    } else {
      OtherLeaf(s, s', id, x);
    }
  }

  /** Two maps bind the keys outside an interval alike. */
  ghost predicate SameOutside(m: map<Key, Value>, m': map<Key, Value>, b: Info) {
    && (forall k :: k in m && !(b.lo <= k < b.hi) ==> k in m' && m'[k] == m[k])
    && (forall k :: k in m' && !(b.lo <= k < b.hi) ==> k in m)
  }

  lemma OtherLeaf(s: State, s': State, id: PageId, x: PageId)
    requires Whole(s) && id in s.pages && s.pages[id].Leaf? && x in s.pages && s.pages[x].Leaf? && x != id
    requires s'.info == s.info && id in s'.pages && s'.pages[id].Leaf? && s'.pages == s.pages[id := s'.pages[id]]
    requires SameOutside(s.contents, s'.contents, s.info[id])
    ensures LeafOk(s', x)
  {
    assert NodeOk(s, 0, NoHole, x) && NodeOk(s, 0, NoHole, id);
    forall k | k in s.contents || k in s'.contents
      ensures !(s.info[x].lo <= k < s.info[x].hi && s.info[id].lo <= k < s.info[id].hi)
    {
      if s.info[x].lo <= k < s.info[x].hi && s.info[id].lo <= k < s.info[id].hi { UniqueRange(s, 0, x, id, k); }
    }
  }

  lemma InsertedSlots(keys: seq<Key>, vals: seq<Value>, pos: nat, key: Key, value: Value, m: map<Key, Value>, lo: int, hi: int)
    requires pos <= |keys| == |vals|
    requires forall j :: 0 <= j < |keys| ==> keys[j] != key && keys[j] in m && m[keys[j]] == vals[j]
    requires forall k :: k in m && lo <= k < hi ==> k in keys
    ensures var keys', vals', m' := InsertAt(keys, pos, key), InsertAt(vals, pos, value), m[key := value];
            && (forall j :: 0 <= j < |keys'| ==> keys'[j] in m' && m'[keys'[j]] == vals'[j])
            && (forall k :: k in m' && lo <= k < hi ==> k in keys')
  {
    var keys', m' := InsertAt(keys, pos, key), m[key := value];
    forall k | k in m' && lo <= k < hi
      ensures k in keys'
    {
      if k == key {
        assert keys'[pos] == k;
      } else {
        var j :| 0 <= j < |keys| && keys[j] == k;
        assert keys'[if j < pos then j else j + 1] == k;
      }
    }
  }

  lemma LeafInsertInv(s: State, s': State, id: PageId, pos: nat, key: Key, value: Value)
    requires Whole(s) && id in s.pages && s.pages[id].Leaf? && s.info[id].lo <= key < s.info[id].hi
    requires pos <= |s.pages[id].keys| == |s.pages[id].vals|
    requires forall j :: 0 <= j < pos ==> s.pages[id].keys[j] < key
    requires forall j :: pos <= j < |s.pages[id].keys| ==> key < s.pages[id].keys[j]
    requires s'.pages == s.pages[id := s.pages[id].(keys := InsertAt(s.pages[id].keys, pos, key),
                                                    vals := InsertAt(s.pages[id].vals, pos, value))]
    requires s'.info == s.info && s'.root == s.root && s'.contents == s.contents[key := value]
    ensures Inv(s', if |s.pages[id].keys| + 1 == ORDER then id else 0, NoHole)
  {
    assert NodeOk(s, 0, NoHole, id);
    var keys, vals, b := s.pages[id].keys, s.pages[id].vals, s.info[id];
    SortedInsert(keys, pos, key);
    InsertedSlots(keys, vals, pos, key, value, s.contents, b.lo, b.hi);
    LeafRewrite(s, s', id, InsertAt(keys, pos, key), InsertAt(vals, pos, value));
  }

  lemma RemovedSlots(keys: seq<Key>, vals: seq<Value>, pos: nat, m: map<Key, Value>, lo: int, hi: int)
    requires pos < |keys| == |vals| && Sorted(keys)
    requires forall j :: 0 <= j < |keys| ==> keys[j] in m && m[keys[j]] == vals[j]
    requires forall k :: k in m && lo <= k < hi ==> k in keys
    ensures var keys', vals', m' := RemoveAt(keys, pos), RemoveAt(vals, pos), m - {keys[pos]};
            && Sorted(keys')
            && (forall j :: 0 <= j < |keys'| ==> keys'[j] in m' && m'[keys'[j]] == vals'[j])
            && (forall k :: k in m' && lo <= k < hi ==> k in keys')
            && (forall k :: k in m && k != keys[pos] ==> k in m' && m'[k] == m[k])
            && (forall k :: k in m' ==> k in m)
  {
    var keys', vals', m' := RemoveAt(keys, pos), RemoveAt(vals, pos), m - {keys[pos]};
    forall j | 0 <= j < |keys'|
      ensures keys'[j] in m' && m'[keys'[j]] == vals'[j]
    {
      var i := if j < pos then j else j + 1;
      assert keys'[j] == keys[i] && vals'[j] == vals[i];
    }
    forall k | k in m' && lo <= k < hi
      ensures k in keys'
    {
      var j :| 0 <= j < |keys| && keys[j] == k;
      assert keys'[if j < pos then j else j - 1] == k;
    }
  }

  lemma LeafRemoveInv(s: State, s': State, id: PageId, pos: nat)
    requires Whole(s) && id in s.pages && s.pages[id].Leaf?
    requires pos < |s.pages[id].keys| == |s.pages[id].vals|
    requires s'.pages == s.pages[id := s.pages[id].(keys := RemoveAt(s.pages[id].keys, pos),
                                                    vals := RemoveAt(s.pages[id].vals, pos))]
    requires s'.info == s.info && s'.root == s.root && s'.contents == s.contents - {s.pages[id].keys[pos]}
    ensures Whole(s')
  {
    assert NodeOk(s, 0, NoHole, id);
    var keys, vals, b := s.pages[id].keys, s.pages[id].vals, s.info[id];
    RemovedSlots(keys, vals, pos, s.contents, b.lo, b.hi);
    LeafRewrite(s, s', id, RemoveAt(keys, pos), RemoveAt(vals, pos));
  }

  // ---- Cutting a full page in two ----

  /** State `s'` is `s` with the full leaf `id` cut in two and the upper half put on page `right`. */
  ghost predicate LeafHalved(s: State, s': State, id: PageId, right: PageId) {
    && id in s.pages && id in s.info && s.pages[id].Leaf? && |s.pages[id].keys| == |s.pages[id].vals| == ORDER
    && var n, b, mid := s.pages[id], s.info[id], ORDER / 2;
    && s'.pages == s.pages[right := Leaf(n.keys[mid..], n.vals[mid..], n.parent, n.next)]
                          [id := Leaf(n.keys[..mid], n.vals[..mid], n.parent, right)]
    && s'.info == s.info[right := Info(0, n.keys[mid], b.hi)][id := Info(0, b.lo, n.keys[mid])]
    && s'.root == s.root && s'.contents == s.contents
  }

  lemma HalfSlots(keys: seq<Key>, mid: nat, k: Key)
    requires Sorted(keys) && mid < |keys| && k in keys
    ensures if k < keys[mid] then k in keys[..mid] else k in keys[mid..]
  {
    var i :| 0 <= i < |keys| && keys[i] == k;
    if i < mid {
      assert keys[..mid][i] == k;
    } else {
      assert keys[mid..][i - mid] == k;
    }
  }

  lemma LowerLeafOk(s: State, s': State, id: PageId, right: PageId)
    requires Inv(s, id, NoHole) && LeafHalved(s, s', id, right)
    requires right !in s.pages && right != 0
    ensures LeafOk(s', id)
  {
    assert NodeOk(s, id, NoHole, id);
    var n, mid := s.pages[id], ORDER / 2;
    forall k | k in s'.contents && s.info[id].lo <= k < n.keys[mid]
      ensures k in n.keys[..mid]
    {
      assert n.keys[mid] < s.info[id].hi;
      HalfSlots(n.keys, mid, k);
    }
  }

  lemma UpperLeafOk(s: State, s': State, id: PageId, right: PageId)
    requires Inv(s, id, NoHole) && LeafHalved(s, s', id, right)
    requires right !in s.pages && right != 0
    ensures LeafOk(s', right)
  {
    assert NodeOk(s, id, NoHole, id);
    var n, mid := s.pages[id], ORDER / 2;
    forall k | k in s'.contents && n.keys[mid] <= k < s.info[id].hi
      ensures k in n.keys[mid..]
    {
      assert s.info[id].lo <= n.keys[mid];
      HalfSlots(n.keys, mid, k);
    }
  }

  lemma HalvesKeysOk(s: State, s': State, id: PageId, right: PageId)
    requires Inv(s, id, NoHole) && LeafHalved(s, s', id, right)
    requires right !in s.pages && right != 0
    ensures KeysOk(s', 0, id) && KeysOk(s', 0, right) && HoleOk(s', Hole(id, right))
  {
    assert NodeOk(s, id, NoHole, id);
    assert s.pages[id].keys[0] < s.pages[id].keys[ORDER / 2];
  }

  lemma HalvesOk(s: State, s': State, id: PageId, right: PageId)
    requires Inv(s, id, NoHole) && LeafHalved(s, s', id, right)
    requires right !in s.pages && right != 0
    ensures HoleOk(s', Hole(id, right))
    ensures NodeOk(s', 0, Hole(id, right), id) && NodeOk(s', 0, Hole(id, right), right)
  {
    LowerLeafOk(s, s', id, right);
    UpperLeafOk(s, s', id, right);
    HalvesKeysOk(s, s', id, right);
    HalveParent(s, s', id, right, id);
    assert ParentOk(s', Hole(id, right), right) by { assert NodeOk(s, id, NoHole, id); }
  }

  lemma HalveParent(s: State, s': State, id: PageId, right: PageId, x: PageId)
    requires Inv(s, id, NoHole) && LeafHalved(s, s', id, right)
    requires right !in s.pages && right != 0 && x in s.pages
    ensures ParentOk(s', Hole(id, right), x)
  {
    assert NodeOk(s, id, NoHole, x) && NodeOk(s, id, NoHole, id);
    if x != s.root { assert NodeOk(s, id, NoHole, s.pages[x].parent); }
    KeepParent(s, NoHole, s', Hole(id, right), x);
  }

  lemma {:induction false} HalveLeafInv(s: State, s': State, id: PageId, right: PageId)
    requires Inv(s, id, NoHole) && LeafHalved(s, s', id, right)
    requires right !in s.pages && right != 0
    ensures Inv(s', 0, Hole(id, right))
  {
    HalvesOk(s, s', id, right);
    var hole := Hole(id, right);
    forall x | x in s'.pages
      ensures NodeOk(s', 0, hole, x)
    {
      if x != right && x != id {
        HalveOther(s, s', id, right, x);
      }
    }
  }

  lemma HalveOther(s: State, s': State, id: PageId, right: PageId, x: PageId)
    requires Inv(s, id, NoHole) && LeafHalved(s, s', id, right)
    requires right !in s.pages && right != 0 && x in s.pages && x != id
    requires HoleOk(s', Hole(id, right))
    ensures NodeOk(s', 0, Hole(id, right), x)
  {
    assert NodeOk(s, id, NoHole, x);
    assert NodeOk(s, id, NoHole, id);
    HalveParent(s, s', id, right, x);
    if s.pages[x].Inner? {
      KeepInner(s, NoHole, s', Hole(id, right), x);
    }
  }

  /** The pages listed in `ids` are told their new parent. */
  ghost function Reparented(pages: map<PageId, Node>, ids: seq<PageId>, parent: PageId): map<PageId, Node> {
    map x | x in pages :: if x in ids then pages[x].(parent := parent) else pages[x]
  }

  /** State `s'` is `s` with the full inner page `id` cut in two around its middle key. */
  ghost predicate InnerHalved(s: State, s': State, id: PageId, right: PageId) {
    && id in s.pages && id in s.info && s.pages[id].Inner? && |s.pages[id].keys| == ORDER && |s.pages[id].kids| == ORDER + 1
    && var n, b, mid := s.pages[id], s.info[id], ORDER / 2;
    && s'.pages == Reparented(s.pages[right := Inner(n.keys[mid + 1..], n.kids[mid + 1..], n.parent)]
                                     [id := Inner(n.keys[..mid], n.kids[..mid + 1], n.parent)],
                              n.kids[mid + 1..], right)
    && s'.info == s.info[right := Info(b.level, n.keys[mid], b.hi)][id := Info(b.level, b.lo, n.keys[mid])]
    && s'.root == s.root && s'.contents == s.contents
  }

  /** A page moves to the right half exactly when the full page lists it among its upper children. */
  lemma Moved(s: State, id: PageId, mid: nat, x: PageId)
    requires Inv(s, id, NoHole) && id in s.pages && s.pages[id].Inner? && mid < |s.pages[id].keys|
    requires x in s.pages
    ensures |s.pages[id].kids| == |s.pages[id].keys| + 1
    ensures x in s.pages[id].kids[mid + 1..] <==> s.pages[x].parent == id && x != s.root && s.info[x].lo >= s.pages[id].keys[mid]
    ensures x in s.pages[id].kids[mid + 1..] ==> x != id && s.info[x].level + 1 == s.info[id].level
  {
    var n := s.pages[id];
    assert NodeOk(s, id, NoHole, id);
    assert NodeOk(s, id, NoHole, x);
    if x in n.kids[mid + 1..] {
      var i :| mid + 1 <= i < |n.kids| && n.kids[i] == x;
      assert KidOk(s, NoHole, id, i);
    }
    if s.pages[x].parent == id && x != s.root && s.info[x].lo >= n.keys[mid] {
      var i :| 0 <= i < |n.kids| && n.kids[i] == x;
      assert KidOk(s, NoHole, id, i);
      assert n.kids[mid + 1..][i - mid - 1] == x;
    }
  }

  /** What cutting inner page `id` does to any page that existed before. */
  lemma InnerHalvedAt(s: State, s': State, id: PageId, right: PageId, x: PageId)
    requires Inv(s, id, NoHole) && InnerHalved(s, s', id, right) && right !in s.pages && right != 0 && x in s.pages
    ensures x in s'.pages && right in s'.pages && right != id && id !in s.pages[id].kids
    ensures x != id ==> s'.info[x] == s.info[x]
    ensures s'.pages[x].Leaf? == s.pages[x].Leaf?
    ensures s'.pages[right] == Inner(s.pages[id].keys[ORDER / 2 + 1..], s.pages[id].kids[ORDER / 2 + 1..], s.pages[id].parent)
    ensures s'.pages[id] == Inner(s.pages[id].keys[..ORDER / 2], s.pages[id].kids[..ORDER / 2 + 1], s.pages[id].parent)
    ensures x != id ==>
              s'.pages[x] == s.pages[x].(parent :=
                if s.pages[x].parent == id && x != s.root && s.info[x].lo >= s.pages[id].keys[ORDER / 2] then right
                else s.pages[x].parent)
  {
    var kids := s.pages[id].kids;
    assert NodeOk(s, id, NoHole, id);
    forall i: nat | i < |kids|
      ensures kids[i] in s.pages && kids[i] != id
    {
      assert KidOk(s, NoHole, id, i);
    }
    assert right !in kids[ORDER / 2 + 1..] && id !in kids[ORDER / 2 + 1..];
    Moved(s, id, ORDER / 2, x);
  }

  lemma HalvedInnerParent(s: State, s': State, id: PageId, right: PageId, x: PageId)
    requires Inv(s, id, NoHole) && InnerHalved(s, s', id, right) && right !in s.pages && right != 0 && x in s.pages
    ensures x in s'.pages && x in s'.info && id in s'.pages && s.root in s'.info
    ensures ParentOk(s', Hole(id, right), x)
  {
    InnerHalvedAt(s, s', id, right, x);
    assert NodeOk(s, id, NoHole, x) && NodeOk(s, id, NoHole, id);
    if x != s.root {
      var p := s.pages[x].parent;
      InnerHalvedAt(s, s', id, right, p);
      var i :| 0 <= i < |s.pages[p].kids| && s.pages[p].kids[i] == x;
      assert NodeOk(s, id, NoHole, p);
      assert KidOk(s, NoHole, p, i);
      if p == id {
        if i <= ORDER / 2 {
          assert s'.pages[id].kids[i] == x;
        } else {
          assert s'.pages[right].kids[i - ORDER / 2 - 1] == x;
        }
      } else {
        assert s'.pages[p].kids[i] == x;
      }
    }
  }

  lemma HalvedInnerKids(s: State, s': State, id: PageId, right: PageId)
    requires Inv(s, id, NoHole) && InnerHalved(s, s', id, right) && right !in s.pages && right != 0
    ensures id in s'.pages && right in s'.pages && s'.pages[id].Inner? && s'.pages[right].Inner?
    ensures InnerOk(s', Hole(id, right), id) && InnerOk(s', Hole(id, right), right)
  {
    var n, mid, hole := s.pages[id], ORDER / 2, Hole(id, right);
    InnerHalvedAt(s, s', id, right, id);
    assert NodeOk(s, id, NoHole, id);
    forall i: nat | i <= mid
      ensures KidOk(s', hole, id, i)
    {
      assert KidOk(s, NoHole, id, i);
      InnerHalvedAt(s, s', id, right, n.kids[i]);
    }
    forall i: nat | i < ORDER - mid
      ensures KidOk(s', hole, right, i)
    {
      assert KidOk(s, NoHole, id, i + mid + 1);
      InnerHalvedAt(s, s', id, right, n.kids[i + mid + 1]);
    }
  }

  lemma HalvedInnerOk(s: State, s': State, id: PageId, right: PageId)
    requires Inv(s, id, NoHole) && InnerHalved(s, s', id, right) && right !in s.pages && right != 0
    ensures HoleOk(s', Hole(id, right))
    ensures s.root in s'.info && NodeOk(s', 0, Hole(id, right), id) && NodeOk(s', 0, Hole(id, right), right)
  {
    HalvedInnerKids(s, s', id, right);
    HalvedInnerParent(s, s', id, right, id);
    InnerHalvedAt(s, s', id, right, id);
    assert NodeOk(s, id, NoHole, id);
    assert KeysOk(s', 0, id) && KeysOk(s', 0, right) by {
      assert s.pages[id].keys[ORDER / 2] < s.pages[id].keys[ORDER / 2 + 1];
    }
  }

  lemma HalvedInnerOther(s: State, s': State, id: PageId, right: PageId, x: PageId)
    requires Inv(s, id, NoHole) && InnerHalved(s, s', id, right) && right !in s.pages && right != 0
    requires x in s.pages && x != id
    requires HoleOk(s', Hole(id, right)) && s'.root in s'.info
    ensures x in s'.pages && x in s'.info && NodeOk(s', 0, Hole(id, right), x)
  {
    InnerHalvedAt(s, s', id, right, x);
    HalvedInnerParent(s, s', id, right, x);
    assert NodeOk(s, id, NoHole, x);
    if s.pages[x].Inner? {
      forall c | c in s.pages && c in s.info && s.pages[c].parent == x
        ensures SameSeen(s, NoHole, s', Hole(id, right), c)
      {
        InnerHalvedAt(s, s', id, right, c);
      }
      KeepInner(s, NoHole, s', Hole(id, right), x);
    } else if s.pages[x].next != 0 {
      InnerHalvedAt(s, s', id, right, s.pages[x].next);
    }
  }

  lemma {:induction false} HalveInnerInv(s: State, s': State, id: PageId, right: PageId)
    requires Inv(s, id, NoHole) && InnerHalved(s, s', id, right) && right !in s.pages && right != 0
    ensures Inv(s', 0, Hole(id, right))
  {
    HalvedInnerOk(s, s', id, right);
    forall x | x in s'.pages
      ensures NodeOk(s', 0, Hole(id, right), x)
    {
      if x != right && x != id {
        HalvedInnerOther(s, s', id, right, x);
      }
    }
  }

  // ---- Handing the upper half to the parent, or to a new root ----

  /** Page `p` lists `right` just after `left`, with the key that separates them between. */
  ghost predicate ParentExtended(s: State, s': State, p: PageId, i: nat, left: PageId, right: PageId) {
    && p in s.pages && s.pages[p].Inner? && i <= |s.pages[p].keys| && |s.pages[p].kids| == |s.pages[p].keys| + 1
    && s.pages[p].kids[i] == left && right in s.info && 0 <= s.info[right].lo < KEY_LIMIT
    && s'.pages == s.pages[p := Inner(InsertAt(s.pages[p].keys, i, s.info[right].lo),
                                      InsertAt(s.pages[p].kids, i + 1, right), s.pages[p].parent)]
    && s'.info == s.info && s'.root == s.root && s'.contents == s.contents
  }

  lemma KidsDistinct(s: State, over: PageId, hole: Hole, p: PageId, i: nat, j: nat)
    requires Inv(s, over, hole) && p in s.pages && s.pages[p].Inner?
    requires i < j < |s.pages[p].kids|
    ensures s.pages[p].kids[i] != s.pages[p].kids[j]
  {
    assert NodeOk(s, over, hole, p);
    assert KidOk(s, hole, p, i) && KidOk(s, hole, p, j);
  }

  /** The separator that goes up lies strictly inside the interval of the child it cuts. */
  lemma SeparatorInside(s: State, p: PageId, i: nat, left: PageId, right: PageId)
    requires Inv(s, 0, Hole(left, right)) && p in s.pages && s.pages[p].Inner?
    requires i < |s.pages[p].kids| && s.pages[p].kids[i] == left
    ensures |s.pages[p].kids| == |s.pages[p].keys| + 1
    ensures LoAt(s.pages[p], s.info[p], i) < s.info[right].lo < HiAt(s.pages[p], s.info[p], i)
    ensures s.info[p].lo < s.info[right].lo < s.info[p].hi
  {
    assert NodeOk(s, 0, Hole(left, right), p);
    assert KidOk(s, Hole(left, right), p, i);
  }

  lemma CutChild(s: State, p: PageId, left: PageId, right: PageId) returns (at: nat)
    requires Inv(s, 0, Hole(left, right)) && left != s.root && left in s.pages && s.pages[left].parent == p
    ensures p in s.pages && s.pages[p].Inner? && Sorted(s.pages[p].keys) && |s.pages[p].keys| < ORDER
    ensures at < |s.pages[p].kids| == |s.pages[p].keys| + 1 && s.pages[p].kids[at] == left
    ensures LoAt(s.pages[p], s.info[p], at) < s.info[right].lo < HiAt(s.pages[p], s.info[p], at)
    ensures forall j :: 0 <= j < at ==> s.pages[p].keys[j] < s.info[right].lo
    ensures forall j :: at <= j < |s.pages[p].keys| ==> s.info[right].lo < s.pages[p].keys[j]
  {
    assert NodeOk(s, 0, Hole(left, right), left) && NodeOk(s, 0, Hole(left, right), p);
    at :| 0 <= at < |s.pages[p].kids| && s.pages[p].kids[at] == left;
    SeparatorInside(s, p, at, left, right);
  }

  lemma ExtendedKeysOk(s: State, s': State, p: PageId, i: nat, left: PageId, right: PageId)
    requires Inv(s, 0, Hole(left, right)) && ParentExtended(s, s', p, i, left, right)
    ensures KeysOk(s', p, p)
  {
    assert NodeOk(s, 0, Hole(left, right), p);
    SeparatorInside(s, p, i, left, right);
    SortedInsert(s.pages[p].keys, i, s.info[right].lo);
  }

  lemma SortedInsert(keys: seq<Key>, i: nat, k: Key)
    requires Sorted(keys) && i <= |keys|
    requires (i > 0 ==> keys[i - 1] < k) && (i < |keys| ==> k < keys[i])
    ensures Sorted(InsertAt(keys, i, k))
  {
  }

  lemma ExtendedKidOk(s: State, s': State, p: PageId, i: nat, left: PageId, right: PageId, j: nat)
    requires Inv(s, 0, Hole(left, right)) && ParentExtended(s, s', p, i, left, right)
    requires j < |s'.pages[p].kids|
    ensures KidOk(s', NoHole, p, j)
  {
    var hole, n, n' := Hole(left, right), s.pages[p], s'.pages[p];
    assert NodeOk(s, 0, hole, p) && NodeOk(s, 0, hole, right) && NodeOk(s, 0, hole, left);
    assert KidOk(s, hole, p, i);
    if j < i {
      KidsDistinct(s, 0, hole, p, j, i);
      assert KidOk(s, hole, p, j);
    } else if j > i + 1 {
      KidsDistinct(s, 0, hole, p, i, j - 1);
      assert KidOk(s, hole, p, j - 1);
    }
  }

  lemma {:induction false} ExtendParentInv(s: State, s': State, p: PageId, i: nat, left: PageId, right: PageId)
    requires Inv(s, 0, Hole(left, right)) && ParentExtended(s, s', p, i, left, right)
    ensures Inv(s', p, NoHole)
  {
    var hole := Hole(left, right);
    assert NodeOk(s, 0, hole, p);
    assert KidOk(s, hole, p, i);
    forall x | x in s'.pages
      ensures NodeOk(s', p, NoHole, x)
    {
      ExtendedOther(s, s', p, i, left, right, x);
    }
  }

  lemma ExtendedOther(s: State, s': State, p: PageId, i: nat, left: PageId, right: PageId, x: PageId)
    requires Inv(s, 0, Hole(left, right)) && ParentExtended(s, s', p, i, left, right) && x in s.pages
    ensures NodeOk(s', p, NoHole, x)
  {
    var hole := Hole(left, right);
    assert NodeOk(s, 0, hole, x) && NodeOk(s, 0, hole, p);
    ExtendedParentClause(s, s', p, i, left, right, x);
    if x == p {
      ExtendedKeysOk(s, s', p, i, left, right);
      forall j: nat | j < |s'.pages[p].kids|
        ensures KidOk(s', NoHole, p, j)
      {
        ExtendedKidOk(s, s', p, i, left, right, j);
      }
    } else if s.pages[x].Inner? {
      assert KidOk(s, hole, p, i);
      KeepInner(s, hole, s', NoHole, x);
    }
  }

  lemma ExtendedParentClause(s: State, s': State, p: PageId, i: nat, left: PageId, right: PageId, x: PageId)
    requires Inv(s, 0, Hole(left, right)) && ParentExtended(s, s', p, i, left, right) && x in s.pages
    ensures ParentOk(s', NoHole, x)
  {
    var hole := Hole(left, right);
    assert NodeOk(s, 0, hole, x) && NodeOk(s, 0, hole, p);
    assert KidOk(s, hole, p, i);
    if x == right {
      assert s'.pages[p].kids[i + 1] == right;
    } else if x != s.root {
      var q := s.pages[x].parent;
      var j :| 0 <= j < |s.pages[q].kids| && s.pages[q].kids[j] == x;
      assert s'.pages[q].kids[if q == p && j > i then j + 1 else j] == x;
    }
  }

  /** A new root with the two halves as its children, both told their new parent. */
  ghost predicate RootGrown(s: State, s': State, left: PageId, right: PageId, newRoot: PageId) {
    && left in s.pages && right in s.pages && left in s.info && right in s.info && left == s.root
    && 0 <= s.info[right].lo < KEY_LIMIT
    && s'.pages == s.pages[newRoot := Inner([s.info[right].lo], [left, right], 0)]
                          [left := s.pages[left].(parent := newRoot)]
                          [right := s.pages[right].(parent := newRoot)]
    && s'.info == s.info[newRoot := Info(s.info[left].level + 1, 0, KEY_LIMIT)]
    && s'.root == newRoot && s'.contents == s.contents
  }

  lemma {:induction false} GrowRootInv(s: State, s': State, left: PageId, right: PageId, newRoot: PageId)
    requires Inv(s, 0, Hole(left, right)) && RootGrown(s, s', left, right, newRoot)
    requires newRoot !in s.pages && newRoot != 0
    ensures Inv(s', 0, NoHole)
  {
    GrownRootOk(s, s', left, right, newRoot);
    forall x | x in s'.pages
      ensures NodeOk(s', 0, NoHole, x)
    {
      if x != newRoot {
        GrownOther(s, s', left, right, newRoot, x);
      }
    }
  }

  lemma GrownRootOk(s: State, s': State, left: PageId, right: PageId, newRoot: PageId)
    requires Inv(s, 0, Hole(left, right)) && RootGrown(s, s', left, right, newRoot)
    requires newRoot !in s.pages && newRoot != 0
    ensures NodeOk(s', 0, NoHole, newRoot)
  {
    assert KidOk(s', NoHole, newRoot, 0) && KidOk(s', NoHole, newRoot, 1);
  }

  lemma GrownParent(s: State, s': State, left: PageId, right: PageId, newRoot: PageId, x: PageId)
    requires Inv(s, 0, Hole(left, right)) && RootGrown(s, s', left, right, newRoot)
    requires newRoot !in s.pages && newRoot != 0 && x in s.pages
    ensures ParentOk(s', NoHole, x)
  {
    assert NodeOk(s, 0, Hole(left, right), x);
    if x == left || x == right {
      assert s'.pages[newRoot].kids[if x == left then 0 else 1] == x;
    } else {
      var q := s.pages[x].parent;
      var j :| 0 <= j < |s.pages[q].kids| && s.pages[q].kids[j] == x;
      assert s'.pages[q].kids[j] == x;
    }
  }

  lemma GrownOther(s: State, s': State, left: PageId, right: PageId, newRoot: PageId, x: PageId)
    requires Inv(s, 0, Hole(left, right)) && RootGrown(s, s', left, right, newRoot)
    requires newRoot !in s.pages && newRoot != 0 && x in s.pages
    ensures NodeOk(s', 0, NoHole, x)
  {
    var hole := Hole(left, right);
    assert NodeOk(s, 0, hole, x) && NodeOk(s, 0, hole, left) && NodeOk(s, 0, hole, right);
    GrownParent(s, s', left, right, newRoot, x);
    if s.pages[x].Inner? {
      KeepInner(s, hole, s', NoHole, x);
    }
  }

  lemma ReparentedStep(pages: map<PageId, Node>, ids: seq<PageId>, n: nat, parent: PageId)
    requires n < |ids| && ids[n] in pages
    ensures Reparented(pages, ids[..n + 1], parent)
         == Reparented(pages, ids[..n], parent)[ids[n] := pages[ids[n]].(parent := parent)]
  {
    assert ids[..n + 1] == ids[..n] + [ids[n]];
  }

  // ---- How full pages are ----

  ghost predicate FullEnough(n: Node) {
    |n.keys| >= if n.Leaf? then ORDER / 2 else ORDER / 2 - 1
  }

  /** In runs without deletes every page but the root is at least half full. */
  ghost predicate Filled(s: State, hole: Hole) {
    forall id {:trigger FullEnough(s.pages[id])} ::
      id in s.pages && (id != s.root || (hole.Hole? && id == hole.left)) ==> FullEnough(s.pages[id])
  }

  lemma FilledLeaf(s: State, s': State, id: PageId)
    requires Filled(s, NoHole) && id in s.pages && id in s'.pages && s'.root == s.root
    requires s'.pages == s.pages[id := s'.pages[id]]
    requires s.pages[id].Leaf? == s'.pages[id].Leaf? && |s.pages[id].keys| <= |s'.pages[id].keys|
    ensures Filled(s', NoHole)
  {
    forall x | x in s'.pages && x != s.root
      ensures FullEnough(s'.pages[x])
    {
      assert FullEnough(s.pages[x]);
    }
  }

  lemma FilledLeafHalved(s: State, s': State, id: PageId, right: PageId)
    requires Filled(s, NoHole) && LeafHalved(s, s', id, right) && right !in s.pages
    ensures Filled(s', Hole(id, right))
  {
    forall x | x in s'.pages && (x != s.root || x == id)
      ensures FullEnough(s'.pages[x])
    {
      if x != id && x != right { assert FullEnough(s.pages[x]); }
    }
  }

  lemma FilledInnerHalved(s: State, s': State, id: PageId, right: PageId)
    requires Inv(s, id, NoHole) && Filled(s, NoHole) && InnerHalved(s, s', id, right) && right !in s.pages && right != 0
    ensures Filled(s', Hole(id, right))
  {
    forall x | x in s'.pages && (x != s.root || x == id)
      ensures FullEnough(s'.pages[x])
    {
      InnerHalvedAt(s, s', id, right, id);
      if x != id && x != right {
        InnerHalvedAt(s, s', id, right, x);
        assert FullEnough(s.pages[x]);
      }
    }
  }

  lemma FilledExtended(s: State, s': State, p: PageId, i: nat, left: PageId, right: PageId)
    requires Filled(s, Hole(left, right)) && ParentExtended(s, s', p, i, left, right)
    ensures Filled(s', NoHole)
  {
    forall x | x in s'.pages && x != s.root
      ensures FullEnough(s'.pages[x])
    {
      assert FullEnough(s.pages[x]);
    }
  }

  lemma FilledGrown(s: State, s': State, left: PageId, right: PageId, newRoot: PageId)
    requires Filled(s, Hole(left, right)) && RootGrown(s, s', left, right, newRoot)
    requires newRoot !in s.pages && left != right && right != s.root
    ensures Filled(s', NoHole)
  {
    forall x | x in s'.pages && x != newRoot
      ensures FullEnough(s'.pages[x])
    {
      assert FullEnough(s.pages[x]);
    }
  }

  lemma RelaxOver(s: State, id: PageId)
    requires Inv(s, id, NoHole) && id in s.pages && |s.pages[id].keys| < ORDER
    ensures Whole(s)
  {
    forall x | x in s.pages
      ensures NodeOk(s, 0, NoHole, x)
    {
      assert NodeOk(s, id, NoHole, x);
    }
  }
}
