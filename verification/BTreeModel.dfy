/**
 Pages of the B-tree and the shape invariant that every put and delete keeps.

 A page is a node record found by id in a map. Next to the pages the invariant keeps, as
 specification only, each page's level and the half-open interval of keys that belong below it.
 With intervals every clause of the invariant speaks of one page and its direct neighbours, so
 an update of a page only disturbs the clauses of the pages beside it.
 */
module BTreeModel {
  import opened Keys
  import opened Slots

  type PageId = nat

  const ORDER: nat := 64

  datatype Node =
    | Leaf(keys: seq<Key>, vals: seq<Value>, parent: PageId, next: PageId)
    | Inner(keys: seq<Key>, kids: seq<PageId>, parent: PageId)

  /** Height above the leaves and the interval [lo, hi) of keys routed to a page. */
  datatype Info = Info(level: nat, lo: int, hi: int)

  /** While a split is on its way up, `right` holds the upper half of what the parent still
      sees as one child `left`. */
  datatype Hole = NoHole | Hole(left: PageId, right: PageId)

  datatype State = State(pages: map<PageId, Node>, info: map<PageId, Info>, root: PageId,
                         contents: map<Key, Value>)

  // ---- Interval bookkeeping ----

  /** The upper end of the interval that the parent of page `id` attributes to it. */
  ghost function SeenHi(s: State, hole: Hole, id: PageId): int
    requires id in s.info
    requires hole.Hole? ==> hole.right in s.info
  {
    if hole.Hole? && id == hole.left then s.info[hole.right].hi else s.info[id].hi
  }

  ghost function LoAt(n: Node, b: Info, i: nat): int
    requires i <= |n.keys|
  {
    if i == 0 then b.lo else n.keys[i - 1]
  }

  ghost function HiAt(n: Node, b: Info, i: nat): int
    requires i <= |n.keys|
  {
    if i == |n.keys| then b.hi else n.keys[i]
  }

  // ---- The invariant, page by page ----

  /** Keys strictly sorted, inside the interval, and fewer than ORDER of them; only the page
      `over`, which is about to be split, may hold exactly ORDER. */
  ghost predicate KeysOk(s: State, over: PageId, id: PageId)
    requires id in s.pages && id in s.info
  {
    var n, b := s.pages[id], s.info[id];
    && Sorted(n.keys)
    && (forall i :: 0 <= i < |n.keys| ==> b.lo <= n.keys[i] < b.hi)
    && (n.Inner? ==> forall i :: 0 <= i < |n.keys| ==> b.lo < n.keys[i])
    && |n.keys| <= (if id == over then ORDER else ORDER - 1)
  }

  ghost predicate IsKid(s: State, p: PageId, id: PageId)
  {
    p in s.pages && s.pages[p].Inner? && exists i :: 0 <= i < |s.pages[p].kids| && s.pages[p].kids[i] == id
  }

  /** `parent_id` names the page that has this one as a child; the root has parent 0. */
  ghost predicate ParentOk(s: State, hole: Hole, id: PageId)
    requires s.root in s.info && id in s.pages && id in s.info
    requires hole.Hole? ==> hole.left in s.pages
  {
    var p := s.pages[id].parent;
    && s.info[id].level <= s.info[s.root].level
    && if hole.Hole? && id == hole.right then p == s.pages[hole.left].parent
       else if id == s.root then p == 0
       else IsKid(s, p, id)
  }

  ghost predicate NextOk(s: State, id: PageId)
    requires id in s.pages && id in s.info && s.pages[id].Leaf?
  {
    var next := s.pages[id].next;
    if next == 0 then s.info[id].hi == KEY_LIMIT
    else next in s.pages && next in s.info && s.pages[next].Leaf? && s.info[next].lo == s.info[id].hi
  }

  /** A leaf holds exactly the bindings of its interval, and `next_leaf` names the leaf whose
      interval starts where this one ends. */
  ghost predicate LeafOk(s: State, id: PageId)
    requires id in s.pages && id in s.info && s.pages[id].Leaf?
  {
    var n, b := s.pages[id], s.info[id];
    && |n.vals| == |n.keys|
    && b.level == 0
    && (forall i :: 0 <= i < |n.keys| ==> n.keys[i] in s.contents && s.contents[n.keys[i]] == n.vals[i])
    && (forall k :: k in s.contents && b.lo <= k < b.hi ==> k in n.keys)
    && NextOk(s, id)
  }

  ghost predicate KidOk(s: State, hole: Hole, id: PageId, i: nat)
    requires hole.Hole? ==> hole.right in s.info
    requires id in s.pages && id in s.info && s.pages[id].Inner?
    requires i < |s.pages[id].kids| == |s.pages[id].keys| + 1
  {
    var n, b := s.pages[id], s.info[id];
    var c := n.kids[i];
    && c in s.pages && c in s.info && c != s.root
    && s.pages[c].parent == id
    && s.info[c].level + 1 == b.level
    && s.info[c].lo == LoAt(n, b, i)
    && SeenHi(s, hole, c) == HiAt(n, b, i)
  }

  /** An inner page has one child more than keys, and its keys separate their intervals. */
  ghost predicate InnerOk(s: State, hole: Hole, id: PageId)
    requires hole.Hole? ==> hole.right in s.info
    requires id in s.pages && id in s.info && s.pages[id].Inner?
  {
    var n := s.pages[id];
    && |n.kids| == |n.keys| + 1
    && |n.keys| >= 1
    && s.info[id].level > 0
    && forall i {:trigger KidOk(s, hole, id, i)} :: 0 <= i < |n.kids| ==> KidOk(s, hole, id, i)
  }

  ghost predicate NodeOk(s: State, over: PageId, hole: Hole, id: PageId)
    requires id in s.pages && id in s.info && s.root in s.info
    requires hole.Hole? ==> hole.left in s.pages && hole.right in s.info
  {
    && KeysOk(s, over, id)
    && ParentOk(s, hole, id)
    && (if s.pages[id].Leaf? then LeafOk(s, id) else InnerOk(s, hole, id))
  }

  ghost predicate HoleOk(s: State, hole: Hole)
  {
    hole.Hole? ==>
      && hole.left in s.pages && hole.right in s.pages && hole.left in s.info && hole.right in s.info
      && hole.left != hole.right && hole.right != s.root
      && s.info[hole.left].level == s.info[hole.right].level
      && s.info[hole.left].lo < s.info[hole.left].hi == s.info[hole.right].lo < s.info[hole.right].hi
  }

  /** The shape invariant of the whole tree. */
  ghost predicate Inv(s: State, over: PageId, hole: Hole)
  {
    && s.pages.Keys == s.info.Keys
    && 0 !in s.pages
    && s.root in s.pages
    && HoleOk(s, hole)
    && s.info[s.root].lo == 0 && SeenHi(s, hole, s.root) == KEY_LIMIT
    && forall id {:trigger NodeOk(s, over, hole, id)} :: id in s.pages ==> NodeOk(s, over, hole, id)
  }

  /** The invariant between operations. */
  ghost predicate Whole(s: State) {
    Inv(s, 0, NoHole)
  }
}
