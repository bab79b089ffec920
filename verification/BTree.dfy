/**
 The B-tree over pages found by id: descent by separator, slot shifting in leaves, and splits that
 push their middle key up through `parent` until a page has room or a new root is grown.

 Some lines of the source are modelled as intended here, and BTreeShipped keeps them as written:
 a new root and a new right half tell their children their new parent, and Delete goes right on a
 key that equals a separator, as Get and Put do, and logs the leaf it changes. DeleteAsWritten keeps
 the source's comparison and its silence.
 */
module BTree {
  import opened Basics
  import opened Keys
  import opened Log
  import opened Slots
  import opened BTreeModel
  import opened BTreeLemmas
  import opened BTreeReads

  const EMPTY_LEAF: Node := Leaf([], [], 0, 0)

  /** The pages before any record is logged: `init` puts its empty root without logging it. */
  const INITIAL_PAGES: map<PageId, Node> := map[1 := EMPTY_LEAF]

  /** A property of log and pages that survives writing any page together with its image. The
      methods below carry such a property through a whole put without looking inside it. */
  type LogView = (seq<Record<Node>>, map<PageId, Node>) -> bool

  ghost predicate Kept(view: LogView, tx: nat) {
    forall log, pages, id, node
      {:trigger view(log + [Write(tx, id, node)], pages[id := node])} ::
      view(log, pages) ==> view(log + [Write(tx, id, node)], pages[id := node])
  }

  /** Since `log0`, transaction `tx` logged an image of every page it changed. */
  ghost function Tracking(log0: seq<Record<Node>>, pages0: map<PageId, Node>, tx: nat): LogView {
    (log, pages) => Tracked(log0, pages0, log, pages, tx)
  }

  ghost predicate Tracked(log0: seq<Record<Node>>, pages0: map<PageId, Node>,
                          log: seq<Record<Node>>, pages: map<PageId, Node>, tx: nat) {
    exists images {:trigger Applied(pages0, images)} ::
      log == log0 + WritesOf(tx, images) && pages == Applied(pages0, images)
  }

  lemma NothingYet(log: seq<Record<Node>>, pages: map<PageId, Node>, tx: nat)
    ensures Tracked(log, pages, log, pages, tx)
  {
    assert log == log + WritesOf<Node>(tx, []) && pages == Applied(pages, []);
  }

  lemma TrackingKept(log0: seq<Record<Node>>, pages0: map<PageId, Node>, tx: nat)
    ensures Kept(Tracking(log0, pages0, tx), tx)
  {
    forall log, pages, id, node | Tracking(log0, pages0, tx)(log, pages)
      ensures Tracking(log0, pages0, tx)(log + [Write(tx, id, node)], pages[id := node])
    {
      OneMoreImage(log0, pages0, log, pages, tx, id, node);
    }
  }

  lemma OneMoreImage(log0: seq<Record<Node>>, pages0: map<PageId, Node>, log: seq<Record<Node>>,
                     pages: map<PageId, Node>, tx: nat, id: PageId, node: Node)
    requires Tracked(log0, pages0, log, pages, tx)
    ensures Tracked(log0, pages0, log + [Write(tx, id, node)], pages[id := node], tx)
  {
    var images :| log == log0 + WritesOf(tx, images) && pages == Applied(pages0, images);
    var more := images + [(id, node)];
    assert more[..|images|] == images;
    assert WritesOf(tx, more) == WritesOf(tx, images) + [Write(tx, id, node)];
    assert pages[id := node] == Applied(pages0, more);
  }

  /** An operation appended one transaction to the log, with an image of every page it changed. */
  ghost predicate Logged(log0: seq<Record<Node>>, pages0: map<PageId, Node>,
                         log: seq<Record<Node>>, pages: map<PageId, Node>, tx: nat) {
    exists images {:trigger Applied(pages0, images)} ::
      log == log0 + Transaction(tx, images) && pages == Applied(pages0, images)
  }

  lemma CommitLogged(log0: seq<Record<Node>>, pages0: map<PageId, Node>, log: seq<Record<Node>>,
                     pages: map<PageId, Node>, tx: nat)
    requires Tracked(log0, pages0, log, pages, tx)
    ensures Logged(log0, pages0, log + [Commit(tx)], pages, tx)
  {
    var images :| log == log0 + WritesOf(tx, images) && pages == Applied(pages0, images);
    assert log + [Commit(tx)] == log0 + Transaction(tx, images);
  }

  /** A log that recovered to the pages before recovers to the pages after, and to the pages before
      as long as the commit is missing. */
  lemma LoggedRecovers(log0: seq<Record<Node>>, pages0: map<PageId, Node>, log: seq<Record<Node>>,
                       pages: map<PageId, Node>, tx: nat)
    requires Logged(log0, pages0, log, pages, tx) && OlderThan(log0, tx)
    ensures log0 <= log && OlderThan(log, tx + 1)
    ensures Recovered(INITIAL_PAGES, log0) == pages0 ==> Recovered(INITIAL_PAGES, log) == pages
    ensures forall n :: |log0| <= n < |log| ==> Recovered(INITIAL_PAGES, log[..n]) == Recovered(INITIAL_PAGES, log0)
  {
    var images :| log == log0 + Transaction(tx, images) && pages == Applied(pages0, images);
    TransactionApplies(INITIAL_PAGES, log0, tx, images);
    forall n | |log0| <= n < |log|
      ensures Recovered(INITIAL_PAGES, log[..n]) == Recovered(INITIAL_PAGES, log0)
    {
      TransactionInvisible(INITIAL_PAGES, log0, tx, images, n);
    }
  }

  /** Page ids are handed out in order, starting at 1. */
  ghost predicate InUse(pages: map<PageId, Node>, next: PageId) {
    next != 0 && forall id :: id in pages ==> id < next
  }

  class BTree {
    var pages: map<PageId, Node>
    var rootId: PageId
    var nextPageId: PageId
    var log: seq<Record<Node>>
    var nextTx: nat

    /** The map that the tree stands for. */
    ghost var contents: map<Key, Value>
    ghost var info: map<PageId, Info>

    ghost function S(): State
      reads this
    {
      State(pages, info, rootId, contents)
    }

    ghost predicate Fresh()
      reads this
    {
      InUse(pages, nextPageId) && OlderThan(log, nextTx)
    }

    ghost predicate Valid()
      reads this
    {
      Whole(S()) && Fresh()
    }

    /** Recovery from the log alone rebuilds every page. */
    ghost predicate Durable()
      reads this
    {
      Recovered(INITIAL_PAGES, log) == pages
    }

    constructor Init()
      ensures Valid() && Durable() && contents == map[] && Filled(S(), NoHole) && log == []
    {
      rootId, nextPageId, nextTx, log := 1, 2, 1, [];
      pages := INITIAL_PAGES;
      info := map[1 := Info(0, 0, KEY_LIMIT)];
      contents := map[];
      new;
      assert NodeOk(S(), 0, NoHole, 1);
    }

    // ---- Reading ----

    method Get(key: Key) returns (r: Option<Value>)
      requires Valid()
      ensures r == if key in contents then Some(contents[key]) else None
    {
      r := FindValue(rootId, key);
    }

    method FindValue(id: PageId, key: Key) returns (r: Option<Value>)
      requires Whole(S()) && id in pages && info[id].lo <= key < info[id].hi
      ensures r == if key in contents then Some(contents[key]) else None
      decreases info[id].level
    {
      var node := pages[id];
      assert NodeOk(S(), 0, NoHole, id);
      if node.Leaf? {
        var found, pos := FindKey(node.keys, key);
        if found {
          return Some(node.vals[pos]);
        }
        return None;
      }
      for i := 0 to |node.keys|
        invariant forall j :: 0 <= j < i ==> node.keys[j] <= key
      {
        if key < node.keys[i] {
          assert KidOk(S(), NoHole, id, i);
          r := FindValue(node.kids[i], key);
          return;
        }
      }
      assert KidOk(S(), NoHole, id, |node.keys|);
      r := FindValue(node.kids[|node.keys|], key);
    }

    // ---- Writing pages ----

    method WritePage(tx: nat, id: PageId, node: Node, ghost view: LogView)
      requires Kept(view, tx) && view(log, pages)
      modifies this`pages, this`log
      ensures pages == old(pages)[id := node] && log == old(log) + [Write(tx, id, node)]
      ensures view(log, pages)
    {
      pages := pages[id := node];
      log := log + [Write(tx, id, node)];
    }

    method AllocPage() returns (id: PageId)
      modifies this`nextPageId
      ensures id == old(nextPageId) && nextPageId == id + 1
    {
      id := nextPageId;
      nextPageId := nextPageId + 1;
    }

    // ---- Put ----

    method Put(key: Key, value: Value)
      requires Valid()
      modifies this
      ensures Valid()
      ensures contents == old(contents)[key := value]
      ensures old(Filled(S(), NoHole)) ==> Filled(S(), NoHole)
      ensures Logged(old(log), old(pages), log, pages, old(nextTx))
      ensures old(Durable()) ==> Durable()
      ensures forall n :: |old(log)| <= n < |log| ==> Recovered(INITIAL_PAGES, log[..n]) == Recovered(INITIAL_PAGES, old(log))
    {
      var tx := nextTx;
      nextTx := nextTx + 1;
      ghost var log0, pages0 := log, pages;
      TrackingKept(log, pages, tx);
      NothingYet(log, pages, tx);
      InsertInto(rootId, key, value, tx, Tracking(log, pages, tx));
      CommitLogged(log0, pages0, log, pages, tx);
      log := log + [Commit(tx)];
      LoggedRecovers(log0, pages0, log, pages, tx);
    }

    method InsertInto(id: PageId, key: Key, value: Value, tx: nat, ghost view: LogView)
      requires Kept(view, tx) && view(log, pages)
      requires Whole(S()) && id in pages && info[id].lo <= key < info[id].hi
      requires InUse(pages, nextPageId)
      modifies this
      ensures Whole(S()) && nextTx == old(nextTx)
      ensures InUse(pages, nextPageId)
      ensures contents == old(contents)[key := value]
      ensures old(Filled(S(), NoHole)) ==> Filled(S(), NoHole)
      ensures view(log, pages)
      decreases info[id].level
    {
      var node := pages[id];
      assert NodeOk(S(), 0, NoHole, id);
      if node.Leaf? {
        InsertIntoLeaf(id, key, value, tx, view);
        return;
      }
      for i := 0 to |node.keys|
        invariant forall j :: 0 <= j < i ==> node.keys[j] <= key
      {
        if key < node.keys[i] {
          assert KidOk(S(), NoHole, id, i);
          InsertInto(node.kids[i], key, value, tx, view);
          return;
        }
      }
      assert KidOk(S(), NoHole, id, |node.keys|);
      InsertInto(node.kids[|node.keys|], key, value, tx, view);
    }

    method InsertIntoLeaf(id: PageId, key: Key, value: Value, tx: nat, ghost view: LogView)
      requires Kept(view, tx) && view(log, pages)
      requires Whole(S()) && id in pages && pages[id].Leaf? && info[id].lo <= key < info[id].hi
      requires InUse(pages, nextPageId)
      modifies this
      ensures Whole(S()) && nextTx == old(nextTx)
      ensures InUse(pages, nextPageId)
      ensures contents == old(contents)[key := value]
      ensures old(Filled(S(), NoHole)) ==> Filled(S(), NoHole)
      ensures view(log, pages)
    {
      var node := pages[id];
      ghost var s := S();
      assert NodeOk(s, 0, NoHole, id);
      var found, pos := LeafSlot(node.keys, key);
      if found {
        contents := contents[key := value];
        WritePage(tx, id, node.(vals := node.vals[pos := value]), view);
        LeafRewrite(s, S(), id, node.keys, node.vals[pos := value]);
        if Filled(s, NoHole) { FilledLeaf(s, S(), id); }
        return;
      }
      var keys := ShiftIn(node.keys, pos, key);
      var vals := ShiftIn(node.vals, pos, value);
      contents := contents[key := value];
      WritePage(tx, id, node.(keys := keys, vals := vals), view);
      LeafInsertInv(s, S(), id, pos, key, value);
      if Filled(s, NoHole) { FilledLeaf(s, S(), id); }
      if |keys| >= ORDER {
        SplitLeaf(id, tx, view);
      }
    }

    /** A full leaf keeps its lower half; the upper half moves to a new page on its right. */
    method SplitLeaf(id: PageId, tx: nat, ghost view: LogView)
      requires Kept(view, tx) && view(log, pages)
      requires Inv(S(), id, NoHole) && id in pages && pages[id].Leaf? && |pages[id].keys| == ORDER
      requires InUse(pages, nextPageId)
      modifies this
      ensures Whole(S()) && nextTx == old(nextTx) && contents == old(contents)
      ensures InUse(pages, nextPageId)
      ensures old(Filled(S(), NoHole)) ==> Filled(S(), NoHole)
      ensures view(log, pages)
    {
      var node := pages[id];
      ghost var s := S();
      BelowRootOrRoot(s, id, id);
      assert NodeOk(s, id, NoHole, id);
      var right := CutLeaf(id, tx, view);
      HalveLeafInv(s, S(), id, right);
      if Filled(s, NoHole) { FilledLeafHalved(s, S(), id, right); }
      var middle := node.keys[|node.keys| / 2];
      if node.parent == 0 {
        GrowRoot(id, middle, right, tx, view);
      } else {
        InsertIntoInternal(node.parent, middle, id, right, tx, view);
      }
    }

    method CutLeaf(id: PageId, tx: nat, ghost view: LogView) returns (right: PageId)
      requires Kept(view, tx) && view(log, pages)
      requires id in pages && id in info && pages[id].Leaf? && |pages[id].keys| == |pages[id].vals| == ORDER
      requires InUse(pages, nextPageId)
      modifies this`pages, this`log, this`nextPageId, this`info
      ensures InUse(pages, nextPageId)
      ensures LeafHalved(old(S()), S(), id, right) && right !in old(pages) && right != 0
      ensures view(log, pages)
    {
      var node := pages[id];
      var mid := |node.keys| / 2;
      right := AllocPage();
      var keys := CopyOut(node.keys, mid, |node.keys|);
      var vals := CopyOut(node.vals, mid, |node.keys|);
      assert keys == node.keys[mid..] && vals == node.vals[mid..];
      WritePage(tx, right, Leaf(keys, vals, node.parent, node.next), view);
      WritePage(tx, id, Leaf(node.keys[..mid], node.vals[..mid], node.parent, right), view);
      info := info[right := Info(0, node.keys[mid], info[id].hi)][id := Info(0, info[id].lo, node.keys[mid])];
    }

    /** The two halves of the old root become the children of a new one. */
    method GrowRoot(left: PageId, middle: Key, right: PageId, tx: nat, ghost view: LogView)
      requires Kept(view, tx) && view(log, pages)
      requires Inv(S(), 0, Hole(left, right)) && left == rootId && middle == info[right].lo
      requires InUse(pages, nextPageId)
      modifies this
      ensures Whole(S()) && nextTx == old(nextTx) && contents == old(contents)
      ensures InUse(pages, nextPageId)
      ensures old(Filled(S(), Hole(left, right))) ==> Filled(S(), NoHole)
      ensures view(log, pages)
    {
      ghost var s := S();
      var newRoot := WriteRoot(left, middle, right, tx, view);
      GrowRootInv(s, S(), left, right, newRoot);
      if Filled(s, Hole(left, right)) { FilledGrown(s, S(), left, right, newRoot); }
    }

    method WriteRoot(left: PageId, middle: Key, right: PageId, tx: nat, ghost view: LogView) returns (newRoot: PageId)
      requires Kept(view, tx) && view(log, pages)
      requires left in pages && right in pages && left in info && right in info && left != right
      requires left == rootId && middle == info[right].lo
      requires InUse(pages, nextPageId)
      modifies this`pages, this`log, this`nextPageId, this`info, this`rootId
      ensures InUse(pages, nextPageId)
      ensures RootGrown(old(S()), S(), left, right, newRoot) && newRoot !in old(pages) && newRoot != 0
      ensures view(log, pages)
    {
      newRoot := AllocPage();
      WritePage(tx, newRoot, Inner([middle], [left, right], 0), view);
      WritePage(tx, left, pages[left].(parent := newRoot), view);
      WritePage(tx, right, pages[right].(parent := newRoot), view);
      rootId := newRoot;
      info := info[newRoot := Info(info[left].level + 1, 0, KEY_LIMIT)];
    }

    method InsertIntoInternal(id: PageId, key: Key, left: PageId, right: PageId, tx: nat, ghost view: LogView)
      requires Kept(view, tx) && view(log, pages)
      requires Inv(S(), 0, Hole(left, right)) && left != rootId && pages[left].parent == id && key == info[right].lo
      requires id in pages && id in info && rootId in info
      requires InUse(pages, nextPageId)
      modifies this
      ensures Whole(S()) && nextTx == old(nextTx) && contents == old(contents)
      ensures InUse(pages, nextPageId)
      ensures old(Filled(S(), Hole(left, right))) ==> Filled(S(), NoHole)
      ensures view(log, pages)
      decreases info[rootId].level - info[id].level, 1
    {
      var node := pages[id];
      ghost var s, hole := S(), Hole(left, right);
      ghost var at := CutChild(s, id, left, right);
      var pos := SlotFor(node.keys, key);
      assert pos == at;
      var keys := ShiftIn(node.keys, pos, key);
      var kids := ShiftIn(node.kids, pos + 1, right);
      kids := kids[pos := left];
      WritePage(tx, id, node.(keys := keys, kids := kids), view);
      assert kids == InsertAt(node.kids, at + 1, right);
      ExtendParentInv(s, S(), id, at, left, right);
      if Filled(s, hole) { FilledExtended(s, S(), id, at, left, right); }
      if |keys| >= ORDER {
        SplitInternal(id, tx, view);
      } else {
        RelaxOver(S(), id);
      }
    }

    /** A full inner page keeps its lower half, moves the upper half and its children to a new
        page, and gives its middle key to its parent. */
    method SplitInternal(id: PageId, tx: nat, ghost view: LogView)
      requires Kept(view, tx) && view(log, pages)
      requires Inv(S(), id, NoHole) && id in pages && pages[id].Inner? && |pages[id].keys| == ORDER
      requires id in info && rootId in info
      requires InUse(pages, nextPageId)
      modifies this
      ensures Whole(S()) && nextTx == old(nextTx) && contents == old(contents)
      ensures InUse(pages, nextPageId)
      ensures old(Filled(S(), NoHole)) ==> Filled(S(), NoHole)
      ensures view(log, pages)
      decreases info[rootId].level - info[id].level, 0
    {
      var node := pages[id];
      ghost var s := S();
      BelowRootOrRoot(s, id, id);
      KidsArePages(s, id);
      var right := CutInternal(id, tx, view);
      HalveInnerInv(s, S(), id, right);
      if Filled(s, NoHole) { FilledInnerHalved(s, S(), id, right); }
      InnerHalvedAt(s, S(), id, right, id);
      var middle := node.keys[|node.keys| / 2];
      if node.parent == 0 {
        GrowRoot(id, middle, right, tx, view);
      } else {
        InnerHalvedAt(s, S(), id, right, node.parent);
        InsertIntoInternal(node.parent, middle, id, right, tx, view);
      }
    }

    method CutInternal(id: PageId, tx: nat, ghost view: LogView) returns (right: PageId)
      requires Kept(view, tx) && view(log, pages)
      requires id in pages && id in info && pages[id].Inner? && |pages[id].keys| == ORDER && |pages[id].kids| == ORDER + 1
      requires forall i :: 0 <= i < |pages[id].kids| ==> pages[id].kids[i] in pages
      requires InUse(pages, nextPageId)
      modifies this`pages, this`log, this`nextPageId, this`info
      ensures InUse(pages, nextPageId)
      ensures InnerHalved(old(S()), S(), id, right) && right !in old(pages) && right != 0
      ensures view(log, pages)
    {
      var node := pages[id];
      var mid := |node.keys| / 2;
      right := AllocPage();
      var keys := CopyOut(node.keys, mid + 1, |node.keys|);
      var kids := CopyOut(node.kids, mid + 1, |node.kids|);
      assert keys == node.keys[mid + 1..] && kids == node.kids[mid + 1..];
      WritePage(tx, right, Inner(keys, kids, node.parent), view);
      WritePage(tx, id, Inner(node.keys[..mid], node.kids[..mid + 1], node.parent), view);
      Adopt(kids, right, tx, view);
      info := info[right := Info(info[id].level, node.keys[mid], info[id].hi)]
                  [id := Info(info[id].level, info[id].lo, node.keys[mid])];
    }

    /** The children that moved to the right half are told their new parent. */
    method Adopt(kids: seq<PageId>, parent: PageId, tx: nat, ghost view: LogView)
      requires Kept(view, tx) && view(log, pages)
      requires forall i :: 0 <= i < |kids| ==> kids[i] in pages
      modifies this`pages, this`log
      ensures pages == Reparented(old(pages), kids, parent)
      ensures view(log, pages)
    {
      ghost var pages0 := pages;
      for i := 0 to |kids|
        invariant pages == Reparented(pages0, kids[..i], parent)
        invariant view(log, pages)
      {
        ReparentedStep(pages0, kids, i, parent);
        WritePage(tx, kids[i], pages[kids[i]].(parent := parent), view);
      }
      assert kids[..|kids|] == kids;
    }

    // ---- Delete ----

    /** Delete as intended: right on equality, and the leaf's new image goes to the log. */
    method Delete(key: Key) returns (found: bool)
      requires Valid()
      modifies this
      ensures Valid()
      ensures found == (key in old(contents)) && contents == old(contents) - {key}
      ensures Logged(old(log), old(pages), log, pages, old(nextTx))
      ensures !found ==> log == old(log) + [Commit(old(nextTx))] && pages == old(pages)
      ensures old(Durable()) ==> Durable()
      ensures forall n :: |old(log)| <= n < |log| ==> Recovered(INITIAL_PAGES, log[..n]) == Recovered(INITIAL_PAGES, old(log))
    {
      var tx := nextTx;
      nextTx := nextTx + 1;
      ghost var log0, pages0 := log, pages;
      TrackingKept(log, pages, tx);
      NothingYet(log, pages, tx);
      found := DeleteFrom(rootId, key, tx, Tracking(log, pages, tx));
      CommitLogged(log0, pages0, log, pages, tx);
      log := log + [Commit(tx)];
      LoggedRecovers(log0, pages0, log, pages, tx);
    }

    method DeleteFrom(id: PageId, key: Key, tx: nat, ghost view: LogView) returns (found: bool)
      requires Kept(view, tx) && view(log, pages)
      requires Whole(S()) && id in pages && info[id].lo <= key < info[id].hi
      modifies this`pages, this`contents, this`log
      ensures Whole(S()) && pages.Keys == old(pages.Keys)
      ensures found == (key in old(contents)) && contents == old(contents) - {key}
      ensures !found ==> log == old(log) && pages == old(pages)
      ensures view(log, pages)
      decreases info[id].level
    {
      var node := pages[id];
      assert NodeOk(S(), 0, NoHole, id);
      if node.Leaf? {
        found := DeleteFromLeaf(id, key, tx, view);
        return;
      }
      for i := 0 to |node.keys|
        invariant forall j :: 0 <= j < i ==> node.keys[j] <= key
      {
        if key < node.keys[i] {
          assert KidOk(S(), NoHole, id, i);
          found := DeleteFrom(node.kids[i], key, tx, view);
          return;
        }
      }
      assert KidOk(S(), NoHole, id, |node.keys|);
      found := DeleteFrom(node.kids[|node.keys|], key, tx, view);
    }

    method DeleteFromLeaf(id: PageId, key: Key, tx: nat, ghost view: LogView) returns (found: bool)
      requires Kept(view, tx) && view(log, pages)
      requires Whole(S()) && id in pages && pages[id].Leaf? && info[id].lo <= key < info[id].hi
      modifies this`pages, this`contents, this`log
      ensures Whole(S()) && pages.Keys == old(pages.Keys)
      ensures found == (key in old(contents)) && contents == old(contents) - {key}
      ensures !found ==> log == old(log) && pages == old(pages)
      ensures view(log, pages)
    {
      ghost var s := S();
      assert NodeOk(s, 0, NoHole, id);
      var node, pos;
      found, node, pos := LeafWithout(pages[id], key);
      if found {
        contents := contents - {key};
        WritePage(tx, id, node, view);
        LeafRemoveInv(s, S(), id, pos);
      }
    }

    /** The leaf without the slot of `key`, if it has one. */
    static method LeafWithout(node: Node, key: Key) returns (found: bool, node': Node, pos: nat)
      requires node.Leaf? && |node.vals| == |node.keys|
      ensures found == (key in node.keys)
      ensures found ==> pos < |node.keys| && node.keys[pos] == key
                        && node' == node.(keys := RemoveAt(node.keys, pos), vals := RemoveAt(node.vals, pos))
    {
      found, pos := FindKey(node.keys, key);
      node' := node;
      if found {
        var keys := ShiftOut(node.keys, pos);
        var vals := ShiftOut(node.vals, pos);
        node' := node.(keys := keys, vals := vals);
      }
    }

    /** A delete that finds nothing commits a transaction without images. */
    method CommitNothing()
      requires Valid()
      modifies this
      ensures Valid() && contents == old(contents) && pages == old(pages)
      ensures log == old(log) + [Commit(old(nextTx))]
      ensures Logged(old(log), old(pages), log, pages, old(nextTx)) && (old(Durable()) ==> Durable())
    {
      var tx := nextTx;
      nextTx := nextTx + 1;
      ghost var log0 := log;
      NothingYet(log, pages, tx);
      CommitLogged(log, pages, log, pages, tx);
      log := log + [Commit(tx)];
      LoggedRecovers(log0, pages, log, pages, tx);
    }

    /** Delete as written: it goes left on a key that equals a separator, and commits without having
        logged a page. */
    method DeleteAsWritten(key: Key) returns (found: bool)
      requires Valid()
      modifies this
      ensures Valid()
      ensures found == (key in old(contents) && !old(IsSeparator(S(), key)))
      ensures contents == if found then old(contents) - {key} else old(contents)
      ensures contents == old(contents) - {key} <==> !(key in old(contents) && old(IsSeparator(S(), key)))
      ensures log == old(log) + [Commit(old(nextTx))]
      ensures old(Durable()) ==> (Durable() <==> !found)
    {
      var tx := nextTx;
      nextTx := nextTx + 1;
      NothingAboveRoot(S(), key);
      found := DeleteFromAsWritten(rootId, key);
      FreshPending(INITIAL_PAGES, log, tx);
      CommitApplies(INITIAL_PAGES, log, tx);
      log := log + [Commit(tx)];
    }

    method DeleteFromLeafAsWritten(id: PageId, key: Key) returns (found: bool)
      requires Whole(S()) && id in pages && pages[id].Leaf?
      modifies this`pages, this`contents
      ensures Whole(S()) && pages.Keys == old(pages.Keys)
      ensures found == (key in old(pages[id].keys))
      ensures contents == if found then old(contents) - {key} else old(contents)
      ensures info[id].lo <= key < info[id].hi ==> found == (key in old(contents))
      ensures found <==> pages != old(pages)
    {
      ghost var s := S();
      assert NodeOk(s, 0, NoHole, id);
      var node, pos;
      found, node, pos := LeafWithout(pages[id], key);
      if found {
        pages := pages[id := node];
        contents := contents - {key};
        LeafRemoveInv(s, S(), id, pos);
        assert |pages[id].keys| != |s.pages[id].keys|;
      }
    }

    method DeleteFromAsWritten(id: PageId, key: Key) returns (found: bool)
      requires Whole(S()) && id in pages
      requires (info[id].lo <= key < info[id].hi && NoSeparatorAbove(S(), key, info[id].level))
               || (key == info[id].hi && IsSeparator(S(), key))
      modifies this`pages, this`contents
      ensures Whole(S()) && pages.Keys == old(pages.Keys)
      ensures found == (key in old(contents) && !old(IsSeparator(S(), key)))
      ensures contents == if found then old(contents) - {key} else old(contents)
      ensures found <==> pages != old(pages)
      decreases info[id].level
    {
      var node := pages[id];
      assert NodeOk(S(), 0, NoHole, id);
      if node.Leaf? {
        if key < info[id].hi { EverythingAboveLeaves(S(), key); }
        found := DeleteFromLeafAsWritten(id, key);
        return;
      }
      for i := 0 to |node.keys|
        invariant forall j :: 0 <= j < i ==> node.keys[j] < key
      {
        if key <= node.keys[i] {
          assert KidOk(S(), NoHole, id, i);
          StepDown(S(), id, i, key);
          found := DeleteFromAsWritten(node.kids[i], key);
          return;
        }
      }
      assert KidOk(S(), NoHole, id, |node.keys|);
      StepDown(S(), id, |node.keys|, key);
      found := DeleteFromAsWritten(node.kids[|node.keys|], key);
    }

    // ---- Scan and count ----

    method Scan(start: int, end: int) returns (results: seq<(Key, Value)>)
      requires Valid()
      ensures Listing(results, contents, 0, KEY_LIMIT, start, end)
    {
      results := ScanRange(rootId, start, end, []);
      GatheredListing(S(), rootId, start, end);
    }

    /** Appends to `before` what is gathered below page `id`. */
    method ScanRange(id: PageId, start: int, end: int, before: seq<(Key, Value)>) returns (results: seq<(Key, Value)>)
      requires Whole(S()) && id in pages
      ensures results == before + Gathered(S(), id, start, end)
      decreases info[id].level
    {
      var node := pages[id];
      assert NodeOk(S(), 0, NoHole, id);
      if node.Leaf? {
        results := ScanLeaf(node, start, end, before);
        return;
      }
      results := before;
      for i := 0 to |node.keys|
        invariant results == before + GatheredKids(S(), id, i, start, end)
      {
        if start < node.keys[i] {
          assert KidOk(S(), NoHole, id, i);
          results := ScanRange(node.kids[i], start, end, results);
        }
      }
      assert KidOk(S(), NoHole, id, |node.keys|);
      results := ScanRange(node.kids[|node.keys|], start, end, results);
    }

    static method ScanLeaf(node: Node, start: int, end: int, before: seq<(Key, Value)>) returns (results: seq<(Key, Value)>)
      requires node.Leaf? && |node.keys| == |node.vals|
      ensures results == before + Picked(node, |node.keys|, start, end)
    {
      results := before;
      for i := 0 to |node.keys|
        invariant results == before + Picked(node, i, start, end)
      {
        if node.keys[i] >= start && node.keys[i] <= end {
          results := results + [(node.keys[i], node.vals[i])];
        }
      }
    }

    method Count() returns (n: nat)
      requires Valid()
      ensures n == |contents|
    {
      n := CountKeys(rootId);
      assert InRange(contents, 0, KEY_LIMIT) == contents.Keys;
    }

    method CountKeys(id: PageId) returns (n: nat)
      requires Whole(S()) && id in pages
      ensures n == |InRange(contents, info[id].lo, info[id].hi)|
      decreases info[id].level
    {
      var node := pages[id];
      ghost var b := info[id];
      assert NodeOk(S(), 0, NoHole, id);
      if node.Leaf? {
        LeafSize(S(), id);
        return |node.keys|;
      }
      n := 0;
      assert InRange(contents, b.lo, b.lo) == {};
      for i := 0 to |node.keys| + 1
        invariant n == |InRange(contents, b.lo, Reached(node, b, i))|
      {
        assert KidOk(S(), NoHole, id, i);
        var m := CountKeys(node.kids[i]);
        RangeSplit(contents, b.lo, Reached(node, b, i), Reached(node, b, i + 1));
        n := n + m;
      }
    }
  }
}
