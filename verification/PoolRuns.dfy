/**
 Runs of a buffer pool.

 A page is a place in a plain map here. Whatever the capacity, and so whatever is evicted and read
 again, a run of calls is answered from that map.
 */
module PoolRuns {
  import opened Basics
  import opened BufferPool

  datatype Call =
    | Get(id: PageId)
    | Put(page: Page)
    | MarkDirty(id: PageId)
    | Flush(id: PageId)
    | FlushAll

  type Memory = map<PageId, Data>

  /** The pages of a file. */
  function InFile(file: seq<Data>): Memory {
    map id: nat | id < |file| :: file[id]
  }

  function After(m: Memory, call: Call): Memory {
    if call.Put? then m[call.page.id := call.page.data] else m
  }

  function Lookup(m: Memory, id: PageId): Option<Data> {
    if id in m then Some(m[id]) else None
  }

  function Answer(m: Memory, call: Call): Option<Data> {
    if call.Get? then Lookup(m, call.id) else None
  }

  function Answers(m: Memory, calls: seq<Call>): (r: seq<Option<Data>>)
    ensures |r| == |calls|
    decreases |calls|
  {
    if calls == [] then [] else [Answer(m, calls[0])] + Answers(After(m, calls[0]), calls[1..])
  }

  function AfterAll(m: Memory, calls: seq<Call>): Memory
    decreases |calls|
  {
    if calls == [] then m else AfterAll(After(m, calls[0]), calls[1..])
  }

  function Changed(changed: set<PageId>, call: Call): set<PageId> {
    if call.Put? then changed + {call.page.id} else changed
  }

  /** Every page is put back dirty, as one that was written to is, or as it is in the file. */
  predicate Careful(calls: seq<Call>, file: seq<Data>, changed: set<PageId>) {
    calls == []
    || ((calls[0].Put? ==>
           var page := calls[0].page;
           page.dirty || (page.id !in changed && page.id < |file| && page.data == file[page.id]))
        && Careful(calls[1..], file, Changed(changed, calls[0])))
  }

  /** Every page asked for is in the file or has been put before. */
  predicate Known(m: Memory, calls: seq<Call>)
    decreases |calls|
  {
    calls == [] || ((calls[0].Get? ==> calls[0].id in m) && Known(After(m, calls[0]), calls[1..]))
  }

  /** As the map says, except that a page between others may have appeared, all zero. */
  predicate Alike(answer: Option<Data>, expected: Option<Data>) {
    answer == expected || (expected == None && answer == Some(ZeroPage()))
  }

  /** The pool holds the map, and pages that were never put are still in the file. */
  ghost predicate Holds(pages: map<PageId, Page>, disk: seq<Data>, m: Memory, file: seq<Data>, changed: set<PageId>) {
    && Clean(pages, disk)
    && (forall id :: Alike(Look(pages, disk, id), Lookup(m, id)))
    && |file| <= |disk|
    && (forall id :: 0 <= id < |file| && id !in changed ==> disk[id] == file[id] && Lookup(m, id) == Some(file[id]))
  }

  lemma HoldsOn(pages: map<PageId, Page>, disk: seq<Data>, pages': map<PageId, Page>, disk': seq<Data>,
                m: Memory, file: seq<Data>, changed: set<PageId>)
    requires Holds(pages, disk, m, file, changed)
    requires Clean(pages', disk') && SameContent(pages, disk, pages', disk') && OnlySaved(pages, disk, disk')
    ensures Holds(pages', disk', m, file, changed)
  {
    forall id
      ensures Alike(Look(pages', disk', id), Lookup(m, id))
    {
      assert Alike(Look(pages, disk, id), Lookup(m, id));
    }
    forall id | 0 <= id < |file| && id !in changed
      ensures disk'[id] == file[id]
    {
      if id in pages {
        assert Alike(Look(pages, disk, id), Lookup(m, id));
      }
    }
  }

  method Do(pool: BufferPool, call: Call, ghost m: Memory, ghost file: seq<Data>, ghost changed: set<PageId>)
    returns (answer: Option<Data>)
    requires pool.Valid() && Holds(pool.pages, pool.disk, m, file, changed) && Careful([call], file, changed)
    modifies pool
    ensures pool.Valid() && Holds(pool.pages, pool.disk, After(m, call), file, Changed(changed, call))
    ensures Alike(answer, Answer(m, call)) && (!call.Get? ==> answer == None)
  {
    answer := None;
    ghost var pages, disk := pool.pages, pool.disk;
    match call {
      case Get(id) =>
        assert Alike(Look(pages, disk, id), Lookup(m, id));
        var r := pool.GetPage(id);
        if r.Some? { answer := Some(r.value.data); }
      case Put(page) => pool.PutPage(page);
      case MarkDirty(id) => pool.MarkDirty(id);
      case Flush(id) => pool.FlushPage(id);
      case FlushAll => pool.FlushAll();
    }
    if !call.Put? {
      HoldsOn(pages, disk, pool.pages, pool.disk, m, file, changed);
    }
  }

  method Play(pool: BufferPool, calls: seq<Call>, ghost m: Memory, ghost file: seq<Data>, ghost changed: set<PageId>)
    returns (answers: seq<Option<Data>>)
    requires pool.Valid() && Holds(pool.pages, pool.disk, m, file, changed) && Careful(calls, file, changed)
    modifies pool
    ensures pool.Valid() && Clean(pool.pages, pool.disk)
    ensures forall id :: Alike(Look(pool.pages, pool.disk, id), Lookup(AfterAll(m, calls), id))
    ensures |answers| == |calls| && forall i :: 0 <= i < |calls| ==> Alike(answers[i], Answers(m, calls)[i])
    ensures Known(m, calls) ==> answers == Answers(m, calls)
    decreases |calls|
  {
    if calls == [] { return []; }
    var first := Do(pool, calls[0], m, file, changed);
    var rest := Play(pool, calls[1..], After(m, calls[0]), file, Changed(changed, calls[0]));
    answers := [first] + rest;
  }

  /** A new pool of any capacity answers a run as the map does, and after it a flush leaves in the
      file what the map holds. */
  method Run(file: seq<Data>, capacity: nat, calls: seq<Call>) returns (pool: BufferPool, answers: seq<Option<Data>>)
    requires Careful(calls, file, {})
    ensures |answers| == |calls| && forall i :: 0 <= i < |calls| ==> Alike(answers[i], Answers(InFile(file), calls)[i])
    ensures Known(InFile(file), calls) ==> answers == Answers(InFile(file), calls)
    ensures forall id :: id in AfterAll(InFile(file), calls) ==> OnDisk(pool.disk, id, AfterAll(InFile(file), calls)[id])
  {
    pool := new BufferPool(capacity, file);
    answers := Play(pool, calls, InFile(file), file, {});
    ghost var m := AfterAll(InFile(file), calls);
    assert forall id :: id in m ==> Alike(Look(pool.pages, pool.disk, id), Lookup(m, id));
    ghost var pages, disk := pool.pages, pool.disk;
    pool.FlushAll();
    forall id | id in m
      ensures OnDisk(pool.disk, id, m[id])
    {
      assert Look(pages, disk, id) == Some(m[id]);
      assert Look(map[], pool.disk, id) == Some(m[id]);
    }
  }

  /** Care is needed: a page put back changed but clean is lost when it is evicted, so that pools of
      different capacities answer differently. */
  method CleanPut(capacity: nat, a: Data, b: Data, c: Data) returns (r: Option<Page>)
    ensures r.Some? && r.value.data == if capacity >= 2 then c else a
  {
    var pool := new BufferPool(capacity, [a, b]);
    assert pool.pages == map[] && pool.lru == [];
    pool.PutPage(Page(0, c, false));
    assert pool.pages == map[0 := Page(0, c, false)] && pool.lru == [0];
    assert Look(pool.pages, pool.disk, 1) == Some(b);
    var _ := pool.GetPage(1);
    assert if capacity >= 2 then pool.pages[0].data == c else 0 !in pool.pages && pool.disk[0] == a;
    r := pool.GetPage(0);
  }
}
