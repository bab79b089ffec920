/**
 The buffer pool: a write-back cache of pages over a database file.

 To its callers the pool stands for a plain map from page ids to page contents, Look. A page that is
 not cached is read from the file; saving beyond the end of the file makes the pages in between
 exist, all zero, as a file does.
 */
module BufferPool {
  import opened Basics
  import opened Bytes
  import opened Lists
  import PageLayout

  type PageId = nat
  type Data = seq<byte>

  datatype Page = Page(id: PageId, data: Data, dirty: bool)

  function ZeroPage(): Data {
    seq(PageLayout.PAGE_SIZE, _ => 0)
  }

  // ---- The file ----

  function Grown(disk: seq<Data>, length: nat): seq<Data>
    decreases length - |disk|
  {
    if |disk| >= length then disk else Grown(disk + [ZeroPage()], length)
  }

  lemma {:induction false} GrownAt(disk: seq<Data>, length: nat)
    ensures |Grown(disk, length)| == if |disk| >= length then |disk| else length
    ensures forall i :: 0 <= i < |Grown(disk, length)| ==>
              Grown(disk, length)[i] == if i < |disk| then disk[i] else ZeroPage()
    decreases length - |disk|
  {
    if |disk| < length {
      GrownAt(disk + [ZeroPage()], length);
    }
  }

  /** Seek to the page's offset and write it. */
  function Saved(disk: seq<Data>, id: PageId, data: Data): (d: seq<Data>)
    ensures id < |d|
  {
    GrownAt(disk, id + 1);
    Grown(disk, id + 1)[id := data]
  }

  // ---- What the pool stands for ----

  function Look(pages: map<PageId, Page>, disk: seq<Data>, id: PageId): Option<Data> {
    if id in pages then Some(pages[id].data)
    else if id < |disk| then Some(disk[id])
    else None
  }

  /** Every page that existed keeps its content; a page that did not exist may only have appeared as zeros. */
  ghost predicate SameContent(pages: map<PageId, Page>, disk: seq<Data>, pages': map<PageId, Page>, disk': seq<Data>) {
    forall id :: Look(pages', disk', id) == Look(pages, disk, id)
                 || (Look(pages, disk, id) == None && Look(pages', disk', id) == Some(ZeroPage()))
  }

  /** The file has changed only where a dirty page was saved, and at its end. */
  ghost predicate OnlySaved(pages: map<PageId, Page>, disk: seq<Data>, disk': seq<Data>) {
    && |disk| <= |disk'|
    && forall x :: 0 <= x < |disk| ==> disk'[x] == disk[x] || (x in pages && pages[x].dirty && disk'[x] == pages[x].data)
  }

  /** Pages that stay cached keep their content. */
  ghost predicate StillCached(pages: map<PageId, Page>, pages': map<PageId, Page>) {
    forall x :: x in pages && x in pages' ==> pages'[x].data == pages[x].data
  }

  ghost predicate OnDisk(disk: seq<Data>, id: PageId, data: Data) {
    id < |disk| && disk[id] == data
  }

  /** Every clean cached page equals its image in the file. */
  ghost predicate Clean(pages: map<PageId, Page>, disk: seq<Data>) {
    forall id :: id in pages && !pages[id].dirty ==> OnDisk(disk, id, pages[id].data)
  }

  lemma SaveKeeps(pages: map<PageId, Page>, disk: seq<Data>, id: PageId)
    requires id in pages && Clean(pages, disk)
    ensures var disk' := Saved(disk, id, pages[id].data);
            && SameContent(pages, disk, pages[id := pages[id].(dirty := false)], disk')
            && Clean(pages[id := pages[id].(dirty := false)], disk')
            && |disk| <= |disk'|
  {
    GrownAt(disk, id + 1);
  }

  lemma LoadKeeps(pages: map<PageId, Page>, disk: seq<Data>, id: PageId)
    requires id !in pages && id < |disk|
    ensures Clean(pages, disk) ==> Clean(pages[id := Page(id, disk[id], false)], disk)
    ensures |pages[id := Page(id, disk[id], false)]| == |pages| + 1
  {
  }

  /** What holds from the pool with the page just loaded holds from the pool before. */
  lemma FromBefore(pages: map<PageId, Page>, disk: seq<Data>, id: PageId, pages': map<PageId, Page>, disk': seq<Data>)
    requires id !in pages && id < |disk|
    requires var loaded := pages[id := Page(id, disk[id], false)];
             OnlySaved(loaded, disk, disk') && StillCached(loaded, pages')
    ensures OnlySaved(pages, disk, disk') && StillCached(pages, pages')
    ensures SameContent(pages[id := Page(id, disk[id], false)], disk, pages', disk') ==> SameContent(pages, disk, pages', disk')
  {
    var loaded := pages[id := Page(id, disk[id], false)];
    assert forall x :: Look(loaded, disk, x) == Look(pages, disk, x);
  }

  lemma DropKeeps(pages: map<PageId, Page>, disk: seq<Data>, id: PageId)
    requires id in pages && Clean(pages, disk) && !pages[id].dirty
    ensures SameContent(pages, disk, pages - {id}, disk) && Clean(pages - {id}, disk)
  {
    assert OnDisk(disk, id, pages[id].data);
  }

  // ---- The queue of touched pages ----

  ghost predicate Ordered(s: seq<PageId>, touched: map<PageId, nat>) {
    && (forall i :: 0 <= i < |s| ==> s[i] in touched)
    && (forall i, j :: 0 <= i < j < |s| ==> touched[s[i]] < touched[s[j]])
  }

  lemma {:induction false} WithoutMembers(s: seq<PageId>, x: PageId)
    ensures forall y :: y in Without(s, x) <==> y in s && y != x
  {
    if s != [] {
      WithoutMembers(s[1..], x);
      assert s == [s[0]] + s[1..];
    }
  }

  lemma {:induction false} WithoutOrdered(s: seq<PageId>, x: PageId, touched: map<PageId, nat>)
    requires Ordered(s, touched)
    ensures Ordered(Without(s, x), touched)
  {
    if s != [] {
      var rest := s[1..];
      WithoutOrdered(rest, x, touched);
      WithoutMembers(rest, x);
      forall y | y in rest
        ensures touched[s[0]] < touched[y]
      {
      }
    }
  }

  class BufferPool {
    var pages: map<PageId, Page>
    var lru: seq<PageId>
    var disk: seq<Data>
    const capacity: nat

    /** When each page was last touched, counted in touches. */
    ghost var touched: map<PageId, nat>
    ghost var clock: nat

    /** The queue holds cached pages only, each once, in the order of their last touch. */
    ghost predicate Valid()
      reads this
    {
      && (forall id :: id in pages ==> pages[id].id == id)
      && Ordered(lru, touched)
      && (forall id :: id in lru ==> id in pages && touched[id] < clock)
    }

    constructor (capacity: nat, disk: seq<Data>)
      ensures Valid() && Clean(pages, this.disk) && this.disk == disk && this.capacity == capacity
      ensures pages == map[] && lru == []
    {
      this.capacity := capacity;
      this.disk := disk;
      pages, lru, touched, clock := map[], [], map[], 0;
    }

    method TouchLru(id: PageId)
      requires Valid() && id in pages
      modifies this`lru, this`touched, this`clock
      ensures Valid()
      ensures lru == Without(old(lru), id) + [id]
      ensures clock == old(clock) + 1 && touched == old(touched)[id := old(clock)]
    {
      WithoutMembers(lru, id);
      WithoutOrdered(lru, id, touched);
      lru := Without(lru, id) + [id];
      touched := touched[id := clock];
      clock := clock + 1;
    }

    /** Ok with the page's content, or None when the page is neither cached nor in the file. */
    method GetPage(id: PageId) returns (r: Option<Page>)
      requires Valid()
      modifies this
      ensures Valid()
      ensures old(Look(pages, disk, id)) == None ==> r == None && pages == old(pages) && disk == old(disk) && lru == old(lru)
      ensures old(Look(pages, disk, id)).Some? ==>
                r.Some? && r.value.id == id && r.value.data == old(Look(pages, disk, id)).value && id in pages
      ensures old(Clean(pages, disk)) ==> Clean(pages, disk) && SameContent(old(pages), old(disk), pages, disk)
      ensures OnlySaved(old(pages), old(disk), disk) && StillCached(old(pages), pages)
      // A hit touches the page; a miss evicts at most the page touched longest ago.
      ensures id in old(pages) ==> pages == old(pages) && disk == old(disk) && lru == Without(old(lru), id) + [id]
      ensures id !in old(pages) && r.Some? ==>
                var full := |old(pages)| + 1 > capacity && old(lru) != [];
                && pages.Keys == (old(pages).Keys + {id}) - (if full then {old(lru)[0]} else {})
                && lru == (if full then old(lru)[1..] else old(lru))
                && (full ==> old(lru)[0] != id && forall x :: x in old(lru) ==> old(touched[lru[0]]) <= old(touched)[x])
    {
      if id in pages {
        var page := pages[id];
        TouchLru(id);
        return Some(page);
      }
      if id >= |disk| {
        return None;
      }
      var page := LoadPage(id);
      return Some(page);
    }

    /** A miss reads the page from the file into the pool, and then evicts if the pool is over capacity. */
    method LoadPage(id: PageId) returns (page: Page)
      requires Valid() && id !in pages && id < |disk|
      modifies this`pages, this`disk, this`lru
      ensures Valid() && page == Page(id, old(disk)[id], false) && id in pages
      ensures OnlySaved(old(pages), old(disk), disk) && StillCached(old(pages), pages)
      ensures old(Clean(pages, disk)) ==> Clean(pages, disk) && SameContent(old(pages), old(disk), pages, disk)
      ensures var full := |old(pages)| + 1 > capacity && old(lru) != [];
              && pages.Keys == (old(pages).Keys + {id}) - (if full then {old(lru)[0]} else {})
              && lru == (if full then old(lru)[1..] else old(lru))
              && (full ==> old(lru)[0] != id)
    {
      page := Page(id, disk[id], false);
      ghost var was := pages;
      Insert(page);
      EvictIfNeeded();
      FromBefore(was, old(disk), id, pages, disk);
    }

    method Insert(page: Page)
      requires Valid() && page.id !in pages && page.id < |disk| && page == Page(page.id, disk[page.id], false)
      modifies this`pages
      ensures Valid() && pages == old(pages)[page.id := page]
      ensures |pages| == |old(pages)| + 1 && pages.Keys == old(pages).Keys + {page.id} && page.id !in lru
      ensures old(Clean(pages, disk)) ==> Clean(pages, disk)
    {
      LoadKeeps(pages, disk, page.id);
      pages := pages[page.id := page];
    }

    method PutPage(page: Page)
      requires Valid()
      modifies this
      ensures Valid() && disk == old(disk)
      ensures pages == old(pages)[page.id := page]
      ensures lru == Without(old(lru), page.id) + [page.id]
      ensures forall id :: Look(pages, disk, id) == if id == page.id then Some(page.data) else Look(old(pages), disk, id)
      ensures old(Clean(pages, disk)) ==> (Clean(pages, disk) <==> page.dirty || OnDisk(disk, page.id, page.data))
    {
      pages := pages[page.id := page];
      TouchLru(page.id);
    }

    method MarkDirty(id: PageId)
      requires Valid()
      modifies this`pages
      ensures Valid() && (forall x :: Look(pages, disk, x) == Look(old(pages), disk, x))
      ensures pages == if id in old(pages) then old(pages)[id := old(pages)[id].(dirty := true)] else old(pages)
      ensures old(Clean(pages, disk)) ==> Clean(pages, disk)
    {
      if id in pages {
        pages := pages[id := pages[id].(dirty := true)];
      }
    }

    method FlushPage(id: PageId)
      requires Valid()
      modifies this`pages, this`disk
      ensures Valid() && pages.Keys == old(pages).Keys && |old(disk)| <= |disk|
      ensures forall x :: x in pages ==> pages[x].data == old(pages)[x].data
                                         && pages[x].dirty == (old(pages)[x].dirty && x != id)
      ensures id in pages && old(pages)[id].dirty ==> OnDisk(disk, id, pages[id].data)
      ensures forall x :: 0 <= x < |old(disk)| && !(x == id && id in pages && old(pages)[id].dirty) ==> disk[x] == old(disk)[x]
      ensures OnlySaved(old(pages), old(disk), disk)
      ensures old(Clean(pages, disk)) ==> Clean(pages, disk) && SameContent(old(pages), old(disk), pages, disk)
    {
      if id !in pages || !pages[id].dirty {
        return;
      }
      GrownAt(disk, id + 1);
      if Clean(pages, disk) { SaveKeeps(pages, disk, id); }
      disk := Saved(disk, id, pages[id].data);
      pages := pages[id := pages[id].(dirty := false)];
    }

    method FlushAll()
      requires Valid()
      modifies this`pages, this`disk
      ensures Valid() && pages.Keys == old(pages).Keys
      ensures (forall x :: x in pages ==> !pages[x].dirty) && OnlySaved(old(pages), old(disk), disk)
      // A changed page that was put back without its dirty flag stays out of the file.
      ensures |old(disk)| <= |disk| && forall x :: 0 <= x < |old(disk)| && !(x in old(pages) && old(pages)[x].dirty) ==> disk[x] == old(disk)[x]
      ensures old(Clean(pages, disk)) ==> Clean(pages, disk) && SameContent(old(pages), old(disk), pages, disk)
      // A new pool on the same file reads what this one held.
      ensures old(Clean(pages, disk)) ==>
                forall x :: old(Look(pages, disk, x)).Some? ==> Look(map[], disk, x) == old(Look(pages, disk, x))
    {
      var dirty: set<PageId> := set id | id in pages && pages[id].dirty;
      while dirty != {}
        invariant Valid() && pages.Keys == old(pages).Keys && OnlySaved(old(pages), old(disk), disk)
        invariant forall x :: x in pages ==> pages[x].data == old(pages)[x].data
        invariant forall x :: x in pages && pages[x].dirty ==> x in dirty && old(pages)[x].dirty
        invariant |old(disk)| <= |disk|
        invariant forall x :: 0 <= x < |old(disk)| && !(x in old(pages) && old(pages)[x].dirty) ==> disk[x] == old(disk)[x]
        invariant old(Clean(pages, disk)) ==> Clean(pages, disk) && SameContent(old(pages), old(disk), pages, disk)
        decreases |dirty|
      {
        var id :| id in dirty;
        ghost var pages0, disk0 := pages, disk;
        FlushPage(id);
        dirty := dirty - {id};
        if old(Clean(pages, disk)) {
          ContentTransitive(old(pages), old(disk), pages0, disk0, pages, disk);
        }
      }
    }

    method EvictIfNeeded()
      requires Valid()
      modifies this`pages, this`disk, this`lru
      ensures Valid() && OnlySaved(old(pages), old(disk), disk) && StillCached(old(pages), pages)
      ensures old(Clean(pages, disk)) ==> Clean(pages, disk) && SameContent(old(pages), old(disk), pages, disk)
      ensures var full := |old(pages)| > capacity && old(lru) != [];
              && pages.Keys == old(pages).Keys - (if full then {old(lru)[0]} else {})
              && lru == (if full then old(lru)[1..] else old(lru))
    {
      if |pages| > capacity {
        if lru != [] {
          var id := lru[0];
          lru := lru[1..];
          assert id !in lru by { assert old(lru) == [id] + lru; }
          FlushPage(id);
          ghost var pages0 := pages;
          pages := pages - {id};
          if old(Clean(pages, disk)) {
            DropKeeps(pages0, disk, id);
            ContentTransitive(old(pages), old(disk), pages0, disk, pages, disk);
          }
        }
      }
    }
  }

  lemma ContentTransitive(p: map<PageId, Page>, d: seq<Data>, p': map<PageId, Page>, d': seq<Data>,
                          p'': map<PageId, Page>, d'': seq<Data>)
    requires SameContent(p, d, p', d') && SameContent(p', d', p'', d'')
    ensures SameContent(p, d, p'', d'')
  {
    forall id
      ensures Look(p'', d'', id) == Look(p, d, id) || (Look(p, d, id) == None && Look(p'', d'', id) == Some(ZeroPage()))
    {
      assert Look(p', d', id) == Look(p, d, id) || (Look(p, d, id) == None && Look(p', d', id) == Some(ZeroPage()));
    }
  }
}
