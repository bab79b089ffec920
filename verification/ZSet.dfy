/**
 The sorted set: a map from names to scores beside a vector ordered by score and name.

 Add and Remove are as written. Remove looks the entry up with a comparator that never answers
 "equal", so the search never finds it and the vector keeps it. AddIntended and RemoveIntended take
 the position that the search ends at instead. Scores are real numbers.
 */
module ZSet {
  import opened Basics
  import opened Bytes
  import opened Keys

  type Name = seq<byte>

  datatype Entry = Entry(name: Name, score: real)

  /** 2^-52. */
  const EPSILON: real := 1.0 / 4503599627370496.0

  // ---- The order ----

  predicate Less(a: Entry, b: Entry) {
    if a.score != b.score then a.score < b.score else Lex(a.name, b.name)
  }

  lemma {:induction false} LexIrreflexive(a: Name)
    ensures !Lex(a, a)
  {
    if a != [] {
      LexIrreflexive(a[1..]);
    }
  }

  lemma {:induction false} LexTotal(a: Name, b: Name)
    ensures a == b || Lex(a, b) || Lex(b, a)
  {
    if a != [] && b != [] && a[0] == b[0] {
      LexTotal(a[1..], b[1..]);
      assert a == [a[0]] + a[1..] && b == [b[0]] + b[1..];
    }
  }

  lemma {:induction false} LexTransitive(a: Name, b: Name, c: Name)
    requires Lex(a, b) && Lex(b, c)
    ensures Lex(a, c)
  {
    if a != [] && a[0] == b[0] == c[0] {
      LexTransitive(a[1..], b[1..], c[1..]);
    }
  }

  /** A strict total order: lower scores first, and the lesser name first among equal scores. */
  lemma LessTotal(a: Entry, b: Entry)
    ensures a.score < b.score ==> Less(a, b)
    ensures a.score == b.score ==> (Less(a, b) <==> Lex(a.name, b.name))
    ensures a == b || Less(a, b) || Less(b, a)
    ensures !(Less(a, b) && Less(b, a)) && !Less(a, a)
  {
    LexTotal(a.name, b.name);
    LexIrreflexive(a.name);
    if Lex(a.name, b.name) && Lex(b.name, a.name) {
      LexTransitive(a.name, b.name, a.name);
    }
  }

  lemma LessTransitive(a: Entry, b: Entry, c: Entry)
    requires Less(a, b) && Less(b, c)
    ensures Less(a, c)
  {
    if a.score == b.score == c.score {
      LexTransitive(a.name, b.name, c.name);
    }
  }

  /** An entry not after `b` comes before whatever `b` comes before. */
  lemma NotAfter(a: Entry, b: Entry, c: Entry)
    requires !Less(b, a) && Less(b, c)
    ensures Less(a, c)
  {
    LessTotal(a, b);
    if a != b { LessTransitive(a, b, c); }
  }

  // ---- The vector ----

  /** No entry comes before an earlier one. */
  ghost predicate InOrder(s: seq<Entry>) {
    forall i, j :: 0 <= i < j < |s| ==> !Less(s[j], s[i])
  }

  ghost predicate StrictlySorted(s: seq<Entry>) {
    forall i, j :: 0 <= i < j < |s| ==> Less(s[i], s[j])
  }

  ghost predicate Bound(s: seq<Entry>, key: Entry, pos: nat) {
    && pos <= |s|
    && (forall i :: 0 <= i < pos ==> Less(s[i], key))
    && (forall i :: pos <= i < |s| ==> !Less(s[i], key))
  }

  datatype Search = Found(at: nat) | Missing(at: nat)

  /** Binary search with the comparator of the source, which answers only Less or Greater. */
  method BinarySearch(s: seq<Entry>, key: Entry) returns (r: Search)
    requires InOrder(s)
    ensures r.Missing? && Bound(s, key, r.at)
  {
    var left, right := 0, |s|;
    while left < right
      invariant left <= right <= |s|
      invariant forall i :: 0 <= i < left ==> Less(s[i], key)
      invariant forall i :: right <= i < |s| ==> !Less(s[i], key)
    {
      var mid := left + (right - left) / 2;
      if Less(s[mid], key) {
        forall i | 0 <= i < mid
          ensures Less(s[i], key)
        {
          NotAfter(s[i], s[mid], key);
        }
        left := mid + 1;
      } else {
        forall i | mid < i < |s|
          ensures !Less(s[i], key)
        {
          if Less(s[i], key) { NotAfter(s[mid], s[i], key); }
        }
        right := mid;
      }
    }
    return Missing(left);
  }

  function Inserted(s: seq<Entry>, pos: nat, e: Entry): seq<Entry>
    requires pos <= |s|
  {
    s[..pos] + [e] + s[pos..]
  }

  lemma InsertedInOrder(s: seq<Entry>, e: Entry, pos: nat)
    requires InOrder(s) && Bound(s, e, pos)
    ensures InOrder(Inserted(s, pos, e))
  {
    forall i | 0 <= i < pos
      ensures !Less(e, s[i])
    {
      LessTotal(e, s[i]);
    }
  }

  lemma InsertedMembers(s: seq<Entry>, e: Entry, pos: nat)
    requires pos <= |s|
    ensures multiset(Inserted(s, pos, e)) == multiset(s) + multiset{e}
    ensures forall x :: x in Inserted(s, pos, e) <==> x in s || x == e
  {
    var t := Inserted(s, pos, e);
    assert s == s[..pos] + s[pos..];
    assert multiset(t) == multiset(s[..pos]) + multiset{e} + multiset(s[pos..]);
    assert forall x :: x in t <==> x in multiset(t);
    assert forall x :: x in s <==> x in multiset(s);
  }

  lemma InsertedSorted(s: seq<Entry>, e: Entry, pos: nat)
    requires StrictlySorted(s) && Bound(s, e, pos) && e !in s
    ensures StrictlySorted(Inserted(s, pos, e))
  {
    forall i | pos <= i < |s|
      ensures Less(e, s[i])
    {
      LessTotal(e, s[i]);
    }
  }

  lemma SortedInOrder(s: seq<Entry>)
    requires StrictlySorted(s)
    ensures InOrder(s)
  {
    forall i, j | 0 <= i < j < |s|
      ensures !Less(s[j], s[i])
    {
      LessTotal(s[i], s[j]);
    }
  }

  // ---- The window of a query ----

  function Clamp(pos: int, lo: nat): nat {
    if pos < lo then lo else pos
  }

  /** From `pos` shifted by `offset`, at most `limit` entries. */
  function Window(s: seq<Entry>, pos: nat, offset: int, limit: int): seq<Entry> {
    var from := Clamp(pos + offset, 0);
    if limit <= 0 || from >= |s| then []
    else if from + limit < |s| then s[from..from + limit]
    else s[from..]
  }

  lemma WindowAt(s: seq<Entry>, pos: nat, offset: int, limit: int)
    ensures var from, w := if pos + offset < 0 then 0 else pos + offset, Window(s, pos, offset, limit);
            && |w| == (if limit <= 0 || from >= |s| then 0 else Min(limit, |s| - from))
            && forall i :: 0 <= i < |w| ==> w[i] == s[from + i]
  {
  }

  /** Scores never fall along a window, and without going back none is below the key's. */
  lemma WindowInOrder(s: seq<Entry>, key: Entry, pos: nat, offset: int, limit: int)
    requires InOrder(s) && Bound(s, key, pos)
    ensures var w := Window(s, pos, offset, limit);
            && (forall i, j :: 0 <= i < j < |w| ==> w[i].score <= w[j].score)
            && (offset >= 0 ==> forall i :: 0 <= i < |w| ==>
                  w[i].score > key.score || (w[i].score == key.score && !Lex(w[i].name, key.name)))
  {
    WindowAt(s, pos, offset, limit);
  }

  function First<T>(s: seq<T>, n: nat): seq<T> {
    if n < |s| then s[..n] else s
  }

  function Skip<T>(s: seq<T>, n: nat): seq<T> {
    if n < |s| then s[n..] else []
  }

  /** An offset skips that many of the entries from `pos` on, or goes back over as many of those before
      it as there are. */
  lemma OffsetMoves(s: seq<Entry>, pos: nat, k: int, limit: nat)
    requires pos <= |s| && k >= 0
    ensures Window(s, pos, k, limit) == First(Skip(s[pos..], k), limit)
    ensures Window(s, pos, -k, limit) == First(s[pos - Min(k, pos)..], limit)
  {
  }

  /** The vector is the list of the map's entries in strict order. */
  ghost predicate Indexes(s: seq<Entry>, byName: map<Name, real>) {
    && StrictlySorted(s)
    && (forall e :: e in s ==> e.name in byName && byName[e.name] == e.score)
    && (forall name :: name in byName ==> Entry(name, byName[name]) in s)
  }

  /** There is only one such list, so what a query returns is decided by the map. */
  lemma {:induction false} OneIndex(s: seq<Entry>, t: seq<Entry>)
    requires StrictlySorted(s) && StrictlySorted(t) && forall e :: e in s <==> e in t
    ensures s == t
  {
    if s != [] {
      assert s[0] in t;
      var i :| 0 <= i < |t| && t[i] == s[0];
      assert t[0] in s;
      var j :| 0 <= j < |s| && s[j] == t[0];
      LessTotal(s[0], t[0]);
      assert s[0] == t[0];
      forall e
        ensures e in s[1..] <==> e in t[1..]
      {
        TailMember(s, e);
        TailMember(t, e);
      }
      OneIndex(s[1..], t[1..]);
    } else if t != [] {
      NonEmptyHas(t);
    }
  }

  lemma TailMember(s: seq<Entry>, e: Entry)
    requires StrictlySorted(s) && s != []
    ensures e in s[1..] <==> e in s && e != s[0]
  {
    LessTotal(e, e);
    if e in s && e != s[0] {
      var i :| 0 <= i < |s| && s[i] == e;
      assert s[1..][i - 1] == e;
    }
  }

  lemma NonEmptyHas(t: seq<Entry>)
    requires t != []
    ensures exists e :: e in t
  {
    assert t[0] in t;
  }

  lemma AtOrAfter(s: seq<Entry>, key: Entry, pos: nat, x: Entry) returns (j: nat)
    requires Bound(s, key, pos) && x in s && !Less(x, key)
    ensures pos <= j < |s| && s[j] == x
  {
    j :| 0 <= j < |s| && s[j] == x;
  }

  lemma WindowReaches(s: seq<Entry>, pos: nat, limit: nat, j: nat)
    requires pos <= j < |s|
    ensures var w := Window(s, pos, 0, limit); if j < pos + |w| then s[j] in w else |w| == limit
  {
    var w := Window(s, pos, 0, limit);
    if j < pos + |w| {
      assert w[j - pos] == s[j];
    }
  }

  /** A query without offset returns the first `limit` entries that do not come before the key. */
  lemma QueryFromKey(s: seq<Entry>, key: Entry, pos: nat, limit: nat, x: Entry)
    requires StrictlySorted(s) && Bound(s, key, pos)
    ensures var w := Window(s, pos, 0, limit);
            && (x in w ==> x in s && !Less(x, key))
            && (x in s && !Less(x, key) && x !in w ==> |w| == limit && forall e :: e in w ==> Less(e, x))
  {
    var w := Window(s, pos, 0, limit);
    if x in w {
      var i :| 0 <= i < |w| && w[i] == x;
      assert s[pos + i] == x;
    } else if x in s && !Less(x, key) {
      var j := AtOrAfter(s, key, pos, x);
      WindowReaches(s, pos, limit, j);
      forall e | e in w
        ensures Less(e, x)
      {
        var i :| 0 <= i < |w| && w[i] == e;
        assert s[pos + i] == e;
      }
    }
  }

  class ZSet {
    var byName: map<Name, real>
    var sorted: seq<Entry>

    /** How many times Remove found the name it was given. */
    ghost var removals: nat

    /** What every run of Add and Remove as written keeps: the vector holds every entry ever
        added, so it is longer than the map by the number of removals. */
    ghost predicate Valid()
      reads this
    {
      && InOrder(sorted)
      && (forall name :: name in byName ==> Entry(name, byName[name]) in sorted)
      && |sorted| == |byName| + removals
      && (removals == 0 ==> Indexes(sorted, byName))
    }

    constructor ()
      ensures Valid() && Indexes(sorted, byName) && byName == map[] && removals == 0
    {
      byName, sorted, removals := map[], [], 0;
    }

    method Add(name: Name, score: real) returns (added: bool)
      requires Valid()
      modifies this
      ensures Valid()
      ensures added <==> !(name in old(byName) && -EPSILON < old(byName)[name] - score < EPSILON)
      ensures byName == if added then old(byName)[name := score] else old(byName)
      ensures multiset(sorted) == if added then multiset(old(sorted)) + multiset{Entry(name, score)} else multiset(old(sorted))
      ensures removals == old(removals) + if added && name in old(byName) then 1 else 0
    {
      if name in byName {
        if Close(byName[name], score) {
          return false;
        }
        var removed := Remove(name);
      }
      InsertEntry(name, score);
      return true;
    }

    method InsertEntry(name: Name, score: real)
      requires Valid() && name !in byName
      modifies this`byName, this`sorted
      ensures Valid() && byName == old(byName)[name := score]
      ensures multiset(sorted) == multiset(old(sorted)) + multiset{Entry(name, score)}
    {
      var e := Entry(name, score);
      var found := BinarySearch(sorted, e);
      InsertedInOrder(sorted, e, found.at);
      InsertedMembers(sorted, e, found.at);
      if removals == 0 { InsertedSorted(sorted, e, found.at); }
      byName := byName[name := score];
      sorted := Inserted(sorted, found.at, e);
    }

    method Remove(name: Name) returns (removed: bool)
      requires Valid()
      modifies this
      ensures Valid()
      ensures removed <==> name in old(byName)
      ensures byName == old(byName) - {name} && sorted == old(sorted)
      ensures removals == old(removals) + if removed then 1 else 0
    {
      if name !in byName {
        return false;
      }
      var key := Entry(name, byName[name]);
      byName := byName - {name};
      removals := removals + 1;
      var found := BinarySearch(sorted, key);
      if found.Found? {
        // Only here does the source take the entry out of the vector.
        assert false;
      }
      removed := true;
    }

    /** So the vector indexes the map exactly as long as nothing was ever removed or re-scored. */
    lemma IndexedIffNothingRemoved()
      requires Valid()
      ensures Indexes(sorted, byName) <==> removals == 0
    {
      if Indexes(sorted, byName) {
        IndexSize(sorted, byName);
      }
    }

    /** With `n` entries before the key, the query starts at entry `n + offset`, but not before the
        first, and gives as many as there are up to the limit. */
    method Query(minScore: real, minName: Name, offset: int, limit: int) returns (r: seq<Entry>)
      requires InOrder(sorted)
      ensures forall n: nat :: Bound(sorted, Entry(minName, minScore), n) ==>
                var from := if n + offset < 0 then 0 else n + offset;
                && |r| == (if limit <= 0 || from >= |sorted| then 0 else Min(limit, |sorted| - from))
                && forall i :: 0 <= i < |r| ==> r[i] == sorted[from + i]
      ensures forall n :: Bound(sorted, Entry(minName, minScore), n) ==> r == Window(sorted, n, offset, limit)
      ensures forall i, j :: 0 <= i < j < |r| ==> r[i].score <= r[j].score
      ensures offset >= 0 ==> forall i :: 0 <= i < |r| ==>
                r[i].score > minScore || (r[i].score == minScore && !Lex(r[i].name, minName))
    {
      var key := Entry(minName, minScore);
      var found := BinarySearch(sorted, key);
      forall pos | Bound(sorted, key, pos)
        ensures pos == found.at
      {
        OneBound(sorted, key, pos, found.at);
      }
      r := QueryAt(found.at, offset, limit);
      WindowAt(sorted, found.at, offset, limit);
      WindowInOrder(sorted, key, found.at, offset, limit);
    }

    /** The window of a query whose key belongs at `at`. */
    method QueryAt(at: nat, offset: int, limit: int) returns (r: seq<Entry>)
      ensures r == Window(sorted, at, offset, limit)
    {
      if limit <= 0 {
        return [];
      }
      var pos := Clamp(at + offset, 0);
      var end := if pos + limit < |sorted| then pos + limit else |sorted|;
      if pos >= end {
        return [];
      }
      return sorted[pos..end];
    }

    // ---- The intended removal ----

    method AddIntended(name: Name, score: real) returns (added: bool)
      requires Valid() && removals == 0
      modifies this
      ensures Valid() && removals == 0 && Indexes(sorted, byName)
      ensures added <==> !(name in old(byName) && -EPSILON < old(byName)[name] - score < EPSILON)
      ensures byName == if added then old(byName)[name := score] else old(byName)
    {
      added := true;
      if name !in byName {
        InsertEntry(name, score);
      } else if Close(byName[name], score) {
        added := false;
      } else {
        ghost var was := byName;
        var removed := RemoveIntended(name);
        assert byName[name := score] == was[name := score];
        InsertEntry(name, score);
      }
    }

    method RemoveIntended(name: Name) returns (removed: bool)
      requires Valid() && removals == 0
      modifies this
      ensures Valid() && removals == 0 && Indexes(sorted, byName)
      ensures removed <==> name in old(byName)
      ensures byName == old(byName) - {name}
    {
      if name !in byName {
        return false;
      }
      var key := Entry(name, byName[name]);
      var found := BinarySearch(sorted, key);
      BoundFinds(sorted, key, found.at);
      RemovedIndex(sorted, byName, found.at);
      byName := byName - {name};
      if found.at < |sorted| && sorted[found.at].name == name {
        sorted := sorted[..found.at] + sorted[found.at + 1..];
      }
      IndexSize(sorted, byName);
      SortedInOrder(sorted);
      removed := true;
    }
  }

  predicate Close(previous: real, score: real) {
    var d := previous - score;
    (if d < 0.0 then -d else d) < EPSILON
  }

  lemma NoLowerBound(s: seq<Entry>, key: Entry, p: nat, q: nat)
    requires Bound(s, key, p) && q < p
    ensures !Bound(s, key, q)
  {
    assert Less(s[q], key);
  }

  lemma OneBound(s: seq<Entry>, key: Entry, p: nat, q: nat)
    requires Bound(s, key, p) && Bound(s, key, q)
    ensures p == q
  {
    if p < q {
      NoLowerBound(s, key, q, p);
    } else if q < p {
      NoLowerBound(s, key, p, q);
    }
  }

  lemma BoundFinds(s: seq<Entry>, key: Entry, pos: nat)
    requires StrictlySorted(s) && key in s && Bound(s, key, pos)
    ensures pos < |s| && s[pos] == key
  {
    var i :| 0 <= i < |s| && s[i] == key;
    forall j | i <= j < |s|
      ensures !Less(s[j], key)
    {
      LessTotal(key, s[j]);
    }
    OneBound(s, key, pos, i);
  }

  lemma RemovedIndex(s: seq<Entry>, byName: map<Name, real>, pos: nat)
    requires Indexes(s, byName) && pos < |s|
    ensures Indexes(s[..pos] + s[pos + 1..], byName - {s[pos].name})
  {
    var t, name := s[..pos] + s[pos + 1..], s[pos].name;
    forall i | 0 <= i < |t|
      ensures t[i].name != name && t[i] in s
    {
      var k := if i < pos then i else i + 1;
      assert t[i] == s[k];
      if t[i].name == name {
        assert s[k] in s && s[pos] in s;
        assert s[k] == s[pos];
        LessTotal(s[k], s[pos]);
      }
    }
    forall n | n in byName - {name}
      ensures Entry(n, byName[n]) in t
    {
      var i :| 0 <= i < |s| && s[i] == Entry(n, byName[n]);
      assert t[if i < pos then i else i - 1] == s[i];
    }
  }

  lemma SizeWithout(m: map<Name, real>, name: Name)
    requires name in m
    ensures |m - {name}| == |m| - 1
  {
    assert m == (m - {name})[name := m[name]];
  }

  /** An index has one entry for each name. */
  lemma {:induction false} IndexSize(s: seq<Entry>, byName: map<Name, real>)
    requires Indexes(s, byName)
    ensures |s| == |byName|
  {
    if s == [] {
      assert byName == map[];
    } else {
      var name := s[0].name;
      RemovedIndex(s, byName, 0);
      assert s[..0] + s[1..] == s[1..];
      IndexSize(s[1..], byName - {name});
      assert s[0] in s;
      SizeWithout(byName, name);
    }
  }
}
