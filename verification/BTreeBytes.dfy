/** The B-tree as its callers see it: keys and values are byte strings, keys compared byte by byte. */
module BTreeBytes {
  import opened Basics
  import opened Bytes
  import opened Keys
  import opened BTreeModel
  import opened BTreeReads
  import opened BTree
  import opened PageLayout
  import opened Slots

  /** The map from byte strings that a map from keys stands for. */
  ghost function ByteMap(m: map<Key, Value>): map<seq<byte>, Value> {
    forall j, k | j in m && k in m && BytesOf(j) == BytesOf(k)
      ensures j == k
    {
      OneWriting(j, BytesOf(k));
    }
    map k | k in m :: BytesOf(k) := m[k]
  }

  lemma ByteMapAt(m: map<Key, Value>, bytes: seq<byte>)
    ensures bytes in ByteMap(m) <==> |bytes| == KEY_SIZE && KeyOf(bytes) in m
    ensures bytes in ByteMap(m) ==> ByteMap(m)[bytes] == m[KeyOf(bytes)]
  {
    if |bytes| == KEY_SIZE {
      OneWriting(KeyOf(bytes), bytes);
    }
  }

  lemma ByteMapPut(m: map<Key, Value>, bytes: seq<byte>, value: Value)
    requires |bytes| == KEY_SIZE
    ensures ByteMap(m[KeyOf(bytes) := value]) == ByteMap(m)[bytes := value]
  {
    var left, right := ByteMap(m[KeyOf(bytes) := value]), ByteMap(m)[bytes := value];
    forall b: seq<byte>
      ensures (b in left <==> b in right) && (b in left ==> left[b] == right[b])
    {
      ByteMapAt(m[KeyOf(bytes) := value], b);
      ByteMapAt(m, b);
      if |b| == KEY_SIZE { LexIsNumeric(b, bytes); }
    }
  }

  lemma ByteMapDelete(m: map<Key, Value>, bytes: seq<byte>)
    requires |bytes| == KEY_SIZE
    ensures ByteMap(m - {KeyOf(bytes)}) == ByteMap(m) - {bytes}
  {
    var left, right := ByteMap(m - {KeyOf(bytes)}), ByteMap(m) - {bytes};
    forall b: seq<byte>
      ensures (b in left <==> b in right) && (b in left ==> left[b] == right[b])
    {
      ByteMapAt(m - {KeyOf(bytes)}, b);
      ByteMapAt(m, b);
      if |b| == KEY_SIZE { LexIsNumeric(b, bytes); }
    }
  }

  /** Get compares raw byte strings, so a key of another length than 32 is never found. */
  method GetBytes(t: BTree, key: seq<byte>) returns (r: Option<Value>)
    requires t.Valid()
    ensures r == if key in ByteMap(t.contents) then Some(ByteMap(t.contents)[key]) else None
  {
    r := FindBytes(t, t.rootId, key);
  }

  method FindBytes(t: BTree, id: PageId, key: seq<byte>) returns (r: Option<Value>)
    requires Whole(t.S()) && id in t.pages
    requires |key| == KEY_SIZE ==> t.info[id].lo <= KeyOf(key) < t.info[id].hi
    ensures r == if key in ByteMap(t.contents) then Some(ByteMap(t.contents)[key]) else None
    decreases t.info[id].level
  {
    var node := t.pages[id];
    assert NodeOk(t.S(), 0, NoHole, id);
    if node.Leaf? {
      ByteMapAt(t.contents, key);
      var found, pos := SlotOfBytes(node.keys, key);
      return if found then Some(node.vals[pos]) else None;
    }
    var pos := ChildFor(node.keys, key);
    assert KidOk(t.S(), NoHole, id, pos);
    r := FindBytes(t, node.kids[pos], key);
  }

  /** The child to go down to: the one before the first separator above the key. */
  method ChildFor(keys: seq<Key>, key: seq<byte>) returns (pos: nat)
    ensures pos <= |keys|
    ensures |key| == KEY_SIZE ==> (pos < |keys| ==> KeyOf(key) < keys[pos]) && forall j :: 0 <= j < pos ==> keys[j] <= KeyOf(key)
  {
    for i := 0 to |keys|
      invariant |key| == KEY_SIZE ==> forall j :: 0 <= j < i ==> keys[j] <= KeyOf(key)
    {
      if |key| == KEY_SIZE { LexIsNumeric(key, BytesOf(keys[i])); }
      if Lex(key, BytesOf(keys[i])) {
        return i;
      }
    }
    return |keys|;
  }

  /** The search of a leaf, slot by slot. */
  method SlotOfBytes(keys: seq<Key>, key: seq<byte>) returns (found: bool, pos: nat)
    ensures found <==> |key| == KEY_SIZE && KeyOf(key) in keys
    ensures found ==> pos < |keys| && keys[pos] == KeyOf(key)
  {
    for i := 0 to |keys|
      invariant forall j :: 0 <= j < i ==> BytesOf(keys[j]) != key
    {
      if BytesOf(keys[i]) == key { return true, i; }
    }
    if |key| == KEY_SIZE { OneWriting(KeyOf(key), key); }
    return false, 0;
  }

  /** Whether a key finds its slot free: no leaf stores it, and no separator equals that of a key too
      short, which would go left of it. */
  ghost predicate SlotFree(s: State, key: seq<byte>) {
    var slot := KeyOf(Slotted(KEY_SIZE, key));
    slot !in s.contents && (|key| < KEY_SIZE ==> !IsSeparator(s, slot))
  }

  /** Put stores slots: key and value are cut off or padded. A key of another length lies next to the
      key of its slot in the order, so it takes that key's place if that is free. */
  method PutBytes(t: BTree, key: seq<byte>, value: seq<byte>)
    requires t.Valid()
    requires |key| == KEY_SIZE || SlotFree(t.S(), key)
    modifies t
    ensures t.Valid()
    ensures ByteMap(t.contents) == old(ByteMap(t.contents))[Slotted(KEY_SIZE, key) := Slotted(VALUE_SIZE, value)]
  {
    ByteMapPut(t.contents, Slotted(KEY_SIZE, key), Slotted(VALUE_SIZE, value));
    t.Put(KeyOf(Slotted(KEY_SIZE, key)), Slotted(VALUE_SIZE, value));
  }

  /** Past any separator but its slot, a key goes down the side where its slot does; a long one also
      past its slot. */
  lemma {:induction false} SameSide(sep: Key, key: seq<byte>)
    requires |key| >= KEY_SIZE || sep != KeyOf(Slotted(KEY_SIZE, key))
    ensures Lex(key, BytesOf(sep)) <==> KeyOf(Slotted(KEY_SIZE, key)) < sep
  {
    Bounds(BytesOf(sep), key);
  }

  /** Compared with any other stored key, a key of another length stands where its slot does. */
  lemma {:induction false} SlotStandsIn(k: seq<byte>, key: seq<byte>)
    requires |k| == KEY_SIZE && k != Slotted(KEY_SIZE, key)
    ensures Lex(key, k) <==> Lex(Slotted(KEY_SIZE, key), k)
    ensures Lex(k, key) <==> Lex(k, Slotted(KEY_SIZE, key))
  {
    Bounds(k, key);
    Bounds(k, Slotted(KEY_SIZE, key));
    LexIsNumeric(k, Slotted(KEY_SIZE, key));
    assert Slotted(KEY_SIZE, Slotted(KEY_SIZE, key)) == Slotted(KEY_SIZE, key);
  }

  /** When its slot is taken, a put of such a key does not find it and stores the slot again: no
      place in the leaf keeps the keys in strict order. */
  lemma SlotTwice(keys: seq<Key>, key: seq<byte>, pos: nat)
    requires |key| != KEY_SIZE && pos <= |keys| && KeyOf(Slotted(KEY_SIZE, key)) in keys
    ensures !Sorted(InsertAt(keys, pos, KeyOf(Slotted(KEY_SIZE, key))))
  {
    var k := KeyOf(Slotted(KEY_SIZE, key));
    var i :| 0 <= i < |keys| && keys[i] == k;
    var more := InsertAt(keys, pos, k);
    assert more[pos] == k && more[if i < pos then i else i + 1] == k;
  }

  /** What is put is got exactly under a key of 32 bytes, and as it was put if it is 64 bytes long. */
  lemma GotIfKeyFits(m: map<Key, Value>, key: seq<byte>, value: seq<byte>)
    ensures var m' := ByteMap(m)[Slotted(KEY_SIZE, key) := Slotted(VALUE_SIZE, value)];
            && (key in m' <==> |key| == KEY_SIZE)
            && (key in m' ==> (m'[key] == value <==> |value| == VALUE_SIZE))
  {
    ByteMapAt(m, key);
    SlotRoundTrip(KEY_SIZE, key);
    SlotRoundTrip(VALUE_SIZE, value);
  }

  lemma OtherLengthIsMissing(m: map<Key, Value>, key: seq<byte>)
    requires |key| != KEY_SIZE
    ensures key !in ByteMap(m) && ByteMap(m) - {key} == ByteMap(m)
  {
    ByteMapAt(m, key);
  }

  /** Delete compares raw byte strings too. */
  method DeleteBytes(t: BTree, key: seq<byte>) returns (found: bool)
    requires t.Valid()
    modifies t
    ensures t.Valid() && ByteMap(t.contents) == old(ByteMap(t.contents)) - {key}
    ensures found <==> key in old(ByteMap(t.contents))
  {
    if |key| == KEY_SIZE {
      ByteMapAt(t.contents, key);
      ByteMapDelete(t.contents, key);
      found := t.Delete(KeyOf(key));
    } else {
      found := DeleteOtherLength(t, key);
    }
  }

  /** No slot equals such a key, so the search of the leaf fails and only the commit is logged. */
  method DeleteOtherLength(t: BTree, key: seq<byte>) returns (found: bool)
    requires t.Valid() && |key| != KEY_SIZE
    modifies t
    ensures t.Valid() && t.contents == old(t.contents)
    ensures ByteMap(t.contents) == old(ByteMap(t.contents)) - {key}
    ensures found <==> key in old(ByteMap(t.contents))
  {
    OtherLengthIsMissing(t.contents, key);
    var r := GetBytes(t, key);
    found := r.Some?;
    t.CommitNothing();
  }

  /** Neither below `start` nor above `end`, in the order in which the source compares byte strings. */
  predicate LexBetween(start: seq<byte>, key: seq<byte>, end: seq<byte>) {
    !Lex(key, start) && !Lex(end, key)
  }

  function Spelled(results: seq<(Key, Value)>): (s: seq<(seq<byte>, Value)>)
    ensures |s| == |results|
    ensures forall i :: 0 <= i < |s| ==> s[i] == (BytesOf(results[i].0), results[i].1)
  {
    seq(|results|, i requires 0 <= i < |results| => (BytesOf(results[i].0), results[i].1))
  }

  /** Scan, for bounds of any length. */
  method ScanBytes(t: BTree, start: seq<byte>, end: seq<byte>) returns (results: seq<(seq<byte>, Value)>)
    requires t.Valid()
    ensures forall i, j :: 0 <= i < j < |results| ==> Lex(results[i].0, results[j].0)
    ensures forall key, value :: (key, value) in results
              <==> key in ByteMap(t.contents) && ByteMap(t.contents)[key] == value && LexBetween(start, key, end)
  {
    var found := t.Scan(LowBound(start), HighBound(end));
    results := Spelled(found);
    forall i, j | 0 <= i < j < |results|
      ensures Lex(results[i].0, results[j].0)
    {
      LexIsNumeric(results[i].0, results[j].0);
    }
    forall key, value
      ensures (key, value) in results
              <==> key in ByteMap(t.contents) && ByteMap(t.contents)[key] == value && LexBetween(start, key, end)
    {
      SpelledMember(found, t.contents, start, end, key, value);
    }
  }

  lemma SpelledMember(found: seq<(Key, Value)>, m: map<Key, Value>, start: seq<byte>, end: seq<byte>, key: seq<byte>, value: Value)
    requires Listing(found, m, 0, KEY_LIMIT, LowBound(start), HighBound(end))
    ensures (key, value) in Spelled(found)
            <==> key in ByteMap(m) && ByteMap(m)[key] == value && LexBetween(start, key, end)
  {
    ByteMapAt(m, key);
    if |key| == KEY_SIZE {
      var k := KeyOf(key);
      Bounds(key, start);
      Bounds(key, end);
      OneWriting(k, key);
      if (k, value) in found {
        var i :| 0 <= i < |found| && found[i] == (k, value);
        assert Spelled(found)[i] == (key, value);
      }
    }
    if (key, value) in Spelled(found) {
      var i :| 0 <= i < |found| && Spelled(found)[i] == (key, value);
      assert found[i] == (KeyOf(key), value);
    }
  }
}
