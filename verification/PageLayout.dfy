/**
 The bytes of one B-tree page: what the header reads back as, and which slots lie inside the page.
 The tree modules use node records instead, because of what is shown here.
 */
module PageLayout {
  import opened Bytes
  import opened BTreeModel
  import opened Keys

  const PAGE_SIZE: nat := 4096
  const HEADER_SIZE: nat := 32

  datatype Header = Header(isLeaf: bool, numKeys: nat, parent: nat, next: nat)

  predicate InWidth(h: Header) {
    h.numKeys < U32 && h.parent < U64 && h.next < U64
  }

  function WriteSlice(data: seq<byte>, offset: nat, bytes: seq<byte>): (data': seq<byte>)
    requires offset + |bytes| <= |data|
    ensures |data'| == |data|
  {
    data[..offset] + bytes + data[offset + |bytes|..]
  }

  /** Four writes, in the order of the source; the second overlaps the first. */
  function Save(h: Header, data: seq<byte>): (data': seq<byte>)
    requires InWidth(h) && |data| == PAGE_SIZE
    ensures |data'| == PAGE_SIZE
  {
    var d := WriteSlice(data, 0, Le32(if h.isLeaf then 1 else 0));
    var d := WriteSlice(d, 1, Le32(h.numKeys));
    var d := WriteSlice(d, 5, Le64(h.parent));
    WriteSlice(d, 13, Le64(h.next))
  }

  ghost function Load(data: seq<byte>): Header
    requires |data| == PAGE_SIZE
  {
    Header(Read32(data[0..4]) == 1, Read32(data[1..5]), Read64(data[5..13]), Read64(data[13..21]))
  }

  lemma SavedBytes(h: Header, data: seq<byte>)
    requires InWidth(h) && |data| == PAGE_SIZE
    ensures var d := Save(h, data);
            && d[0] == (if h.isLeaf then 1 else 0)
            && d[1..5] == Le32(h.numKeys) && d[5..13] == Le64(h.parent) && d[13..21] == Le64(h.next)
  {
    var d1 := WriteSlice(data, 0, Le32(if h.isLeaf then 1 else 0));
    var d2 := WriteSlice(d1, 1, Le32(h.numKeys));
    var d3 := WriteSlice(d2, 5, Le64(h.parent));
    var d4 := WriteSlice(d3, 13, Le64(h.next));
    assert d1[0] == Le32(if h.isLeaf then 1 else 0)[0];
    assert d2[1..5] == Le32(h.numKeys) && d2[0] == d1[0];
    assert d3[5..13] == Le64(h.parent) && d3[1..5] == d2[1..5] && d3[0] == d2[0];
    assert d4[13..21] == Le64(h.next) && d4[5..13] == d3[5..13] && d4[1..5] == d3[1..5] && d4[0] == d3[0];
  }

  /** A header reads back as it was saved exactly when the page is not a leaf or the three low
      bytes of its key count are zero: any leaf with 1 to 2^24 - 1 keys reads back as an inner page. */
  lemma HeaderRoundTrip(h: Header, data: seq<byte>)
    requires InWidth(h) && |data| == PAGE_SIZE
    ensures Load(Save(h, data)) == h <==> !h.isLeaf || h.numKeys % 0x100_0000 == 0
    ensures Load(Save(h, data)) == h.(isLeaf := h.isLeaf && h.numKeys % 0x100_0000 == 0)
  {
    var d := Save(h, data);
    SavedBytes(h, data);
    var n := Le32(h.numKeys);
    assert d[0..4] == [d[0]] + n[..3];
    assert d[0..4][1] == n[0] && d[0..4][2] == n[1] && d[0..4][3] == n[2];
    Four(d[0..4]);
    Four(n);
    LowBytes(n[0] as int, n[1] as int, n[2] as int, n[3] as int);
  }

  lemma Four(b: seq<byte>)
    requires |b| == 4
    ensures Read(b) == b[0] as int + 256 * (b[1] as int) + 0x1_0000 * (b[2] as int) + 0x100_0000 * (b[3] as int)
  {
    FromLeReads(b);
    assert b[1..][1..] == b[2..] && b[2..][1..] == b[3..] && b[3..][1..] == [];
    assert FromLe(b[1..]) == b[1] as int + 256 * FromLe(b[2..]);
    assert FromLe(b[2..]) == b[2] as int + 256 * FromLe(b[3..]);
    assert FromLe(b[3..]) == b[3] as int + 256 * FromLe([]);
  }

  lemma LowBytes(a: int, b: int, c: int, d: int)
    requires 0 <= a < 256 && 0 <= b < 256 && 0 <= c < 256
    ensures (a + 256 * b + 0x1_0000 * c + 0x100_0000 * d) % 0x100_0000 == 0 <==> a == 0 && b == 0 && c == 0
  {
    var low := a + 256 * b + 0x1_0000 * c;
    assert (low + 0x100_0000 * d) % 0x100_0000 == low;
  }

  // ---- Slots ----

  function KeyOffset(index: nat): nat {
    HEADER_SIZE + index * (KEY_SIZE + VALUE_SIZE)
  }

  function ChildOffset(index: nat): nat {
    HEADER_SIZE + ORDER * (KEY_SIZE + VALUE_SIZE) + index * 8
  }

  /** Only the first 42 of the 64 slots, and no child id at all, lie inside a page. */
  lemma SlotsInPage(index: nat)
    ensures KeyOffset(index) + KEY_SIZE + VALUE_SIZE <= PAGE_SIZE <==> index < 42
    ensures ChildOffset(index) + 8 > PAGE_SIZE
  {
  }

  /** So a leaf that has been put into reads back as an inner page with as many keys, whose child ids
      all lie outside the page: every descent through it reads out of bounds. */
  lemma LeafTurnsInner(h: Header, data: seq<byte>)
    requires InWidth(h) && |data| == PAGE_SIZE && h.isLeaf && 0 < h.numKeys < ORDER
    ensures var h' := Load(Save(h, data));
            !h'.isLeaf && h'.numKeys == h.numKeys && h'.parent == h.parent && h'.next == h.next
    ensures forall index: nat :: ChildOffset(index) + 8 > |Save(h, data)|
  {
    HeaderRoundTrip(h, data);
    assert h.numKeys % 0x100_0000 == h.numKeys;
  }

  /** An empty leaf, and so a new database, does read back. */
  lemma EmptyLeafReadsBack(h: Header, data: seq<byte>)
    requires InWidth(h) && |data| == PAGE_SIZE && h.isLeaf && h.numKeys == 0
    ensures Load(Save(h, data)) == h
  {
    HeaderRoundTrip(h, data);
  }

  /** A slot reads back as the bytes written exactly when they fill it. */
  lemma SlotRoundTrip(width: nat, bytes: seq<byte>)
    ensures Slotted(width, bytes) == bytes <==> |bytes| == width
  {
    assert |Slotted(width, bytes)| == width;
    if |bytes| == width {
      assert bytes[..width] == bytes;
    }
  }
}
