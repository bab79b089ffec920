/** The loops that move slots about inside one page. */
module Slots {
  import opened Keys

  ghost predicate Sorted(keys: seq<Key>) {
    forall i, j :: 0 <= i < j < |keys| ==> keys[i] < keys[j]
  }

  function InsertAt<T>(xs: seq<T>, i: nat, x: T): seq<T>
    requires i <= |xs|
  {
    xs[..i] + [x] + xs[i..]
  }

  function RemoveAt<T>(xs: seq<T>, i: nat): seq<T>
    requires i < |xs|
  {
    xs[..i] + xs[i + 1..]
  }

  /** Slots from `pos` on move up by one, last slot first, and `x` goes into the gap. */
  method ShiftIn<T>(xs: seq<T>, pos: nat, x: T) returns (ys: seq<T>)
    requires pos <= |xs|
    ensures ys == InsertAt(xs, pos, x)
  {
    ys := xs + [x];
    var i := |xs|;
    while pos < i
      invariant pos <= i <= |xs| && |ys| == |xs| + 1
      invariant forall j :: 0 <= j < i ==> ys[j] == xs[j]
      invariant forall j :: i < j <= |xs| ==> ys[j] == xs[j - 1]
    {
      i := i - 1;
      ys := ys[i + 1 := ys[i]];
    }
    ys := ys[pos := x];
  }

  /** Slots after `pos` move down by one over it. */
  method ShiftOut<T>(xs: seq<T>, pos: nat) returns (ys: seq<T>)
    requires pos < |xs|
    ensures ys == RemoveAt(xs, pos)
  {
    ys := xs;
    for i := pos to |xs| - 1
      invariant |ys| == |xs|
      invariant forall j :: 0 <= j < pos ==> ys[j] == xs[j]
      invariant forall j :: pos <= j < i ==> ys[j] == xs[j + 1]
      invariant forall j :: i <= j < |xs| ==> ys[j] == xs[j]
    {
      ys := ys[i := ys[i + 1]];
    }
    ys := ys[..|xs| - 1];
  }

  /** Slots `from` up to `to` are copied one by one to the start of a new page. */
  method CopyOut<T>(xs: seq<T>, from: nat, to: nat) returns (ys: seq<T>)
    requires from <= to <= |xs|
    ensures ys == xs[from..to]
  {
    ys := [];
    for i := from to to
      invariant ys == xs[from..i]
    {
      ys := ys + [xs[i]];
    }
  }

  /** Where `key` is among the sorted keys of a leaf, or the slot where it would go. */
  method LeafSlot(keys: seq<Key>, key: Key) returns (found: bool, pos: nat)
    requires Sorted(keys)
    ensures found ==> pos < |keys| && keys[pos] == key
    ensures !found ==> pos <= |keys|
                       && (forall j :: 0 <= j < pos ==> keys[j] < key)
                       && (forall j :: pos <= j < |keys| ==> key < keys[j])
  {
    found, pos := false, 0;
    for i := 0 to |keys|
      invariant !found && pos <= i
      invariant forall j :: 0 <= j < pos ==> keys[j] < key
      invariant forall j :: pos <= j < i ==> key < keys[j]
    {
      if keys[i] == key {
        return true, i;
      }
      if key > keys[i] {
        pos := i + 1;
      }
    }
  }

  /** The slot of an inner page where a new separator goes. */
  method SlotFor(keys: seq<Key>, key: Key) returns (pos: nat)
    requires Sorted(keys)
    ensures pos <= |keys|
    ensures forall j :: 0 <= j < pos ==> keys[j] < key
    ensures forall j :: pos <= j < |keys| ==> key <= keys[j]
  {
    pos := 0;
    for i := 0 to |keys|
      invariant pos <= i
      invariant forall j :: 0 <= j < pos ==> keys[j] < key
      invariant forall j :: pos <= j < i ==> key <= keys[j]
    {
      if key > keys[i] {
        pos := i + 1;
      }
    }
  }

  /** The first slot that holds `key`. */
  method FindKey(keys: seq<Key>, key: Key) returns (found: bool, pos: nat)
    ensures found <==> key in keys
    ensures found ==> pos < |keys| && keys[pos] == key
  {
    found, pos := false, 0;
    for i := 0 to |keys|
      invariant !found && key !in keys[..i]
    {
      if keys[i] == key {
        return true, i;
      }
    }
  }
}
