/** Removing occurrences of a value from a list, with the signed count that `lrem` takes. */
module Lists {
  import opened Basics

  function Occurrences<T(==)>(s: seq<T>, v: T): nat {
    if s == [] then 0 else (if s[0] == v then 1 else 0) + Occurrences(s[1..], v)
  }

  function Without<T(==)>(s: seq<T>, v: T): seq<T> {
    if s == [] then [] else if s[0] == v then Without(s[1..], v) else [s[0]] + Without(s[1..], v)
  }

  function Reverse<T>(s: seq<T>): (r: seq<T>)
    ensures |r| == |s|
  {
    if s == [] then [] else Reverse(s[1..]) + [s[0]]
  }

  /** The list without the first `n` occurrences of `v`. */
  function RemoveFirst<T(==)>(s: seq<T>, v: T, n: nat): seq<T> {
    if s == [] || n == 0 then s
    else if s[0] == v then RemoveFirst(s[1..], v, n - 1)
    else [s[0]] + RemoveFirst(s[1..], v, n)
  }

  /** The list without the last `n` occurrences of `v`. */
  function RemoveLast<T(==)>(s: seq<T>, v: T, n: nat): seq<T> {
    if s == [] || n == 0 then s
    else
      var last := |s| - 1;
      if s[last] == v then RemoveLast(s[..last], v, n - 1) else RemoveLast(s[..last], v, n) + [s[last]]
  }

  /** The least 64-bit integer, the only one whose negation is itself. */
  const LEAST: int := -0x8000_0000_0000_0000

  /** What `lrem` leaves: no occurrence for count 0, else all but the |count| first or last ones; the
      least count removes nothing. */
  function LRem<T(==)>(s: seq<T>, count: int, v: T): seq<T> {
    if count == LEAST then s
    else if count == 0 then Without(s, v)
    else if count > 0 then RemoveFirst(s, v, count)
    else RemoveLast(s, v, -count)
  }

  /** How many occurrences `lrem` is meant to remove. */
  function Quota<T(==)>(s: seq<T>, count: int, v: T): nat {
    var all := Occurrences(s, v);
    if count == 0 then all else Min(if count < 0 then -count else count, all)
  }

  // ---- Lemmas about the pieces ----

  lemma {:induction false} OccurrencesConcat<T>(a: seq<T>, b: seq<T>, v: T)
    ensures Occurrences(a + b, v) == Occurrences(a, v) + Occurrences(b, v)
  {
    if a == [] {
      assert a + b == b;
    } else {
      assert (a + b)[1..] == a[1..] + b;
      OccurrencesConcat(a[1..], b, v);
    }
  }

  lemma {:induction false} Occurs<T>(s: seq<T>, v: T)
    ensures Occurrences(s, v) > 0 <==> v in s
  {
    if s != [] {
      assert s == [s[0]] + s[1..];
      Occurs(s[1..], v);
    }
  }

  lemma {:induction false} WithoutConcat<T>(a: seq<T>, b: seq<T>, v: T)
    ensures Without(a + b, v) == Without(a, v) + Without(b, v)
  {
    if a == [] {
      assert a + b == b;
    } else {
      assert (a + b)[1..] == a[1..] + b;
      WithoutConcat(a[1..], b, v);
    }
  }

  lemma {:induction false} ReverseSnoc<T>(s: seq<T>, x: T)
    ensures Reverse(s + [x]) == [x] + Reverse(s)
  {
    if s != [] {
      assert (s + [x])[1..] == s[1..] + [x];
      ReverseSnoc(s[1..], x);
    }
  }

  lemma {:induction false} ReverseTwice<T>(s: seq<T>)
    ensures Reverse(Reverse(s)) == s
  {
    if s != [] {
      ReverseSnoc(Reverse(s[1..]), s[0]);
      ReverseTwice(s[1..]);
    }
  }

  /** Nothing but occurrences of `v` is dropped, and the rest keeps its order. */
  lemma {:induction false} WithoutLength<T>(s: seq<T>, v: T)
    ensures |Without(s, v)| + Occurrences(s, v) == |s|
    ensures v !in Without(s, v)
  {
    if s != [] {
      WithoutLength(s[1..], v);
    }
  }

  // ---- What is removed ----

  /** The first occurrences go: the list splits at a point before which the wanted number of
      occurrences lies, all of them are dropped there, and nothing is dropped after it. */
  lemma {:induction false} RemoveFirstSplits<T>(s: seq<T>, v: T, n: nat) returns (p: nat)
    ensures p <= |s|
    ensures RemoveFirst(s, v, n) == Without(s[..p], v) + s[p..]
    ensures Occurrences(s[..p], v) == Min(n, Occurrences(s, v))
  {
    if s == [] || n == 0 {
      p := 0;
      assert s[..0] == [] && s[0..] == s;
    } else {
      var q := RemoveFirstSplits(s[1..], v, if s[0] == v then n - 1 else n);
      p := q + 1;
      assert s[..p][1..] == s[1..][..q] && s[p..] == s[1..][q..] && s[..p][0] == s[0];
    }
  }

  /** Removing from the back is removing from the front of the reversed list. */
  lemma {:induction false} NegativeIsReverse<T>(s: seq<T>, v: T, n: nat)
    ensures RemoveLast(s, v, n) == Reverse(RemoveFirst(Reverse(s), v, n))
  {
    if s == [] {
    } else if n == 0 {
      ReverseTwice(s);
    } else {
      var last := |s| - 1;
      assert s == s[..last] + [s[last]];
      ReverseSnoc(s[..last], s[last]);
      assert Reverse(s)[1..] == Reverse(s[..last]);
      NegativeIsReverse(s[..last], v, if s[last] == v then n - 1 else n);
    }
  }

  /** The mirror image of RemoveFirstSplits. */
  lemma {:induction false} RemoveLastSplits<T>(s: seq<T>, v: T, n: nat) returns (p: nat)
    ensures p <= |s|
    ensures RemoveLast(s, v, n) == s[..p] + Without(s[p..], v)
    ensures Occurrences(s[p..], v) == Min(n, Occurrences(s, v))
  {
    if s == [] || n == 0 {
      p := |s|;
      assert s[..p] == s && s[p..] == [];
    } else {
      var last := |s| - 1;
      var n' := if s[last] == v then n - 1 else n;
      p := RemoveLastSplits(s[..last], v, n');
      var middle := s[..last][p..];
      assert s == s[..last] + [s[last]] && s[p..] == middle + [s[last]] && s[..last][..p] == s[..p];
      OccurrencesConcat(s[..last], [s[last]], v);
      OccurrencesConcat(middle, [s[last]], v);
      WithoutConcat(middle, [s[last]], v);
    }
  }

  lemma {:induction false} PartsWithout<T>(a: seq<T>, b: seq<T>, v: T)
    ensures |Without(a, v) + b| + Occurrences(a, v) == |a + b| && |a + Without(b, v)| + Occurrences(b, v) == |a + b|
    ensures Without(Without(a, v) + b, v) == Without(a + b, v) == Without(a + Without(b, v), v)
  {
    WithoutLength(a, v);
    WithoutLength(b, v);
    WithoutConcat(a, b, v);
    WithoutTwice(a, v);
    WithoutTwice(b, v);
    WithoutConcat(Without(a, v), b, v);
    WithoutConcat(a, Without(b, v), v);
  }

  /** The list is cut in two: all the removals are in one part, which loses every occurrence it has,
      and the other part is left untouched. */
  lemma LRemSplits<T>(s: seq<T>, count: int, v: T) returns (a: seq<T>, b: seq<T>)
    ensures s == a + b
    ensures count >= 0 ==> LRem(s, count, v) == Without(a, v) + b && Occurrences(a, v) == Quota(s, count, v)
    ensures count < 0 && count != LEAST ==> LRem(s, count, v) == a + Without(b, v) && Occurrences(b, v) == Quota(s, count, v)
  {
    if count == 0 {
      a, b := s, [];
    } else if count > 0 {
      var p := RemoveFirstSplits(s, v, count);
      a, b := s[..p], s[p..];
    } else {
      var p := RemoveLastSplits(s, v, -count);
      a, b := s[..p], s[p..];
    }
  }

  /** For every list and count, as many occurrences go as asked for and present, exactly unless the
      count is the least one and there is something to remove; everything else stays in order. */
  lemma {:induction false} LRemExact<T>(s: seq<T>, count: int, v: T)
    ensures |LRem(s, count, v)| + Quota(s, count, v) == |s| <==> count != LEAST || v !in s
    ensures Without(LRem(s, count, v), v) == Without(s, v)
    ensures |LRem(s, count, v)| == |s| <==> count == LEAST || v !in s
  {
    Occurs(s, v);
    if count != LEAST {
      var a, b := LRemSplits(s, count, v);
      PartsWithout(a, b, v);
    }
  }

  lemma {:induction false} WithoutTwice<T>(s: seq<T>, v: T)
    ensures Without(Without(s, v), v) == Without(s, v)
  {
    if s != [] {
      WithoutTwice(s[1..], v);
    }
  }

  lemma {:induction false} WithoutMember<T>(s: seq<T>, v: T, x: T)
    requires x in Without(s, v)
    ensures x in s
  {
    if s != [] && x in Without(s[1..], v) {
      WithoutMember(s[1..], v, x);
    }
  }

  /** Nothing is added. */
  lemma LRemMember<T>(s: seq<T>, count: int, v: T, x: T)
    requires x in LRem(s, count, v)
    ensures x in s
  {
    if count != LEAST {
      var a, b := LRemSplits(s, count, v);
      if x in Without(a, v) { WithoutMember(a, v, x); }
      if x in Without(b, v) { WithoutMember(b, v, x); }
    }
  }

  // ---- The loops ----

  /** One `retain` pass without a limit. */
  method RetainOthers<T(==)>(s: seq<T>, v: T) returns (kept: seq<T>)
    ensures kept == Without(s, v)
  {
    kept := [];
    for i := 0 to |s|
      invariant Without(s, v) == kept + Without(s[i..], v)
    {
      assert s[i..][1..] == s[i + 1..];
      if s[i] != v {
        kept := kept + [s[i]];
      }
    }
  }

  /** One `retain` pass that stops removing after `count` removals. */
  method RetainCounting<T(==)>(s: seq<T>, count: nat, v: T) returns (kept: seq<T>, removed: nat)
    ensures kept == RemoveFirst(s, v, count) && removed == |s| - |kept|
  {
    kept, removed := [], 0;
    for i := 0 to |s|
      invariant removed <= count && removed + |kept| == i
      invariant RemoveFirst(s, v, count) == kept + RemoveFirst(s[i..], v, count - removed)
    {
      RemoveFirstStep(s, i, v, count - removed);
      if s[i] == v && removed < count {
        removed := removed + 1;
      } else {
        kept := kept + [s[i]];
      }
    }
  }

  lemma {:induction false} RemoveFirstStep<T>(s: seq<T>, i: nat, v: T, n: nat)
    requires i < |s|
    ensures RemoveFirst(s[i..], v, n)
            == if s[i] == v && n > 0 then RemoveFirst(s[i + 1..], v, n - 1) else [s[i]] + RemoveFirst(s[i + 1..], v, n)
  {
    assert s[i..] == [s[i]] + s[i + 1..] && s[i..][1..] == s[i + 1..];
  }

  /** The loop from the back, removing in place. */
  method RemoveBackwards<T(==)>(s: seq<T>, limit: int, v: T) returns (list: seq<T>, removed: nat)
    ensures list == RemoveLast(s, v, if limit < 0 then 0 else limit) && removed == |s| - |list|
  {
    list, removed := s, 0;
    var i := |s|;
    ghost var tail: seq<T> := [];
    ghost var count: nat := if limit < 0 then 0 else limit;
    assert s[..i] == s;
    while i > 0 && removed < limit
      invariant i <= |s| && removed <= count && removed + |list| == |s|
      invariant list == s[..i] + tail
      invariant RemoveLast(s, v, count) == RemoveLast(s[..i], v, count - removed) + tail
    {
      i := i - 1;
      assert s[..i + 1][..i] == s[..i];
      if list[i] == v {
        list := list[..i] + list[i + 1..];
        removed := removed + 1;
      } else {
        tail := [s[i]] + tail;
      }
    }
  }

  /** The negation of the least count wraps around to itself, as in a build without overflow checks. */
  method ListRemove<T(==)>(s: seq<T>, count: int, v: T) returns (list: seq<T>, removed: nat)
    requires LEAST <= count < -LEAST
    ensures list == LRem(s, count, v) && removed == |s| - |list|
    ensures removed == Quota(s, count, v) <==> count != LEAST || v !in s
  {
    LRemExact(s, count, v);
    if count == 0 {
      list := RetainOthers(s, v);
      removed := |s| - |list|;
    } else if count > 0 {
      list, removed := RetainCounting(s, count, v);
    } else {
      list, removed := RemoveBackwards(s, if count == LEAST then LEAST else -count, v);
    }
  }
}
