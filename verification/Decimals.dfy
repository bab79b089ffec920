/** Decimal digits of numbers, most significant first. */
module Decimals {
  function Digits(n: nat): (d: seq<nat>)
    ensures d != [] && forall i :: 0 <= i < |d| ==> d[i] < 10
  {
    if n < 10 then [n] else Digits(n / 10) + [n % 10]
  }

  function Value(d: seq<nat>): nat {
    if d == [] then 0 else 10 * Value(d[..|d| - 1]) + d[|d| - 1]
  }

  lemma {:induction false} ValueOfDigits(n: nat)
    ensures Value(Digits(n)) == n
  {
    var d := Digits(n);
    if n >= 10 {
      ValueOfDigits(n / 10);
      assert d[..|d| - 1] == Digits(n / 10);
    } else {
      assert Value(d[..|d| - 1]) == 0;
    }
  }

  /** Cut short, a number is smaller. */
  lemma {:induction false} FewerDigits(n: nat, j: nat)
    requires 0 < j < |Digits(n)|
    ensures Value(Digits(n)[..j]) < n
  {
    var front := Digits(n / 10);
    assert Digits(n)[..j] == front[..j];
    if j < |front| {
      FewerDigits(n / 10, j);
    } else {
      assert front[..j] == front;
      ValueOfDigits(n / 10);
    }
  }

  // ---- Leading zeros ----

  function Zeros(k: nat): seq<nat> {
    seq(k, _ => 0)
  }

  lemma {:induction false} LeadingZeros(k: nat, d: seq<nat>)
    ensures Value(Zeros(k) + d) == Value(d)
  {
    var all := Zeros(k) + d;
    if d != [] {
      assert all[..|all| - 1] == Zeros(k) + d[..|d| - 1];
      LeadingZeros(k, d[..|d| - 1]);
    } else if k > 0 {
      assert all[..|all| - 1] == Zeros(k - 1) + d;
      LeadingZeros(k - 1, d);
    }
  }

  lemma OneMoreDigit(n: nat, x: nat)
    requires x < 10
    ensures n > 0 ==> Digits(10 * n + x) == Digits(n) + [x]
    ensures Digits(x) == [x]
  {
    assert (10 * n + x) / 10 == n && (10 * n + x) % 10 == x;
  }

  /** Digits are those of their number behind some zeros. */
  lemma {:induction false} WithoutZeros(d: seq<nat>) returns (k: nat)
    requires d != [] && forall i :: 0 <= i < |d| ==> d[i] < 10
    ensures d == Zeros(k) + Digits(Value(d))
  {
    var front, last := d[..|d| - 1], d[|d| - 1];
    assert d == front + [last] && Value(d) == 10 * Value(front) + last;
    OneMoreDigit(Value(front), last);
    if front == [] {
      k := 0;
    } else {
      k := WithoutZeros(front);
      if Value(front) == 0 {
        assert front == Zeros(k) + [0] == Zeros(k + 1);
        k := k + 1;
      }
    }
  }
}
