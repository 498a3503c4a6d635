/** Helpers shared by the protocol models. */
module Common {

  datatype Option<+T> = None | Some(value: T)

  ghost predicate Distinct<T>(s: seq<T>) {
    forall i, j :: 0 <= i < j < |s| ==> s[i] != s[j]
  }

  function Max(a: int, b: int): int {
    if a > b then a else b
  }

  function Min(a: int, b: int): int {
    if a < b then a else b
  }

  /** The total weight of a sequence of threads. */
  function Sum<T>(f: T -> nat, s: seq<T>): nat {
    if s == [] then 0 else Sum(f, s[..|s| - 1]) + f(s[|s| - 1])
  }

  /** One thread moving changes the total by the change of its own weight. */
  lemma {:induction false} SumUpdate<T>(f: T -> nat, s: seq<T>, i: nat, x: T)
    requires i < |s|
    ensures Sum(f, s[i := x]) + f(s[i]) == Sum(f, s) + f(x)
  {
    var n := |s| - 1;
    if i == n {
      assert s[i := x][..n] == s[..n];
    } else {
      assert s[i := x][..n] == s[..n][i := x];
      SumUpdate(f, s[..n], i, x);
    }
  }

  /** Each thread's weight is part of the total. */
  lemma {:induction false} SumAtLeast<T>(f: T -> nat, s: seq<T>, i: nat)
    requires i < |s|
    ensures f(s[i]) <= Sum(f, s)
  {
    if i < |s| - 1 {
      SumAtLeast(f, s[..|s| - 1], i);
    }
  }

  /** A zero total means that every weight is zero. */
  lemma {:induction false} SumZero<T>(f: T -> nat, s: seq<T>)
    ensures Sum(f, s) == 0 <==> forall i :: 0 <= i < |s| ==> f(s[i]) == 0
  {
    if s != [] {
      var n := |s| - 1;
      SumZero(f, s[..n]);
      assert forall i :: 0 <= i < n ==> s[..n][i] == s[i];
    }
  }
}

/** A step taken over and over: what one goroutine does while all others stand still. */
module Repetition {

  function Iterate<S>(step: S -> S, s: S, n: nat): S
    decreases n
  {
    if n == 0 then s else Iterate(step, step(s), n - 1)
  }

  lemma {:induction false} IterateSum<S>(step: S -> S, s: S, m: nat, n: nat)
    ensures Iterate(step, s, m + n) == Iterate(step, Iterate(step, s, m), n)
    decreases m
  {
    if m > 0 {
      IterateSum(step, step(s), m - 1, n);
    }
  }

  lemma IterateThrice<S>(step: S -> S, s: S, l: nat, s1: S, m: nat, s2: S, n: nat, s3: S)
    requires Iterate(step, s, l) == s1 && Iterate(step, s1, m) == s2 && Iterate(step, s2, n) == s3
    ensures Iterate(step, s, l + m + n) == s3
  {
    IterateSum(step, s, l, m);
    IterateSum(step, s, l + m, n);
  }

  /** Rounds of m steps lead through these states. */
  ghost predicate Rounds<S(!new)>(step: S -> S, states: seq<S>, m: nat) {
    forall i: nat :: i + 1 < |states| ==> Round(step, states, m, i)
  }

  ghost predicate Round<S(!new)>(step: S -> S, states: seq<S>, m: nat, i: nat) {
    i + 1 < |states| && Iterate(step, states[i], m) == states[i + 1]
  }

  lemma {:induction false} IterateRounds<S(!new)>(step: S -> S, states: seq<S>, m: nat, i: nat, n: nat)
    requires Rounds(step, states, m) && i + n < |states|
    ensures Iterate(step, states[i], m * n) == states[i + n]
    decreases n
  {
    if n > 0 {
      assert Round(step, states, m, i);
      IterateRounds(step, states, m, i + 1, n - 1);
      IterateSum(step, states[i], m, m * (n - 1));
      assert m + m * (n - 1) == m * n;
    }
  }

  lemma IterateFour<S>(step: S -> S, s: S, s1: S, s2: S, s3: S, s4: S)
    requires step(s) == s1 && step(s1) == s2 && step(s2) == s3 && step(s3) == s4
    ensures Iterate(step, s, 1) == s1 && Iterate(step, s, 2) == s2
    ensures Iterate(step, s, 3) == s3 && Iterate(step, s, 4) == s4
  {
    assert Iterate(step, s1, 1) == s2 && Iterate(step, s2, 1) == s3 && Iterate(step, s3, 1) == s4;
    assert Iterate(step, s1, 2) == s3 && Iterate(step, s2, 2) == s4;
    assert Iterate(step, s1, 3) == s4;
  }
}

/** Facts about division that the solver does not find. */
module Arithmetic {

  lemma MulAtLeast(a: int, d: int)
    requires a >= 1 && d >= 1
    ensures a * d >= d
  {
    assert a * d == (a - 1) * d + d;
  }

  lemma MulSucc(a: int, d: int)
    ensures (a + 1) * d == a * d + d
  {
  }

  lemma EuclidUnique(d: int, q: int, r: int, q': int, r': int)
    requires 0 <= r < d && 0 <= r' < d
    requires q * d + r == q' * d + r'
    ensures q == q' && r == r'
  {
    assert (q - q') * d == q * d - q' * d;
    if q > q' {
      MulAtLeast(q - q', d);
    } else if q < q' {
      MulAtLeast(q' - q, d);
    }
  }

  lemma DivModUnique(x: int, d: int, q: int, r: int)
    requires 0 <= r < d && x == q * d + r
    ensures x / d == q && x % d == r
  {
    EuclidUnique(d, q, r, x / d, x % d);
  }

  lemma DivModSum(x: int, d: int)
    requires d > 0
    ensures x / d * d + x % d == x
  {
  }

  lemma QuotientAtLeast(x: int, d: int, q: int)
    requires d > 0 && q * d <= x
    ensures q <= x / d
  {
    var k := x / d;
    assert (q - k) * d == q * d - k * d;
    if q > k {
      MulAtLeast(q - k, d);
    }
  }
}

/** The state of a completion slot, for its protocol and for the registry that holds it. */
module SlotPhases {
  datatype Phase = Pending | Ready | Closed

  function Rank(p: Phase): nat {
    match p case Pending => 0 case Ready => 1 case Closed => 2
  }
}
