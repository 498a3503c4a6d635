/** What it means to be the most recently requested ids, for the breaker cache. */
module Recency {
  import opened Common

  /** s without the occurrences of x. */
  function Without<T(==)>(s: seq<T>, x: T): seq<T> {
    if s == [] then []
    else if s[|s| - 1] == x then Without(s[..|s| - 1], x)
    else Without(s[..|s| - 1], x) + [s[|s| - 1]]
  }

  /** The distinct ids of a history, the one requested last first. */
  function Recent<T(==)>(history: seq<T>): seq<T> {
    if history == [] then []
    else
      var id := history[|history| - 1];
      [id] + Without(Recent(history[..|history| - 1]), id)
  }

  function Take<T>(s: seq<T>, n: nat): seq<T> {
    if |s| <= n then s else s[..n]
  }

  lemma {:induction false} WithoutMembers<T>(s: seq<T>, x: T)
    ensures forall y :: y in Without(s, x) <==> y in s && y != x
  {
    if s != [] {
      WithoutMembers(s[..|s| - 1], x);
      assert s == s[..|s| - 1] + [s[|s| - 1]];
    }
  }

  lemma {:induction false} WithoutConcat<T>(a: seq<T>, b: seq<T>, x: T)
    ensures Without(a + b, x) == Without(a, x) + Without(b, x)
  {
    if b == [] {
      assert a + b == a;
    } else {
      var n := |b| - 1;
      assert (a + b)[..|a| + n] == a + b[..n];
      WithoutConcat(a, b[..n], x);
    }
  }

  lemma {:induction false} WithoutAbsent<T>(s: seq<T>, x: T)
    requires x !in s
    ensures Without(s, x) == s
  {
    if s != [] {
      WithoutAbsent(s[..|s| - 1], x);
    }
  }

  /** Removing the id at place k of distinct ids cuts that place out. */
  lemma {:induction false} WithoutAt<T>(s: seq<T>, k: nat)
    requires Distinct(s) && k < |s|
    ensures Without(s, s[k]) == s[..k] + s[k + 1..]
  {
    var n := |s| - 1;
    if k == n {
      WithoutAbsent(s[..n], s[n]);
    } else {
      WithoutAt(s[..n], k);
      assert s[..n][..k] == s[..k];
      assert s[..n][k + 1..] + [s[n]] == s[k + 1..];
    }
  }

  lemma WithoutFront<T>(s: seq<T>, x: T)
    requires Distinct(s) && x !in s
    ensures Distinct([x] + s) && Without(s, x) == s && Without([x] + s, x) == s
  {
    WithoutAbsent(s, x);
    WithoutAt([x] + s, 0);
    assert ([x] + s)[1..] == s;
  }

  /** Removing x from distinct ids keeps them distinct and takes at most x itself away. */
  lemma {:induction false} WithoutDistinct<T>(s: seq<T>, x: T)
    requires Distinct(s)
    ensures Distinct(Without(s, x))
    ensures |Without(s, x)| == if x in s then |s| - 1 else |s|
  {
    if s != [] {
      var n := |s| - 1;
      WithoutDistinct(s[..n], x);
      WithoutMembers(s[..n], x);
      assert s == s[..n] + [s[n]];
      assert s[n] !in s[..n];
      assert s[n] !in Without(s[..n], x);
    }
  }

  /** Recent lists every requested id once. */
  lemma {:induction false} RecentDistinct<T>(history: seq<T>)
    ensures Distinct(Recent(history))
    ensures forall x :: x in Recent(history) <==> x in history
  {
    if history != [] {
      var n := |history| - 1;
      RecentDistinct(history[..n]);
      WithoutDistinct(Recent(history[..n]), history[n]);
      WithoutMembers(Recent(history[..n]), history[n]);
      assert history == history[..n] + [history[n]];
    }
  }

  ghost function Elements<T>(s: seq<T>): set<T> {
    set x | x in s
  }

  /** The length of Recent is the number of distinct ids. */
  lemma {:induction false} RecentCounts<T>(history: seq<T>)
    ensures |Recent(history)| == |Elements(history)|
  {
    if history == [] {
      assert Elements(history) == {};
    } else {
      var n := |history| - 1;
      var r := Recent(history[..n]);
      RecentCounts(history[..n]);
      RecentDistinct(history[..n]);
      WithoutDistinct(r, history[n]);
      assert history == history[..n] + [history[n]];
      assert Elements(history) == Elements(history[..n]) + {history[n]};
    }
  }

  lemma {:induction false} WithoutInWindow<T>(r: seq<T>, id: T, m: nat)
    requires Distinct(r)
    ensures Take(Without(r, id), m) == Take(Without(Take(r, m + 1), id), m)
  {
    if |r| > m + 1 {
      var n := |r| - 1;
      assert Take(r, m + 1) == Take(r[..n], m + 1);
      WithoutInWindow(r[..n], id, m);
      WithoutDistinct(r[..n], id);
      assert Take(Without(r, id), m) == Take(Without(r[..n], id), m);
    }
  }

  lemma RecentNext<T>(history: seq<T>, id: T)
    ensures Recent(history + [id]) == [id] + Without(Recent(history), id)
  {
    assert (history + [id])[..|history|] == history;
  }

  lemma WindowCons<T>(r: seq<T>, id: T, limit: nat)
    requires limit >= 1 && Distinct(r)
    ensures Take([id] + Without(r, id), limit) == Take([id] + Without(Take(r, limit), id), limit)
  {
    WithoutInWindow(r, id, limit - 1);
    TakeCons(id, Without(r, id), limit);
    TakeCons(id, Without(Take(r, limit), id), limit);
  }

  /** One more request, seen through a window of `limit` ids. */
  lemma WindowStep<T>(history: seq<T>, id: T, limit: nat)
    requires limit >= 1
    ensures Take(Recent(history + [id]), limit) == Take([id] + Without(Take(Recent(history), limit), id), limit)
  {
    RecentNext(history, id);
    RecentDistinct(history);
    WindowCons(Recent(history), id, limit);
  }

  lemma TakeCons<T>(x: T, s: seq<T>, n: nat)
    requires n >= 1
    ensures Take([x] + s, n) == [x] + Take(s, n - 1)
  {
  }

  /** Ids requested since the last request of id are ahead of it, and the others are behind. */
  lemma {:induction false} RecentSplit<T>(before: seq<T>, id: T, since: seq<T>) returns (rest: seq<T>)
    requires id !in since
    ensures Recent(before + [id] + since) == Recent(since) + [id] + rest
  {
    var history := before + [id] + since;
    if since == [] {
      assert history[..|history| - 1] == before;
      rest := Without(Recent(before), id);
    } else {
      var n := |since| - 1;
      var last := since[n];
      assert history[..|history| - 1] == before + [id] + since[..n];
      rest := RecentSplit(before, id, since[..n]);
      WithoutMiddle(Recent(since[..n]), id, rest, last);
      rest := Without(rest, last);
      assert Recent(since) == [last] + Without(Recent(since[..n]), last);
    }
  }

  lemma WithoutMiddle<T>(a: seq<T>, id: T, b: seq<T>, x: T)
    requires id != x
    ensures Without(a + [id] + b, x) == Without(a, x) + [id] + Without(b, x)
  {
    WithoutConcat(a + [id], b, x);
    WithoutConcat(a, [id], x);
    assert Without([id], x) == [id];
  }

  /** The requests after the last one for id. */
  function Since<T(==)>(history: seq<T>, id: T): seq<T> {
    if history == [] || history[|history| - 1] == id then []
    else Since(history[..|history| - 1], id) + [history[|history| - 1]]
  }

  lemma {:induction false} SinceSplits<T>(history: seq<T>, id: T)
    requires id in history
    ensures id !in Since(history, id) && |Since(history, id)| < |history|
    ensures var n := |history| - |Since(history, id)|;
            history == history[..n - 1] + [id] + Since(history, id)
  {
    var m := |history| - 1;
    if history[m] != id {
      assert history == history[..m] + [history[m]];
      SinceSplits(history[..m], id);
      var n := m - |Since(history[..m], id)|;
      assert history[..m][..n - 1] == history[..n - 1];
    }
  }

  /** A place of distinct ids is in the window exactly if it is less than the limit. */
  lemma TakeIffPlace<T>(r: seq<T>, k: nat, limit: nat)
    requires Distinct(r) && k < |r|
    ensures r[k] in Take(r, limit) <==> k < limit
  {
    if k < limit {
      assert Take(r, limit)[k] == r[k];
    }
  }

  lemma MiddlePlace<T>(a: seq<T>, x: T, b: seq<T>)
    ensures |a| < |a + [x] + b| && (a + [x] + b)[|a|] == x
  {
  }

  /** The id was requested, and fewer than `limit` others since. */
  ghost predicate Retained<T>(history: seq<T>, id: T, limit: nat) {
    id in history && |Elements(Since(history, id))| < limit
  }

  /** An id is among the `limit` most recent ones exactly if it was requested, and fewer than `limit` others since. */
  lemma RetainedIffRecent<T>(history: seq<T>, id: T, limit: nat)
    ensures id in Take(Recent(history), limit) <==> Retained(history, id, limit)
  {
    RecentDistinct(history);
    if id in history {
      SinceSplits(history, id);
      var since := Since(history, id);
      var rest := RecentSplit(history[..|history| - |since| - 1], id, since);
      RecentCounts(since);
      MiddlePlace(Recent(since), id, rest);
      TakeIffPlace(Recent(history), |Recent(since)|, limit);
    }
  }
}
