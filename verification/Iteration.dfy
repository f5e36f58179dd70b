/** Steps taken again and again, and what they come to. */
module Iteration {

  function Iterate<T>(f: T -> T, x: T, n: nat): T
    decreases n
  {
    if n == 0 then x else Iterate(f, f(x), n - 1)
  }

  lemma {:induction false} IterateMore<T>(f: T -> T, x: T, m: nat, n: nat)
    ensures Iterate(f, Iterate(f, x, m), n) == Iterate(f, x, m + n)
    decreases m
  {
    if m > 0 {
      IterateMore(f, f(x), m - 1, n);
    }
  }

  lemma OneStep<T>(f: T -> T, x: T)
    ensures Iterate(f, x, 1) == f(x)
  {
  }

  lemma {:induction false} IterateFixed<T>(f: T -> T, x: T, n: nat)
    requires f(x) == x
    ensures Iterate(f, x, n) == x
    decreases n
  {
    if n > 0 {
      IterateFixed(f, x, n - 1);
    }
  }

  lemma {:induction false} IterateKeeps<T(!new)>(f: T -> T, p: T -> bool, x: T, n: nat)
    requires p(x) && forall y :: p(y) ==> p(f(y))
    ensures p(Iterate(f, x, n))
    decreases n
  {
    if n > 0 {
      IterateKeeps(f, p, f(x), n - 1);
    }
  }

  /** What is fixed once it is reached is reached in the end, whether one starts early or late. */
  lemma SameEnd<T>(f: T -> T, x: T, m: nat, n: nat)
    requires f(Iterate(f, x, m)) == Iterate(f, x, m) && f(Iterate(f, x, n)) == Iterate(f, x, n)
    ensures Iterate(f, x, m) == Iterate(f, x, n)
  {
    IterateMore(f, x, m, n);
    IterateMore(f, x, n, m);
    IterateFixed(f, Iterate(f, x, m), n);
    IterateFixed(f, Iterate(f, x, n), m);
  }

  /** The step that leads to where `p` holds for the first time. */
  lemma {:induction false} LastStep<T(!new)>(f: T -> T, p: T -> bool, x: T, n: nat) returns (m: nat)
    requires !p(x) && p(Iterate(f, x, n)) && forall y | p(y) :: f(y) == y
    ensures !p(Iterate(f, x, m)) && f(Iterate(f, x, m)) == Iterate(f, x, n)
    decreases n
  {
    if p(f(x)) {
      IterateFixed(f, f(x), n - 1);
      m := 0;
    } else {
      m := LastStep(f, p, f(x), n - 1);
      m := m + 1;
    }
  }

  /** `k * x` by repeated addition, which keeps the proofs linear. */
  function Times(k: nat, x: nat): nat {
    if k == 0 then 0 else Times(k - 1, x) + x
  }

  lemma {:induction false} TimesIsMonotonic(j: nat, k: nat, x: nat)
    requires j <= k
    ensures Times(j, x) <= Times(k, x)
  {
    if j < k {
      TimesIsMonotonic(j, k - 1, x);
    }
  }

  /** Each state but the last is followed by one that `step` leads to. */
  ghost predicate IsPath<S>(step: (S, S) -> bool, path: seq<S>) {
    forall i | 0 <= i < |path| - 1 :: step(path[i], path[i + 1])
  }

  lemma JoinPaths<S>(step: (S, S) -> bool, a: seq<S>, b: seq<S>)
    requires IsPath(step, a) && IsPath(step, b) && a != [] && b != [] && b[0] == a[|a| - 1]
    ensures IsPath(step, a + b[1..])
  {
    var path := a + b[1..];
    forall i | 0 <= i < |path| - 1 ensures step(path[i], path[i + 1]) {
      if i < |a| - 1 {
        assert step(a[i], a[i + 1]);
      } else {
        assert step(b[i - |a| + 1], b[i - |a| + 2]);
      }
    }
  }

  /** Each state but the last is followed by the one that a labelled step leads to. */
  ghost predicate IsTrace<S, L>(step: (S, L, S) -> bool, path: seq<S>, labels: seq<L>) {
    |path| == |labels| + 1 && forall i | 0 <= i < |labels| :: step(path[i], labels[i], path[i + 1])
  }

  lemma ExtendTrace<S, L>(step: (S, L, S) -> bool, path: seq<S>, labels: seq<L>, l: L, x: S)
    requires IsTrace(step, path, labels) && step(path[|path| - 1], l, x)
    ensures IsTrace(step, path + [x], labels + [l])
  {
    var path', labels' := path + [x], labels + [l];
    forall i | 0 <= i < |labels'| ensures step(path'[i], labels'[i], path'[i + 1]) {
      if i < |labels| {
        assert step(path[i], labels[i], path[i + 1]);
      }
    }
  }
}
