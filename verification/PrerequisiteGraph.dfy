/** Prerequisite graphs as finite maps from a node to its immediate prerequisites. */
module PrerequisiteGraphs {
  import opened Iteration

  ghost predicate WellFormed<N>(g: map<N, set<N>>) {
    forall n <- g :: g[n] <= g.Keys
  }

  ghost predicate ClosedUnder<N>(g: map<N, set<N>>, S: set<N>) {
    forall n <- S | n in g :: g[n] <= S
  }

  ghost function Successors<N>(g: map<N, set<N>>, S: set<N>): set<N> {
    set n, m | n in S && n in g && m in g[n] :: m
  }

  /** `S` and everything reachable from it in at most `k` steps. */
  ghost function Reach<N>(g: map<N, set<N>>, S: set<N>, k: nat): set<N>
    decreases k
  {
    if k == 0 then S else Reach(g, S + Successors(g, S), k - 1)
  }

  lemma {:induction false} ReachStays<N>(g: map<N, set<N>>, S: set<N>, k: nat)
    requires S + Successors(g, S) == S
    ensures Reach(g, S, k) == S
    decreases k
  {
    if k > 0 {
      ReachStays(g, S, k - 1);
    }
  }

  /** As many steps as there are nodes outside are enough. */
  lemma {:induction false} ReachIsClosed<N>(g: map<N, set<N>>, S: set<N>, k: nat)
    requires WellFormed(g) && S <= g.Keys && |g.Keys - S| <= k
    ensures S <= Reach(g, S, k) <= g.Keys && ClosedUnder(g, Reach(g, S, k))
    decreases k
  {
    var T := S + Successors(g, S);
    if T == S {
      ReachStays(g, S, k);
      forall n <- S, m <- g[n] ensures m in S { assert m in Successors(g, S); }
    } else {
      assert T <= g.Keys;
      var m := NewIn(S, T);
      assert g.Keys - S == (g.Keys - T) + (T - S) && m in T - S;
      ReachIsClosed(g, T, k - 1);
    }
  }

  lemma NewIn<N>(S: set<N>, T: set<N>) returns (m: N)
    requires S <= T && S != T
    ensures m in T && m !in S
  {
    assert exists m :: m in T && m !in S;
    m :| m in T && m !in S;
  }

  lemma {:induction false} ReachIsLeast<N>(g: map<N, set<N>>, S: set<N>, k: nat, T: set<N>)
    requires WellFormed(g) && S <= T && S <= g.Keys && ClosedUnder(g, T)
    ensures Reach(g, S, k) <= T
    decreases k
  {
    if k > 0 {
      ReachIsLeast(g, S + Successors(g, S), k - 1, T);
    }
  }

  /** `S` and everything reachable from it ... */
  ghost function Closure<N>(g: map<N, set<N>>, S: set<N>): (C: set<N>)
    requires WellFormed(g) && S <= g.Keys
    ensures S <= C <= g.Keys && ClosedUnder(g, C)
  {
    assert |g.Keys - S| <= |g| by { assert g.Keys == (g.Keys - S) + S; }
    ReachIsClosed(g, S, |g|);
    Reach(g, S, |g|)
  }

  /** ... is the least closed set around `S`. */
  lemma ClosureIsLeast<N>(g: map<N, set<N>>, S: set<N>, T: set<N>)
    requires WellFormed(g) && S <= T && S <= g.Keys && ClosedUnder(g, T)
    ensures Closure(g, S) <= T
  {
    ReachIsLeast(g, S, |g|, T);
  }

  /** The transitive prerequisites of `n`. */
  ghost function Transitive<N>(g: map<N, set<N>>, n: N): (C: set<N>)
    requires WellFormed(g) && n in g
    ensures g[n] <= C <= g.Keys && ClosedUnder(g, C)
  {
    Closure(g, g[n])
  }

  lemma TransitiveIsTransitive<N>(g: map<N, set<N>>, n: N, m: N)
    requires WellFormed(g) && n in g && m in Transitive(g, n)
    ensures Transitive(g, m) <= Transitive(g, n)
  {
    ClosureIsLeast(g, g[m], Transitive(g, n));
  }

  ghost predicate Acyclic<N>(g: map<N, set<N>>)
    requires WellFormed(g)
  {
    forall n {:trigger Transitive(g, n)} | n in g :: n !in Transitive(g, n)
  }

  /** In an acyclic graph a prerequisite has strictly fewer transitive prerequisites. */
  lemma RankDecreases<N>(g: map<N, set<N>>, n: N, m: N)
    requires WellFormed(g) && Acyclic(g) && n in g && m in Transitive(g, n)
    ensures |Transitive(g, m)| < |Transitive(g, n)|
  {
    TransitiveIsTransitive(g, n, m);
    assert m in Transitive(g, n) - Transitive(g, m);
    assert Transitive(g, n) == Transitive(g, m) + (Transitive(g, n) - Transitive(g, m));
  }

  ghost function WithPrerequisite<N>(g: map<N, set<N>>, e: N, p: N): map<N, set<N>>
    requires e in g
  {
    g[e := g[e] + {p}]
  }

  /** A new prerequisite `p` of `e` adds nothing but `p` and what is behind `p`, and only in front of `e`. */
  lemma NewTransitive<N>(g: map<N, set<N>>, e: N, p: N, n: N)
    requires WellFormed(g) && e in g && p in g && n in g
    ensures WellFormed(WithPrerequisite(g, e, p))
    ensures Transitive(WithPrerequisite(g, e, p), n)
         <= Transitive(g, n) + if e == n || e in Transitive(g, n) then {p} + Transitive(g, p) else {}
  {
    var g' := WithPrerequisite(g, e, p);
    var T := Transitive(g, n) + if e == n || e in Transitive(g, n) then {p} + Transitive(g, p) else {};
    assert ClosedUnder(g', T);
    ClosureIsLeast(g', g'[n], T);
  }

  /** Adding the prerequisite `p` to `e` keeps the graph acyclic exactly when `e` is not behind `p` already. */
  lemma AddingKeepsAcyclic<N>(g: map<N, set<N>>, e: N, p: N)
    requires WellFormed(g) && Acyclic(g) && e in g && p in g
    ensures WellFormed(WithPrerequisite(g, e, p))
    ensures Acyclic(WithPrerequisite(g, e, p)) <==> p != e && e !in Transitive(g, p)
  {
    var g' := WithPrerequisite(g, e, p);
    assert WellFormed(g');
    if p == e || e in Transitive(g, p) {
      assert ClosedUnder(g, Transitive(g', p));
      ClosureIsLeast(g, g[p], Transitive(g', p));
      TransitiveIsTransitive(g', e, p);
    } else {
      forall n <- g' ensures n !in Transitive(g', n) {
        NewTransitive(g, e, p, n);
        if n in Transitive(g, p) {
          TransitiveIsTransitive(g, p, n);
        }
      }
    }
  }

  // ---------------------------------------------------------------------------------------------
  // Unsatisfied prerequisites, looked for only behind prerequisites that were never called.

  /** The edges that lead to prerequisites which are satisfied, by zero calls. */
  ghost function Idle<N>(g: map<N, set<N>>, satisfied: set<N>, called: set<N>): (h: map<N, set<N>>)
    requires WellFormed(g)
    ensures WellFormed(h) && h.Keys == g.Keys
  {
    map n | n in g :: g[n] * satisfied - called
  }

  /** The unsatisfied nodes that such edges, followed by one edge more, lead to from `root`. */
  ghost function Frontier<N>(g: map<N, set<N>>, satisfied: set<N>, called: set<N>, root: N): set<N>
    requires WellFormed(g) && root in g
  {
    Successors(g, {root} + Transitive(Idle(g, satisfied, called), root)) - satisfied
  }

  /** Nodes the walk passes, and nodes with nothing unsatisfied behind them, keep to themselves. */
  lemma EmptyFrontierSuffices<N>(g: map<N, set<N>>, satisfied: set<N>, called: set<N>, root: N, Z: set<N>)
    requires WellFormed(g) && root in Z && Z <= g.Keys && Successors(g, Z) <= satisfied
    requires ClosedUnder(Idle(g, satisfied, called), Z)
    requires forall c <- called * satisfied | c in g :: Transitive(g, c) <= satisfied
    ensures Transitive(g, root) <= satisfied
  {
    var good := set n | n in g && n in satisfied && (n in Z || Transitive(g, n) <= satisfied);
    forall z, n | z in Z && n in g[z] ensures n in good {
      assert n in Successors(g, Z);
      assert n !in called ==> n in Idle(g, satisfied, called)[z];
      assert n in called ==> n in called * satisfied;
    }
    forall z, n | z in good && z !in Z && n in g[z] ensures n in good {
      assert n in Transitive(g, z);
      TransitiveIsTransitive(g, z, n);
    }
    ClosureIsLeast(g, g[root], good);
  }

  /**
   If everything behind a called and satisfied node is satisfied, the frontier is empty exactly when all transitive
   prerequisites are satisfied.
   */
  lemma FrontierDecides<N>(g: map<N, set<N>>, satisfied: set<N>, called: set<N>, root: N)
    requires WellFormed(g) && root in g
    requires forall c <- called * satisfied | c in g :: Transitive(g, c) <= satisfied
    ensures Frontier(g, satisfied, called, root) == {} <==> Transitive(g, root) <= satisfied
  {
    var idle := Idle(g, satisfied, called);
    var Z := {root} + Transitive(idle, root);
    if Frontier(g, satisfied, called, root) == {} {
      forall n | n in Successors(g, Z) ensures n in satisfied {
        var unsatisfied := Successors(g, Z) - satisfied;
        assert n in satisfied || n in unsatisfied;
      }
      EmptyFrontierSuffices(g, satisfied, called, root, Z);
    }
    if Transitive(g, root) <= satisfied {
      ClosureIsLeast(idle, idle[root], Transitive(g, root));
      assert Successors(g, Z) <= Transitive(g, root);
    }
  }

  /** A satisfied prerequisite that has been called hides whatever is behind it. */
  lemma NothingBehindCalled<N>(g: map<N, set<N>>, satisfied: set<N>, called: set<N>, root: N, p: N)
    requires WellFormed(g) && root in g && g[root] == {p} && p in satisfied && p in called
    ensures Frontier(g, satisfied, called, root) == {}
  {
    var idle := Idle(g, satisfied, called);
    assert idle[root] == {};
    ClosureIsLeast(idle, {}, {});
    assert {root} + Transitive(idle, root) == {root};
    assert Successors(g, {root}) == {p};
  }

  lemma LinkThree<N>(a: N, b: N, c: N)
    requires a != b && b != c && a != c
    ensures
      var g: map<N, set<N>> := map[a := {}, b := {}, c := {}];
      WithPrerequisite(WithPrerequisite(g, b, c), a, b) == map[a := {b}, b := {c}, c := {}]
  {
    var g: map<N, set<N>> := map[a := {}, b := {}, c := {}];
    assert g[a] + {b} == {b} && g[b] + {c} == {c};
  }

  lemma ThreeInSequence<N>(g: map<N, set<N>>, a: N, b: N, c: N)
    requires a != b && b != c && a != c && g == map[a := {b}, b := {c}, c := {}]
    ensures WellFormed(g) && Acyclic(g)
    ensures Transitive(g, c) == {} && Transitive(g, b) == {c} && Transitive(g, a) == {b, c}
  {
    assert g[a] == {b} && g[b] == {c} && g[c] == {};
    ClosureIsLeast(g, g[c], {});
    ClosureIsLeast(g, g[b], {c});
    ClosureIsLeast(g, g[a], {b, c});
  }

  // ---------------------------------------------------------------------------------------------
  // What calls keep: everything behind certain nodes is satisfied and retired.

  ghost predicate Backed<N>(g: map<N, set<N>>, retired: set<N>, satisfied: set<N>, S: set<N>)
    requires WellFormed(g)
  {
    forall e <- S | e in g :: Transitive(g, e) <= satisfied && Transitive(g, e) <= retired
  }

  /**
   A call to the active node `n`, which may add `n` to the backed nodes or take it away, keeps them backed
   exactly when `n` is none of them or the call finds or leaves all behind `n` retired.
   */
  lemma CallKeepsBacked<N>(g: map<N, set<N>>, n: N, retired: set<N>, satisfied: set<N>, S: set<N>,
                           retired': set<N>, satisfied': set<N>, S': set<N>)
    requires WellFormed(g) && Acyclic(g) && n in g && n !in retired && Transitive(g, n) <= satisfied
    requires Backed(g, retired, satisfied, S)
    requires retired <= retired' && satisfied - {n} == satisfied' - {n} && S - {n} == S' - {n}
    ensures Backed(g, retired', satisfied', S') <==> n !in S' || Transitive(g, n) <= retired'
  {
    forall e | e in S' && e in g && e != n
      ensures Transitive(g, e) <= satisfied' && Transitive(g, e) <= retired'
    {
      assert e in S' - {n};
      StaySatisfied(n, Transitive(g, e), satisfied, satisfied');
    }
    StaySatisfied(n, Transitive(g, n), satisfied, satisfied');
  }

  lemma StaySatisfied<N>(n: N, T: set<N>, satisfied: set<N>, satisfied': set<N>)
    requires n !in T && T <= satisfied && satisfied - {n} == satisfied' - {n}
    ensures T <= satisfied'
  {
    forall m | m in T ensures m in satisfied' {
      assert m in satisfied - {n};
    }
  }

  /** A new prerequisite of a node that is neither retired nor backed disturbs neither retirement nor backing. */
  lemma AddingKeepsBacked<N>(g: map<N, set<N>>, e: N, p: N, retired: set<N>, satisfied: set<N>, S: set<N>)
    requires WellFormed(g) && e in g && p in g && e !in retired && e !in S
    requires ClosedUnder(g, retired) && Backed(g, retired, satisfied, S)
    ensures WellFormed(WithPrerequisite(g, e, p))
    ensures ClosedUnder(WithPrerequisite(g, e, p), retired)
    ensures Backed(WithPrerequisite(g, e, p), retired, satisfied, S)
  {
    var g' := WithPrerequisite(g, e, p);
    assert WellFormed(g');
    forall c | c in S && c in g
      ensures Transitive(g', c) <= satisfied && Transitive(g', c) <= retired
    {
      NewTransitive(g, e, p, c);
      assert e !in Transitive(g, c);
    }
  }

  lemma ClosedUnderJoin<N>(g: map<N, set<N>>, S: set<N>, n: N)
    requires WellFormed(g) && n in g && ClosedUnder(g, S) && g[n] <= S
    ensures ClosedUnder(g, S + {n})
  {
  }

  // ---------------------------------------------------------------------------------------------
  // Depth-first walks with a stack of nodes whose prerequisites are still to be looked at.

  /** `S` holds the prerequisites of `root`, and of its own nodes, unless these still wait on the stack. */
  ghost predicate Explored<N>(g: map<N, set<N>>, root: N, stack: seq<N>, S: set<N>)
    requires WellFormed(g) && root in g && S <= g.Keys
  {
    && (root in stack || g[root] <= S)
    && (forall e <- S :: e in stack || g[e] <= S)
  }

  lemma ExploreStart<N>(g: map<N, set<N>>, root: N, S: set<N>)
    requires WellFormed(g) && root in g && S <= g.Keys && ClosedUnder(g, S)
    ensures Explored(g, root, [root], S) && Behind(g, root, [root])
  {
  }

  lemma ExploreStep<N>(g: map<N, set<N>>, root: N, stack: seq<N>, exp: N, S: set<N>, stack': seq<N>, S': set<N>)
    requires WellFormed(g) && root in g && exp in g && S <= S' <= g.Keys
    requires Explored(g, root, stack + [exp], S)
    requires stack <= stack' && g[exp] <= S'
    requires forall e <- S' :: e in S || e in stack'
    ensures Explored(g, root, stack', S')
  {
    forall e | e in stack + [exp] ensures e == exp || e in stack' {
      assert e in stack || e in [exp];
    }
  }

  lemma ExploreDone<N>(g: map<N, set<N>>, root: N, S: set<N>)
    requires WellFormed(g) && root in g && S <= g.Keys && Explored(g, root, [], S)
    ensures ClosedUnder(g, S) && Transitive(g, root) <= S
  {
    ClosureIsLeast(g, g[root], S);
  }

  /** A walk that pushes nothing but prerequisites of the node it took from the stack stays behind its root. */
  lemma BehindStep<N>(g: map<N, set<N>>, root: N, stack: seq<N>, exp: N, stack': seq<N>)
    requires WellFormed(g) && root in g && Behind(g, root, stack + [exp])
    requires exp in g && forall e <- stack' :: e in stack || e in g[exp]
    ensures Behind(g, root, stack') && g[exp] <= Transitive(g, root)
  {
    assert exp in stack + [exp];
    forall e | e in stack ensures e in stack + [exp] {}
  }

  lemma SplitLast<T>(s: seq<T>)
    requires s != []
    ensures s[..|s| - 1] + [s[|s| - 1]] == s
  {
  }

  /** Every stacked node is the root or behind it. */
  ghost predicate Behind<N>(g: map<N, set<N>>, root: N, stack: seq<N>)
    requires WellFormed(g) && root in g
  {
    forall e <- stack :: e in g && (e == root || e in Transitive(g, root))
  }

  // A termination measure for a depth-first walk that keeps no record of the nodes it has visited:
  // a node weighs more than all of its prerequisites together.

  ghost function Power(base: nat, e: nat): nat {
    if e == 0 then 1 else Times(base, Power(base, e - 1))
  }

  lemma {:induction false} PowerIsMonotonic(base: nat, d: nat, e: nat)
    requires base >= 1 && d <= e
    ensures 1 <= Power(base, d) <= Power(base, e)
    decreases e
  {
    if e > 0 {
      TimesIsMonotonic(1, base, Power(base, e - 1));
      assert Times(1, Power(base, e - 1)) == Times(0, Power(base, e - 1)) + Power(base, e - 1);
      PowerIsMonotonic(base, if d < e then d else d - 1, e - 1);
    }
  }

  ghost function Share(base: nat, rank: nat): nat {
    if rank == 0 then 0 else Power(base, rank - 1)
  }

  /** Fewer than `base` nodes of lower rank weigh less, together, than one node of rank `rank`. */
  lemma SharesWeighLess(base: nat, k: nat, rank: nat)
    requires k < base && (rank == 0 ==> k == 0)
    ensures Times(k, Share(base, rank)) < Power(base, rank)
  {
    PowerIsMonotonic(base, 0, rank);
    if rank > 0 {
      PowerIsMonotonic(base, 0, rank - 1);
      TimesIsMonotonic(k, base - 1, Share(base, rank));
    }
  }

  ghost function Rank<N>(g: map<N, set<N>>, n: N): nat
    requires WellFormed(g) && n in g
  {
    |Transitive(g, n)|
  }

  /** `weight` and `share` show that the weights of the prerequisites of a node add up to less than its own. */
  ghost predicate IsMeasure<N>(g: map<N, set<N>>, weight: map<N, nat>, share: map<N, nat>)
  {
    && weight.Keys == share.Keys == g.Keys
    && (forall n <- g :: Times(|g[n]|, share[n]) < weight[n])
    && (forall n, m {:trigger m in g[n]} :: n in g && m in g[n] ==> m in g && weight[m] <= share[n])
  }

  lemma RanksDecrease<N>(g: map<N, set<N>>)
    requires WellFormed(g) && Acyclic(g)
    ensures forall n, m | n in g && m in g[n] :: Rank(g, m) < Rank(g, n)
  {
    forall n, m | n in g && m in g[n] ensures Rank(g, m) < Rank(g, n) {
      assert m in Transitive(g, n);
      RankDecreases(g, n, m);
    }
  }

  lemma FewPrerequisites<N>(g: map<N, set<N>>, n: N)
    requires WellFormed(g) && n in g
    ensures |g[n]| <= |g| && (Rank(g, n) == 0 ==> g[n] == {})
  {
    assert g.Keys == g[n] + (g.Keys - g[n]);
  }

  ghost function WeightOfRank<N>(rank: map<N, nat>, base: nat): map<N, nat> {
    map n | n in rank :: Power(base, rank[n])
  }

  ghost function ShareOfRank<N>(rank: map<N, nat>, base: nat): map<N, nat> {
    map n | n in rank :: Share(base, rank[n])
  }

  lemma WeighsMore<N>(g: map<N, set<N>>, rank: map<N, nat>, base: nat, n: N)
    requires rank.Keys == g.Keys && n in g && |g[n]| < base && (rank[n] == 0 ==> g[n] == {})
    ensures Times(|g[n]|, ShareOfRank(rank, base)[n]) < WeightOfRank(rank, base)[n]
  {
    SharesWeighLess(base, |g[n]|, rank[n]);
  }

  lemma WeighsAtMostShare<N>(rank: map<N, nat>, base: nat, n: N, m: N)
    requires n in rank && m in rank && rank[m] < rank[n] && base > 0
    ensures WeightOfRank(rank, base)[m] <= ShareOfRank(rank, base)[n]
  {
    PowerIsMonotonic(base, rank[m], rank[n] - 1);
  }

  lemma RankGivesMeasure<N>(g: map<N, set<N>>, rank: map<N, nat>, base: nat)
    requires rank.Keys == g.Keys
    requires forall n, m | n in g && m in g[n] :: m in g && rank[m] < rank[n]
    requires forall n <- g :: |g[n]| < base && (rank[n] == 0 ==> g[n] == {})
    ensures IsMeasure(g, WeightOfRank(rank, base), ShareOfRank(rank, base))
  {
    var weight, share := WeightOfRank(rank, base), ShareOfRank(rank, base);
    forall n <- g ensures Times(|g[n]|, share[n]) < weight[n] {
      WeighsMore(g, rank, base, n);
    }
    forall n, m | n in g && m in g[n] ensures weight[m] <= share[n] {
      assert |g[n]| < base;
      WeighsAtMostShare(rank, base, n, m);
    }
  }

  lemma AcyclicHasMeasure<N>(g: map<N, set<N>>) returns (weight: map<N, nat>, share: map<N, nat>)
    requires WellFormed(g) && Acyclic(g)
    ensures IsMeasure(g, weight, share)
  {
    RanksDecrease(g);
    forall n <- g ensures |g[n]| <= |g| && (Rank(g, n) == 0 ==> g[n] == {}) {
      FewPrerequisites(g, n);
    }
    var rank := map n | n in g :: Rank(g, n);
    weight, share := WeightOfRank(rank, |g| + 1), ShareOfRank(rank, |g| + 1);
    RankGivesMeasure(g, rank, |g| + 1);
  }

  ghost function StackWeight<N>(weight: map<N, nat>, stack: seq<N>): nat
    requires forall n <- stack :: n in weight
  {
    if stack == [] then 0
    else StackWeight(weight, stack[..|stack| - 1]) + weight[stack[|stack| - 1]]
  }

  lemma StackWeightPush<N>(weight: map<N, nat>, stack: seq<N>, n: N)
    requires (forall n <- stack :: n in weight) && n in weight
    ensures StackWeight(weight, stack + [n]) == StackWeight(weight, stack) + weight[n]
  {
    assert (stack + [n])[..|stack|] == stack;
  }

  lemma MoveToStack<N>(g: map<N, set<N>>, weight: map<N, nat>, share: map<N, nat>,
                       stack: seq<N>, exp: N, rest: set<N>, next: N)
    requires IsMeasure(g, weight, share) && (forall n <- stack :: n in weight)
    requires exp in g && rest <= g[exp] && next in rest
    ensures next in g
    ensures StackWeight(weight, stack + [next]) + Times(|rest - {next}|, share[exp])
         <= StackWeight(weight, stack) + Times(|rest|, share[exp])
  {
    StackWeightPush(weight, stack, next);
    assert |rest| == |rest - {next}| + 1;
  }

  /** `stack'` extends `stack` by nodes of `E`, and holds all that `S'` has beyond `S`. */
  ghost predicate PushedOnto<N>(stack: seq<N>, stack': seq<N>, S: set<N>, S': set<N>, E: set<N>) {
    && stack <= stack'
    && (forall e <- stack' :: e in stack || e in E)
    && (forall e <- S' :: e in S || e in stack')
  }

  /**
   The state of a walk along the edges of `idle` that collects unsatisfied prerequisites: whatever has
   left the stack has had its own collected.
   */
  ghost predicate Collecting<N>(g: map<N, set<N>>, idle: map<N, set<N>>, satisfied: set<N>, root: N,
                                stack: seq<N>, pushed: set<N>, result: set<N>, found: set<N>)
    requires WellFormed(g) && WellFormed(idle) && idle.Keys == g.Keys && root in g
  {
    var Z := {root} + Transitive(idle, root);
    && pushed <= Transitive(idle, root)
    && Behind(idle, root, stack) && Explored(idle, root, stack, pushed)
    && result <= found <= result + (Successors(g, Z) - satisfied)
    && (forall e <- {root} + pushed :: e in stack || g[e] - satisfied <= found)
  }

  lemma CollectStart<N>(g: map<N, set<N>>, idle: map<N, set<N>>, satisfied: set<N>, root: N, result: set<N>)
    requires WellFormed(g) && WellFormed(idle) && idle.Keys == g.Keys && root in g
    ensures Collecting(g, idle, satisfied, root, [root], {}, result, result)
  {
  }

  lemma CollectStep<N>(g: map<N, set<N>>, idle: map<N, set<N>>, satisfied: set<N>, root: N,
                       stack: seq<N>, exp: N, pushed: set<N>, found: set<N>,
                       stack': seq<N>, pushed': set<N>, result: set<N>, found': set<N>)
    requires WellFormed(g) && WellFormed(idle) && idle.Keys == g.Keys && root in g && exp in g
    requires Collecting(g, idle, satisfied, root, stack + [exp], pushed, result, found)
    requires pushed' == pushed + idle[exp] && found' == found + (g[exp] - satisfied)
    requires PushedOnto(stack, stack', pushed, pushed', idle[exp])
    ensures Collecting(g, idle, satisfied, root, stack', pushed', result, found')
  {
    assert exp in stack + [exp];
    assert idle[exp] <= Transitive(idle, root);
    ExploreStep(idle, root, stack, exp, pushed, stack', pushed');
    forall e | e in stack ensures e in stack + [exp] {}
    forall e | e in stack + [exp] ensures e == exp || e in stack' {
      assert e in stack || e in [exp];
    }
    forall n | n in g[exp] ensures n in Successors(g, {root} + Transitive(idle, root)) {}
  }

  lemma CollectDone<N>(g: map<N, set<N>>, satisfied: set<N>, called: set<N>, root: N,
                       pushed: set<N>, result: set<N>, found: set<N>)
    requires WellFormed(g) && root in g
    requires Collecting(g, Idle(g, satisfied, called), satisfied, root, [], pushed, result, found)
    ensures found == result + Frontier(g, satisfied, called, root)
  {
    ExploreDone(Idle(g, satisfied, called), root, pushed);
    forall n | n in Frontier(g, satisfied, called, root) ensures n in found {
      var e :| e in {root} + pushed && n in g[e];
      assert g[e] - satisfied <= found;
    }
  }
}
