/** gmock's maximum bipartite matching (Ford-Fulkerson by depth-first search) and `FindPairing`. */
module BipartiteMatching {
  import opened MatchMatrices

  /** Every used entry of `left` is an edge of `g` and is mirrored in `right`. */
  ghost predicate LeftMirrored(g: MatchMatrix, left: seq<SizeT>, right: seq<SizeT>)
    requires g.Valid() && |left| == g.lhs && |right| == g.rhs
  {
    forall l | 0 <= l < g.lhs && left[l] != UNUSED ::
      left[l] < g.rhs && g.HasEdge(l, left[l]) && right[left[l]] == l
  }

  /** Every used entry of `right`, the one at `hole` excepted, is mirrored in `left`. */
  ghost predicate RightMirroredExcept(g: MatchMatrix, left: seq<SizeT>, right: seq<SizeT>, hole: SizeT)
    requires g.Valid() && |left| == g.lhs && |right| == g.rhs
  {
    forall r | 0 <= r < g.rhs && r != hole && right[r] != UNUSED ::
      right[r] < g.lhs && left[right[r]] == r
  }

  /** Used entries of the two vectors refer to each other along edges of `g`. */
  ghost predicate MutuallyReferent(g: MatchMatrix, left: seq<SizeT>, right: seq<SizeT>) {
    && g.Valid() && |left| == g.lhs && |right| == g.rhs
    && LeftMirrored(g, left, right)
    && RightMirroredExcept(g, left, right, UNUSED)
  }

  /** All neighbours of left node `l` lie in `D`. */
  ghost predicate Stuck(g: MatchMatrix, l: nat, D: set<nat>)
    requires g.Valid() && l < g.lhs
  {
    forall r: nat | r < g.rhs && g.HasEdge(l, r) :: r in D
  }

  /** Every node of `E` is matched, to a left node whose neighbours all lie in `D`. */
  ghost predicate LeadsInto(g: MatchMatrix, right: seq<SizeT>, E: set<nat>, D: set<nat>)
    requires g.Valid() && |right| == g.rhs
  {
    forall r <- E :: r < g.rhs && right[r] < g.lhs && Stuck(g, right[r], D)
  }

  /** A set of right nodes from which no augmenting path can leave. */
  ghost predicate DeadEnd(g: MatchMatrix, right: seq<SizeT>, D: set<nat>)
    requires g.Valid() && |right| == g.rhs
  {
    LeadsInto(g, right, D, D)
  }

  ghost function Marked(seen: seq<bool>): set<nat> {
    set r: nat | r < |seen| && seen[r]
  }

  ghost function Unmarked(seen: seq<bool>): set<nat> {
    Below(|seen|) - Marked(seen)
  }

  /** The matching that `left` describes. */
  ghost function Pairs(left: seq<SizeT>): set<(nat, nat)> {
    set l: nat | l < |left| && left[l] != UNUSED :: (l, left[l])
  }

  lemma PairsAreMatching(g: MatchMatrix, left: seq<SizeT>, right: seq<SizeT>)
    requires MutuallyReferent(g, left, right)
    ensures IsMatching(g, Pairs(left))
  {
  }

  /** The matched left nodes whose partner lies outside `D`. */
  ghost function FreeOf(left: seq<SizeT>, D: set<nat>): set<nat> {
    set l: nat | l < |left| && left[l] != UNUSED && left[l] !in D
  }

  /**
   Koenig's theorem for the final state: a dead end that no unmatched left node can leave, together
   with the matched left nodes whose partner lies outside it, is a vertex cover ...
   */
  lemma DeadEndGivesCover(g: MatchMatrix, left: seq<SizeT>, right: seq<SizeT>, D: set<nat>)
    requires MutuallyReferent(g, left, right) && DeadEnd(g, right, D)
    requires forall l: nat | l < g.lhs && left[l] == UNUSED :: Stuck(g, l, D)
    ensures IsVertexCover(g, FreeOf(left, D), D)
  {
    forall l: nat, r: nat | l < g.lhs && r < g.rhs && g.HasEdge(l, r) ensures l in FreeOf(left, D) || r in D {
      if left[l] != UNUSED && left[l] in D {
        assert Stuck(g, right[left[l]], D);
      }
    }
  }

  ghost function PairsInto(left: seq<SizeT>, D: set<nat>): set<(nat, nat)> {
    set e <- Pairs(left) | e.1 in D
  }

  lemma DeadPairsCount(g: MatchMatrix, left: seq<SizeT>, right: seq<SizeT>, D: set<nat>)
    requires MutuallyReferent(g, left, right) && DeadEnd(g, right, D)
    ensures |PairsInto(left, D)| == |D|
  {
    DistinctRightsCount(PairsInto(left, D));
    forall r | r in D ensures r in Rights(PairsInto(left, D)) {
      assert (right[r], r) in PairsInto(left, D);
    }
    assert Rights(PairsInto(left, D)) == D;
  }

  lemma FreePairsCount(left: seq<SizeT>, D: set<nat>)
    ensures |Pairs(left) - PairsInto(left, D)| == |FreeOf(left, D)|
  {
    var F := Pairs(left) - PairsInto(left, D);
    DistinctLeftsCount(F);
    forall l | l in FreeOf(left, D) ensures l in Lefts(F) {
      assert (l, left[l]) in F;
    }
    assert Lefts(F) == FreeOf(left, D);
  }

  /** ... and that cover is as large as the matching. */
  lemma DeadEndCoverSize(g: MatchMatrix, left: seq<SizeT>, right: seq<SizeT>, D: set<nat>)
    requires MutuallyReferent(g, left, right) && DeadEnd(g, right, D)
    ensures |FreeOf(left, D)| + |D| == |Pairs(left)|
  {
    DeadPairsCount(g, left, right, D);
    FreePairsCount(left, D);
    assert Pairs(left) == PairsInto(left, D) + (Pairs(left) - PairsInto(left, D));
  }

  lemma LeadsIntoJoin(g: MatchMatrix, right: seq<SizeT>, E: set<nat>, D: set<nat>, r: nat, E': set<nat>, D': set<nat>)
    requires g.Valid() && |right| == g.rhs && D <= D'
    requires LeadsInto(g, right, E, D) && LeadsInto(g, right, E', D')
    requires r < g.rhs && right[r] < g.lhs && Stuck(g, right[r], D')
    ensures LeadsInto(g, right, E + {r} + E', D')
  {
  }

  lemma SeenSince(first: set<nat>, before: set<nat>, r: nat, after: set<nat>)
    requires first <= before && before + {r} <= after && r !in before
    ensures before - first + {r} + (after - (before + {r})) == after - first
  {
  }

  /** What a successful search from `l` does to the two vectors, `frozen` being the right nodes it must not move. */
  ghost predicate Augmented(g: MatchMatrix, left: seq<SizeT>, right: seq<SizeT>, l: nat, frozen: set<nat>,
                            left': seq<SizeT>, right': seq<SizeT>)
    requires g.Valid() && |left| == |left'| == g.lhs && |right| == |right'| == g.rhs && l < g.lhs
  {
    // only the former partner of `l`, which the caller re-links, is left without a mirror
    && LeftMirrored(g, left', right')
    && RightMirroredExcept(g, left', right', left[l])
    // one more left node is matched, none is unmatched
    && left'[l] != UNUSED
    && (forall i | 0 <= i < g.lhs && i != l :: left'[i] == UNUSED <==> left[i] == UNUSED)
    && left'[l] !in frozen
    && (forall r <- frozen | r < g.rhs :: right'[r] == right[r])
  }

  /** Linking `l` to a right node that is free, or has just been vacated, completes an augmentation. */
  lemma LinkAugments(g: MatchMatrix, left: seq<SizeT>, right: seq<SizeT>, l: nat, r: nat, frozen: set<nat>,
                     left': seq<SizeT>, right': seq<SizeT>)
    requires MutuallyReferent(g, left, right) && |left'| == g.lhs && |right'| == g.rhs
    requires l < g.lhs && r < g.rhs && g.HasEdge(l, r) && r !in frozen
    requires left[l] == UNUSED || left[l] in frozen
    requires if right[r] == UNUSED then left' == left && right' == right
             else right[r] < g.lhs && Augmented(g, left, right, right[r], frozen + {r}, left', right')
    ensures Augmented(g, left, right, l, frozen, left'[l := r], right'[r := l])
  {
    if right[r] != UNUSED && left[l] != UNUSED {
      assert right'[left[l]] == l && left'[l] == left[l];
    }
  }

  /** The matching that `left` describes, in order of the left nodes. */
  ghost function PairList(left: seq<SizeT>): seq<(nat, nat)> {
    if left == [] then []
    else
      var n := |left| - 1;
      PairList(left[..n]) + if left[n] == UNUSED then [] else [(n, left[n])]
  }

  ghost function ToSet<T>(s: seq<T>): set<T> {
    set x | x in s
  }

  lemma {:induction false} PairListIsPairs(left: seq<SizeT>)
    ensures ToSet(PairList(left)) == Pairs(left)
    ensures |PairList(left)| == |Pairs(left)|
  {
    if left != [] {
      var n := |left| - 1;
      PairListIsPairs(left[..n]);
      assert forall e <- Pairs(left[..n]) :: e.0 < n;
      if left[n] == UNUSED {
        assert Pairs(left) == Pairs(left[..n]);
        assert PairList(left) == PairList(left[..n]);
      } else {
        assert Pairs(left) == Pairs(left[..n]) + {(n, left[n])};
      }
    }
  }

  lemma {:induction false} PairListIsOrdered(left: seq<SizeT>)
    ensures forall p <- PairList(left) :: p.0 < |left|
    ensures forall i, j | 0 <= i < j < |PairList(left)| :: PairList(left)[i].0 < PairList(left)[j].0
  {
    if left != [] {
      PairListIsOrdered(left[..|left| - 1]);
    }
  }

  /** `result` lists a matching of `g` without repetition. */
  ghost predicate IsMatchingList(g: MatchMatrix, result: seq<(nat, nat)>)
    requires g.Valid()
  {
    IsMatching(g, ToSet(result)) && |ToSet(result)| == |result|
  }

  class MaxBipartiteMatchState {
    const graph: MatchMatrix
    const left: array<SizeT>
    const right: array<SizeT>

    ghost predicate Valid()
      reads left, right
    {
      left != right && MutuallyReferent(graph, left[..], right[..])
    }

    constructor (g: MatchMatrix)
      requires g.Valid()
      ensures graph == g && Valid() && fresh(left) && fresh(right)
      ensures forall l | 0 <= l < g.lhs :: left[l] == UNUSED
    {
      graph := g;
      left := new SizeT[g.lhs](_ => UNUSED);
      right := new SizeT[g.rhs](_ => UNUSED);
    }

    /**
     Depth-first search for an augmenting path from left node `ilhs` through unseen right nodes.
     `dead` is any dead end known beforehand: the search cannot get out of it, and leaves it alone.
     */
    method TryAugment(ilhs: nat, seen: array<bool>, ghost dead: set<nat>) returns (ok: bool)
      requires Valid() && ilhs < graph.lhs
      requires seen.Length == graph.rhs
      requires left[ilhs] != UNUSED ==> seen[left[ilhs]]
      requires DeadEnd(graph, right[..], dead)
      modifies left, right, seen
      ensures Marked(old(seen[..])) <= Marked(seen[..])
      // Failure: nothing moved, and everything newly seen is a dead end that `ilhs` cannot leave.
      ensures !ok ==> left[..] == old(left[..]) && right[..] == old(right[..])
      ensures !ok ==> Stuck(graph, ilhs, Marked(seen[..]))
      ensures !ok ==> LeadsInto(graph, right[..], Marked(seen[..]) - Marked(old(seen[..])), Marked(seen[..]))
      // Success: an augmentation that moves neither seen nor dead right nodes.
      ensures ok ==>
        Augmented(graph, old(left[..]), old(right[..]), ilhs, Marked(old(seen[..])) + dead, left[..], right[..])
      ensures ok ==> !Stuck(graph, ilhs, dead)
      decreases Unmarked(seen[..])
    {
      ghost var left0, right0, seen0 := left[..], right[..], Marked(seen[..]);
      for irhs := 0 to graph.rhs
        invariant left[..] == left0 && right[..] == right0 && seen0 <= Marked(seen[..])
        invariant forall r: nat | r < irhs && graph.HasEdge(ilhs, r) :: r in Marked(seen[..])
        invariant LeadsInto(graph, right0, Marked(seen[..]) - seen0, Marked(seen[..]))
      {
        if seen[irhs] { continue; }
        if !graph.HasEdge(ilhs, irhs) { continue; }
        ghost var before := Marked(seen[..]);
        seen[irhs] := true;
        ghost var start := Marked(seen[..]);
        assert start == before + {irhs};
        var found := right[irhs] == UNUSED;
        if !found {
          assert Unmarked(seen[..]) <= Unmarked(old(seen[..])) && irhs in Unmarked(old(seen[..]));
          found := TryAugment(right[irhs], seen, dead);
        }
        if found {
          assert irhs !in dead;
          LinkAugments(graph, left0, right0, ilhs, irhs, before + dead, left[..], right[..]);
          left[ilhs] := irhs;
          right[irhs] := ilhs;
          return true;
        }
        LeadsIntoJoin(graph, right0, before - seen0, before, irhs, Marked(seen[..]) - start, Marked(seen[..]));
        SeenSince(seen0, before, irhs, Marked(seen[..]));
      }
      return false;
    }

    /**
     One search per left node, then the pairs in order of their left nodes. The result is a matching
     and, by the vertex cover of the same size, no matching of the graph is larger.
     */
    method Compute() returns (result: seq<(nat, nat)>)
      requires Valid()
      requires forall l | 0 <= l < graph.lhs :: left[l] == UNUSED
      modifies left, right
      ensures Valid() && result == PairList(left[..]) && IsMatchingList(graph, result)
      ensures exists L, R :: IsVertexCover(graph, L, R) && |L| + |R| == |result|
    {
      var seen := new bool[graph.rhs];
      ghost var dead: set<nat> := {};
      for ilhs := 0 to graph.lhs
        invariant Valid()
        invariant DeadEnd(graph, right[..], dead)
        invariant forall l: nat | l < ilhs && left[l] == UNUSED :: Stuck(graph, l, dead)
        invariant forall l: nat | ilhs <= l < graph.lhs :: left[l] == UNUSED
      {
        assert left[ilhs] == UNUSED;
        forall r | 0 <= r < seen.Length { seen[r] := false; }
        assert Marked(seen[..]) == {};
        var ok := TryAugment(ilhs, seen, dead);
        if !ok {
          dead := dead + Marked(seen[..]);
        }
      }
      DeadEndGivesCover(graph, left[..], right[..], dead);
      DeadEndCoverSize(graph, left[..], right[..], dead);

      result := ListPairs();
      PairListIsPairs(left[..]);
      PairsAreMatching(graph, left[..], right[..]);
    }

    /** The second loop of `Compute`. */
    method ListPairs() returns (result: seq<(nat, nat)>)
      ensures result == PairList(left[..])
    {
      result := [];
      for ilhs := 0 to left.Length
        invariant result == PairList(left[..ilhs])
      {
        assert left[..ilhs + 1] == left[..ilhs] + [left[ilhs]];
        var irhs := left[ilhs];
        if irhs == UNUSED { continue; }
        result := result + [(ilhs, irhs)];
      }
      assert left[..left.Length] == left[..];
    }
  }

  /** No set of edges with distinct left ends and distinct right ends is larger than the result. */
  method FindMaxBipartiteMatching(g: MatchMatrix) returns (result: seq<(nat, nat)>)
    requires g.Valid()
    ensures IsMatchingList(g, result)
    ensures forall i, j | 0 <= i < j < |result| :: result[i].0 < result[j].0
    ensures forall M | IsMatching(g, M) :: |M| <= |result|
  {
    var state := new MaxBipartiteMatchState(g);
    result := state.Compute();
    PairListIsOrdered(state.left[..]);
    ghost var L, R :| IsVertexCover(g, L, R) && |L| + |R| == |result|;
    forall M | IsMatching(g, M) ensures |M| <= |result| {
      MatchingAtMostCover(g, M, L, R);
    }
  }

  const SUPERSET: bv2 := 1
  const SUBSET: bv2 := 2
  const EXACT_MATCH: bv2 := 3

  /** `M` assigns an element of its own to every matcher (Superset) and a matcher to every element (Subset). */
  ghost predicate SatisfiesFlags(g: MatchMatrix, flags: bv2, M: set<(nat, nat)>)
    requires g.Valid()
  {
    && IsMatching(g, M)
    && (flags & SUPERSET != 0 ==> CoversRight(g, M))
    && (flags & SUBSET != 0 ==> CoversLeft(g, M))
  }

  ghost predicate MatcherHasPair(M: set<(nat, nat)>, r: nat) {
    exists l: nat :: (l, r) in M
  }

  ghost predicate ElementHasPair(M: set<(nat, nat)>, l: nat) {
    exists r: nat :: (l, r) in M
  }

  lemma CoversMean(g: MatchMatrix, M: set<(nat, nat)>)
    ensures CoversRight(g, M) <==> forall r: nat | r < g.rhs :: MatcherHasPair(M, r)
    ensures CoversLeft(g, M) <==> forall l: nat | l < g.lhs :: ElementHasPair(M, l)
  {
    forall r: nat ensures r in Rights(M) <==> MatcherHasPair(M, r) {
      if e :| e in M && e.1 == r { assert (e.0, r) in M; }
    }
    forall l: nat ensures l in Lefts(M) <==> ElementHasPair(M, l) {
      if e :| e in M && e.0 == l { assert (l, e.1) in M; }
    }
  }

  /** Bit 0 asks for a pair for every matcher, bit 1 for one for every element. */
  lemma FlagsMean(g: MatchMatrix, M: set<(nat, nat)>)
    requires g.Valid()
    ensures SatisfiesFlags(g, 0, M) <==> IsMatching(g, M)
    ensures SatisfiesFlags(g, 1, M) <==> IsMatching(g, M) && forall r: nat | r < g.rhs :: MatcherHasPair(M, r)
    ensures SatisfiesFlags(g, 2, M) <==> IsMatching(g, M) && forall l: nat | l < g.lhs :: ElementHasPair(M, l)
    ensures SatisfiesFlags(g, 3, M) <==> SatisfiesFlags(g, 1, M) && SatisfiesFlags(g, 2, M)
  {
    CoversMean(g, M);
  }

  /** The two size tests decide the existence of the assignment that the flags ask for. */
  method FindPairing(matrix: MatchMatrix, flags: bv2) returns (ok: bool)
    requires matrix.Valid()
    ensures ok <==> exists M :: SatisfiesFlags(matrix, flags, M)
  {
    var matches := FindMaxBipartiteMatching(matrix);
    var maxFlow := |matches|;
    CoverageBySize(matrix, ToSet(matches));
    forall M | IsMatching(matrix, M) ensures |M| <= maxFlow {}
    forall M | SatisfiesFlags(matrix, flags, M)
      ensures flags & SUPERSET != 0 ==> maxFlow >= matrix.rhs
      ensures flags & SUBSET != 0 ==> maxFlow >= matrix.lhs
    {
      CoverageBySize(matrix, M);
    }
    if flags & SUPERSET != 0 && maxFlow < matrix.rhs {
      return false;
    }
    if flags & SUBSET != 0 && maxFlow < matrix.lhs {
      return false;
    }
    assert SatisfiesFlags(matrix, flags, ToSet(matches));
    return true;
  }

  ghost predicate ElementMatches(g: MatchMatrix, l: nat, upto: nat)
    requires g.Valid() && l < g.lhs && upto <= g.rhs
  {
    exists r | 0 <= r < upto :: g.HasEdge(l, r)
  }

  ghost predicate MatcherMatches(g: MatchMatrix, r: nat, upto: nat)
    requires g.Valid() && r < g.rhs && upto <= g.lhs
  {
    exists l | 0 <= l < upto :: g.HasEdge(l, r)
  }

  /** The quick check made before `FindPairing`: every matcher, or element, matches something at all. */
  method VerifyMatchMatrix(matrix: MatchMatrix, flags: bv2) returns (ok: bool)
    requires matrix.Valid()
    ensures ok <==>
      && (flags & SUPERSET != 0 ==> forall r | 0 <= r < matrix.rhs :: MatcherMatches(matrix, r, matrix.lhs))
      && (flags & SUBSET != 0 ==> forall l | 0 <= l < matrix.lhs :: ElementMatches(matrix, l, matrix.rhs))
  {
    var elementMatched := new bool[matrix.lhs](_ => false);
    var matcherMatched := new bool[matrix.rhs](_ => false);
    for ilhs := 0 to matrix.lhs
      invariant forall l | 0 <= l < matrix.lhs ::
        elementMatched[l] <==> l < ilhs && ElementMatches(matrix, l, matrix.rhs)
      invariant forall r | 0 <= r < matrix.rhs :: matcherMatched[r] <==> MatcherMatches(matrix, r, ilhs)
    {
      for irhs := 0 to matrix.rhs
        invariant elementMatched[ilhs] <==> ElementMatches(matrix, ilhs, irhs)
        invariant forall l | 0 <= l < matrix.lhs && l != ilhs ::
          elementMatched[l] <==> l < ilhs && ElementMatches(matrix, l, matrix.rhs)
        invariant forall r | 0 <= r < matrix.rhs ::
          matcherMatched[r] <==> MatcherMatches(matrix, r, if r < irhs then ilhs + 1 else ilhs)
      {
        var matched := matrix.HasEdge(ilhs, irhs);
        elementMatched[ilhs] := elementMatched[ilhs] || matched;
        matcherMatched[irhs] := matcherMatched[irhs] || matched;
      }
    }
    ok := true;
    if flags & SUPERSET != 0 {
      for mi := 0 to matcherMatched.Length
        invariant ok <==> forall r | 0 <= r < mi :: matcherMatched[r]
      {
        if matcherMatched[mi] { continue; }
        ok := false;
      }
    }
    ghost var superset := ok;
    if flags & SUBSET != 0 {
      for ei := 0 to elementMatched.Length
        invariant ok <==> superset && forall l | 0 <= l < ei :: elementMatched[l]
      {
        if elementMatched[ei] { continue; }
        ok := false;
      }
    }
  }

  lemma PrecheckIsNecessary(g: MatchMatrix, flags: bv2, M: set<(nat, nat)>)
    requires g.Valid() && SatisfiesFlags(g, flags, M)
    ensures flags == EXACT_MATCH ==> g.lhs == g.rhs
    ensures flags & SUPERSET != 0 ==> forall r | 0 <= r < g.rhs :: MatcherMatches(g, r, g.lhs)
    ensures flags & SUBSET != 0 ==> forall l | 0 <= l < g.lhs :: ElementMatches(g, l, g.rhs)
  {
    CoverageBySize(g, M);
    forall r | 0 <= r < g.rhs && r in Rights(M) ensures MatcherMatches(g, r, g.lhs) {
      var e: (nat, nat) :| e in M && e.1 == r;
    }
    forall l | 0 <= l < g.lhs && l in Lefts(M) ensures ElementMatches(g, l, g.rhs) {
      var e: (nat, nat) :| e in M && e.0 == l;
    }
  }

  /** The size test and the quick check are shortcuts only: the verdict is that of the pairing alone. */
  method MatchAndExplain(matrix: MatchMatrix, flags: bv2) returns (ok: bool)
    requires matrix.Valid()
    ensures ok <==> exists M :: SatisfiesFlags(matrix, flags, M)
  {
    forall M | SatisfiesFlags(matrix, flags, M)
      ensures flags == EXACT_MATCH ==> matrix.lhs == matrix.rhs
      ensures flags & SUPERSET != 0 ==> forall r | 0 <= r < matrix.rhs :: MatcherMatches(matrix, r, matrix.lhs)
      ensures flags & SUBSET != 0 ==> forall l | 0 <= l < matrix.lhs :: ElementMatches(matrix, l, matrix.rhs)
    {
      PrecheckIsNecessary(matrix, flags, M);
    }
    if matrix.lhs == 0 && matrix.rhs == 0 {
      assert SatisfiesFlags(matrix, flags, {});
      return true;
    }
    if flags == EXACT_MATCH && matrix.lhs != matrix.rhs {
      return false;
    }
    ok := VerifyMatchMatrix(matrix, flags);
    if ok {
      ok := FindPairing(matrix, flags);
    }
  }

  /** `assignment` lists, element by element, pairwise distinct matchers that accept them, leaving none out. */
  ghost predicate IsBijection(g: MatchMatrix, assignment: seq<nat>)
    requires g.Valid()
  {
    && |assignment| == g.lhs == g.rhs
    && (forall l | 0 <= l < g.lhs :: assignment[l] < g.rhs && g.HasEdge(l, assignment[l]))
    && (forall i, j | 0 <= i < j < g.lhs :: assignment[i] != assignment[j])
  }

  ghost function PartnerOf(M: set<(nat, nat)>, l: nat): (r: nat)
    requires l in Lefts(M)
    ensures (l, r) in M
  {
    var e: (nat, nat) :| e in M && e.0 == l;
    e.1
  }

  /** With both flags set the assignment asked for is a bijection between elements and matchers. */
  lemma ExactMatchIsBijection(g: MatchMatrix)
    requires g.Valid()
    ensures (exists M :: SatisfiesFlags(g, EXACT_MATCH, M)) <==> (exists a :: IsBijection(g, a))
  {
    if M :| SatisfiesFlags(g, EXACT_MATCH, M) {
      CoverageBySize(g, M);
      var a := seq(g.lhs, l requires 0 <= l < g.lhs && l in Lefts(M) => PartnerOf(M, l));
      assert forall l | 0 <= l < g.lhs :: (l, a[l]) in M;
      assert IsBijection(g, a);
    }
    if a :| IsBijection(g, a) {
      var M := set l: nat | l < g.lhs :: (l, a[l]);
      assert IsMatching(g, M);
      assert CoversLeft(g, M) by {
        forall l | 0 <= l < g.lhs ensures l in Lefts(M) {
          assert (l, a[l]) in M;
        }
      }
      CoverageBySize(g, M);
      assert SatisfiesFlags(g, EXACT_MATCH, M);
    }
  }
}
