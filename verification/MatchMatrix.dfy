/** The bipartite graph of gmock's unordered matchers, and the theory of matchings over it. */
module MatchMatrices {
  import opened Iteration

  /** `size_t(-1)`, the value that stands for "no partner". */
  const UNUSED := 0xFFFF_FFFF_FFFF_FFFF

  type SizeT = n: nat | n <= UNUSED

  /** A row starts where `Times` says, which keeps the proofs about the matrix linear. */
  lemma {:induction false} RowStartIsProduct(l: nat, width: nat)
    ensures Times(l, width) == l * width
  {
    if l > 0 {
      RowStartIsProduct(l - 1, width);
    }
  }

  lemma {:induction false} RowsAreApart(l: nat, l': nat, width: nat)
    requires l < l'
    ensures Times(l, width) + width <= Times(l', width)
  {
    if l + 1 < l' {
      RowsAreApart(l, l' - 1, width);
    }
  }

  /** A flattened, lhs-major adjacency matrix: `lhs` elements against `rhs` matchers. */
  datatype MatchMatrix = MatchMatrix(lhs: SizeT, rhs: SizeT, matched: seq<bool>) {
    ghost predicate Valid() {
      |matched| == Times(lhs, rhs)
    }

    function SpaceIndex(l: nat, r: nat): (i: nat)
      requires Valid() && l < lhs && r < rhs
      ensures i < |matched|
    {
      RowsAreApart(l, lhs, rhs);
      Times(l, rhs) + r
    }

    predicate HasEdge(l: nat, r: nat)
      requires Valid() && l < lhs && r < rhs
    {
      matched[SpaceIndex(l, r)]
    }

    function SetEdge(l: nat, r: nat, b: bool): (g: MatchMatrix)
      requires Valid() && l < lhs && r < rhs
      ensures g.Valid() && g.lhs == lhs && g.rhs == rhs
    {
      this.(matched := matched[SpaceIndex(l, r) := b])
    }
  }

  /** No two coordinates share a cell: an update is seen at its own coordinates and nowhere else. */
  lemma SetEdgeIsLocal(g: MatchMatrix, l: nat, r: nat, b: bool, l': nat, r': nat)
    requires g.Valid() && l < g.lhs && r < g.rhs && l' < g.lhs && r' < g.rhs
    ensures g.SetEdge(l, r, b).HasEdge(l', r') == if (l, r) == (l', r') then b else g.HasEdge(l', r')
  {
    if l < l' {
      RowsAreApart(l, l', g.rhs);
    } else if l' < l {
      RowsAreApart(l', l, g.rhs);
    }
  }

  /** Edges of `g` with pairwise distinct left ends and pairwise distinct right ends. */
  ghost predicate IsMatching(g: MatchMatrix, M: set<(nat, nat)>)
    requires g.Valid()
  {
    && (forall e <- M :: e.0 < g.lhs && e.1 < g.rhs && g.HasEdge(e.0, e.1))
    && (forall e <- M, f <- M :: e.0 == f.0 || e.1 == f.1 ==> e == f)
  }

  /** Every edge of `g` has its left end in `L` or its right end in `R`. */
  ghost predicate IsVertexCover(g: MatchMatrix, L: set<nat>, R: set<nat>)
    requires g.Valid()
  {
    forall l, r | 0 <= l < g.lhs && 0 <= r < g.rhs && g.HasEdge(l, r) :: l in L || r in R
  }

  ghost function Lefts(M: set<(nat, nat)>): set<nat> {
    set e <- M :: e.0
  }

  ghost function Rights(M: set<(nat, nat)>): set<nat> {
    set e <- M :: e.1
  }

  lemma {:induction false} DistinctLeftsCount(M: set<(nat, nat)>)
    requires forall e <- M, f <- M :: e.0 == f.0 ==> e == f
    ensures |Lefts(M)| == |M|
  {
    if M != {} {
      var e :| e in M;
      DistinctLeftsCount(M - {e});
      assert Lefts(M) == Lefts(M - {e}) + {e.0};
    }
  }

  lemma {:induction false} DistinctRightsCount(M: set<(nat, nat)>)
    requires forall e <- M, f <- M :: e.1 == f.1 ==> e == f
    ensures |Rights(M)| == |M|
  {
    if M != {} {
      var e :| e in M;
      DistinctRightsCount(M - {e});
      assert Rights(M) == Rights(M - {e}) + {e.1};
    }
  }

  lemma SubsetCount<T>(a: set<T>, b: set<T>)
    requires a <= b
    ensures |a| <= |b|
    ensures |a| == |b| ==> a == b
  {
    assert |b| == |a| + |b - a| by {
      assert b == a + (b - a);
    }
  }

  ghost function Below(n: nat): (s: set<nat>)
    ensures forall i: nat :: i in s <==> i < n
    ensures |s| == n
  {
    if n == 0 then {} else Below(n - 1) + {n - 1}
  }

  ghost function EdgesInto(M: set<(nat, nat)>, R: set<nat>): set<(nat, nat)> {
    set e <- M | e.1 in R
  }

  lemma EdgesIntoCount(M: set<(nat, nat)>, R: set<nat>)
    requires forall e <- M, f <- M :: e.1 == f.1 ==> e == f
    ensures |EdgesInto(M, R)| <= |R|
  {
    DistinctRightsCount(EdgesInto(M, R));
    SubsetCount(Rights(EdgesInto(M, R)), R);
  }

  lemma EdgesFromCount(M: set<(nat, nat)>, L: set<nat>)
    requires forall e <- M, f <- M :: e.0 == f.0 ==> e == f
    requires Lefts(M) <= L
    ensures |M| <= |L|
  {
    DistinctLeftsCount(M);
    SubsetCount(Lefts(M), L);
  }

  /** Weak duality: no matching is larger than any vertex cover. */
  lemma MatchingAtMostCover(g: MatchMatrix, M: set<(nat, nat)>, L: set<nat>, R: set<nat>)
    requires g.Valid() && IsMatching(g, M) && IsVertexCover(g, L, R)
    ensures |M| <= |L| + |R|
  {
    var MR := EdgesInto(M, R);
    EdgesIntoCount(M, R);
    EdgesFromCount(M - MR, L);
    assert M == (M - MR) + MR;
  }

  ghost predicate CoversLeft(g: MatchMatrix, M: set<(nat, nat)>) {
    forall l | 0 <= l < g.lhs :: l in Lefts(M)
  }

  ghost predicate CoversRight(g: MatchMatrix, M: set<(nat, nat)>) {
    forall r | 0 <= r < g.rhs :: r in Rights(M)
  }

  /** A matching covers all elements (or all matchers) exactly when it is large enough. */
  lemma CoverageBySize(g: MatchMatrix, M: set<(nat, nat)>)
    requires g.Valid() && IsMatching(g, M)
    ensures |M| <= g.lhs && |M| <= g.rhs
    ensures CoversLeft(g, M) <==> |M| == g.lhs
    ensures CoversRight(g, M) <==> |M| == g.rhs
  {
    DistinctLeftsCount(M);
    SubsetCount(Lefts(M), Below(g.lhs));
    assert CoversLeft(g, M) <==> Lefts(M) == Below(g.lhs);
    DistinctRightsCount(M);
    SubsetCount(Rights(M), Below(g.rhs));
    assert CoversRight(g, M) <==> Rights(M) == Below(g.rhs);
  }
}
