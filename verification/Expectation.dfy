/** gmock's expectations: retirement, satisfaction of prerequisites, sequences, and runs of calls. */
module Expectations {
  import opened Iteration
  import opened PrerequisiteGraphs

  /** The two questions an expectation asks of its cardinality. */
  datatype Cardinality = Cardinality(satisfiedBy: nat -> bool, saturatedBy: nat -> bool)

  /** Excessive calls alone never lead to satisfaction. */
  ghost predicate Lawful(cardinality: Cardinality) {
    forall n: nat | n > 0 && AllSaturated(cardinality, n) :: !cardinality.satisfiedBy(n)
  }

  /** Each of the first `n` calls is excessive. */
  ghost predicate AllSaturated(cardinality: Cardinality, n: nat) {
    forall k: nat | k < n :: cardinality.saturatedBy(k)
  }

  lemma OneMoreCall(cardinality: Cardinality, n: nat)
    ensures AllSaturated(cardinality, n + 1) <==> AllSaturated(cardinality, n) && cardinality.saturatedBy(n)
  {
  }

  /** The library's own cardinality: `AtLeast`, `AtMost`, `AnyNumber` and `Exactly` all make one of these. */
  function Between(min: int, max: int): Cardinality {
    var min_ := if min >= 0 then min else 0;
    var max_ := if max >= min_ then max else min_;
    Cardinality(n => min_ <= n <= max_, n => n >= max_)
  }

  /** From `min` to `max` calls satisfy it, and `max` calls saturate it; bounds that do not fit are moved up. */
  lemma BetweenMeans(min: int, max: int, n: nat)
    ensures 0 <= min <= max ==>
      (Between(min, max).satisfiedBy(n) <==> min <= n <= max) && (Between(min, max).saturatedBy(n) <==> n >= max)
    ensures min < 0 ==> Between(min, max) == Between(0, max)
    ensures max < min ==> Between(min, max) == Between(min, min)
  {
  }

  lemma BetweenIsLawful(min: int, max: int)
    ensures Lawful(Between(min, max))
  {
    var c := Between(min, max);
    forall n: nat | n > 0 && AllSaturated(c, n) ensures !c.satisfiedBy(n) {
      assert c.saturatedBy(0);
    }
  }

  class ExpectationBase {
    const cardinality: Cardinality
    const retiresOnSaturation: bool
    var immediatePrerequisites: set<ExpectationBase>
    var callCount: nat
    var retired: bool

    constructor (cardinality: Cardinality, retiresOnSaturation: bool)
      ensures this.cardinality == cardinality && this.retiresOnSaturation == retiresOnSaturation
      ensures immediatePrerequisites == {} && callCount == 0 && !retired
    {
      this.cardinality, this.retiresOnSaturation := cardinality, retiresOnSaturation;
      immediatePrerequisites, callCount, retired := {}, 0, false;
    }

    predicate IsSatisfied()
      reads this`callCount
    {
      cardinality.satisfiedBy(callCount)
    }

    predicate IsSaturated()
      reads this`callCount
    {
      cardinality.saturatedBy(callCount)
    }

    /** Nobody has called this expectation, or only when it was saturated. */
    ghost predicate OnlyExcess()
      reads this`callCount
    {
      AllSaturated(cardinality, callCount)
    }

    /** A depth-first walk that goes no further at expectations that are retired already. */
    method RetireAllPreRequisites(ghost g: Graph)
      requires this in g && Describes(g)
      requires ClosedUnder(g, RetiredOf(g.Keys))
      modifies g.Keys`retired
      ensures RetiredOf(g.Keys) == old(RetiredOf(g.Keys)) + Transitive(g, this)
      ensures ClosedUnder(g, RetiredOf(g.Keys))
    {
      if retired {
        ClosureIsLeast(g, g[this], RetiredOf(g.Keys));
        return;
      }
      var expectations := [this];
      ExploreStart(g, this, RetiredOf(g.Keys));
      while expectations != []
        invariant Behind(g, this, expectations) && Explored(g, this, expectations, RetiredOf(g.Keys))
        invariant old(RetiredOf(g.Keys)) <= RetiredOf(g.Keys) <= old(RetiredOf(g.Keys)) + Transitive(g, this)
        decreases g.Keys - RetiredOf(g.Keys), |expectations|
      {
        ghost var before := RetiredOf(g.Keys);
        SplitLast(expectations);
        var exp := expectations[|expectations| - 1];
        expectations := expectations[..|expectations| - 1];
        ghost var others := expectations;
        expectations := exp.RetireImmediate(expectations, g);
        BehindStep(g, this, others, exp, expectations);
        ExploreStep(g, this, others, exp, before, expectations, RetiredOf(g.Keys));
      }
      ExploreDone(g, this, RetiredOf(g.Keys));
    }

    /** The inner loop: retires immediate prerequisites and pushes those that were not retired yet. */
    method RetireImmediate(stack: seq<ExpectationBase>, ghost g: Graph) returns (expectations: seq<ExpectationBase>)
      requires this in g && Describes(g)
      modifies g.Keys`retired
      ensures RetiredOf(g.Keys) == old(RetiredOf(g.Keys)) + g[this]
      ensures stack <= expectations && forall e <- expectations :: e in stack || e in g[this]
      ensures forall e <- RetiredOf(g.Keys) :: e in old(RetiredOf(g.Keys)) || e in expectations
      ensures RetiredOf(g.Keys) == old(RetiredOf(g.Keys)) ==> expectations == stack
    {
      expectations := stack;
      var rest := immediatePrerequisites;
      while rest != {}
        invariant rest <= g[this]
        invariant stack <= expectations && forall e <- expectations :: e in stack || e in g[this]
        invariant forall e <- g :: old(e.retired) ==> e.retired
        invariant forall e <- g :: e.retired ==> old(e.retired) || (e in g[this] && e in expectations)
        invariant forall e <- g[this] :: e in rest || e.retired
        invariant expectations == stack || exists e <- g :: e.retired && !old(e.retired)
      {
        var next :| next in rest;
        rest := rest - {next};
        if !next.retired {
          next.retired := true;
          expectations := expectations + [next];
        }
      }
      if expectations != stack {
        ghost var e :| e in g && e.retired && !old(e.retired);
        assert e in RetiredOf(g.Keys) && e !in old(RetiredOf(g.Keys));
      }
    }

    /** A depth-first walk without a visited set: it ends because the graph is acyclic. */
    method AllPrerequisitesAreSatisfied(ghost g: Graph) returns (ok: bool)
      requires this in g && Describes(g) && Acyclic(g)
      ensures ok <==> Transitive(g, this) <= SatisfiedOf(g.Keys)
    {
      ghost var weight, share := AcyclicHasMeasure(g);
      ghost var pushed: set<ExpectationBase> := {};
      var expectations := [this];
      ExploreStart(g, this, pushed);
      while expectations != []
        invariant pushed <= Transitive(g, this) && pushed <= SatisfiedOf(g.Keys)
        invariant Behind(g, this, expectations) && Explored(g, this, expectations, pushed)
        decreases StackWeight(weight, expectations)
      {
        ghost var before := pushed;
        SplitLast(expectations);
        var exp := expectations[|expectations| - 1];
        expectations := expectations[..|expectations| - 1];
        ghost var others := expectations;
        StackWeightPush(weight, others, exp);
        ok, expectations := exp.PushSatisfied(expectations, g, weight, share);
        BehindStep(g, this, others, exp, expectations);
        if !ok { return; }
        pushed := pushed + g[exp];
        ExploreStep(g, this, others, exp, before, expectations, pushed);
      }
      ExploreDone(g, this, pushed);
      return true;
    }

    /** The inner loop: pushes the immediate prerequisites, unless one of them is unsatisfied. */
    method PushSatisfied(stack: seq<ExpectationBase>, ghost g: Graph,
                         ghost weight: map<ExpectationBase, nat>, ghost share: map<ExpectationBase, nat>)
      returns (ok: bool, expectations: seq<ExpectationBase>)
      requires this in g && g[this] == immediatePrerequisites && IsMeasure(g, weight, share)
      requires forall e <- stack :: e in g
      ensures ok <==> forall e <- immediatePrerequisites :: e.IsSatisfied()
      ensures stack <= expectations && forall e <- expectations :: e in g && (e in stack || e in immediatePrerequisites)
      ensures ok ==> forall e <- immediatePrerequisites :: e in expectations
      ensures StackWeight(weight, expectations) < StackWeight(weight, stack) + weight[this]
    {
      expectations := stack;
      var rest := immediatePrerequisites;
      while rest != {}
        invariant rest <= immediatePrerequisites
        invariant stack <= expectations
        invariant forall e <- expectations :: e in g && (e in stack || e in immediatePrerequisites)
        invariant forall e <- immediatePrerequisites :: e in rest || (e.IsSatisfied() && e in expectations)
        invariant StackWeight(weight, expectations) + Times(|rest|, share[this])
               < StackWeight(weight, stack) + weight[this]
      {
        var next :| next in rest;
        MoveToStack(g, weight, share, expectations, this, rest, next);
        rest := rest - {next};
        if !next.IsSatisfied() { return false, expectations; }
        expectations := expectations + [next];
      }
      return true, expectations;
    }

    /** Collects unsatisfied prerequisites, going on only behind satisfied ones that were never called. */
    method FindUnsatisfiedPrerequisites(result: set<ExpectationBase>, ghost g: Graph)
      returns (found: set<ExpectationBase>)
      requires this in g && Describes(g) && Acyclic(g)
      ensures found == result + Frontier(g, SatisfiedOf(g.Keys), CalledOf(g.Keys), this)
    {
      ghost var weight, share := AcyclicHasMeasure(g);
      ghost var pushed: set<ExpectationBase> := {};
      var expectations := [this];
      found := result;
      CollectStart(g, IdleOf(g), SatisfiedOf(g.Keys), this, result);
      while expectations != []
        invariant Collecting(g, IdleOf(g), SatisfiedOf(g.Keys), this, expectations, pushed, result, found)
        decreases StackWeight(weight, expectations)
      {
        expectations, found, pushed := CollectNext(expectations, found, g, weight, share, pushed, result);
      }
      CollectDone(g, SatisfiedOf(g.Keys), CalledOf(g.Keys), this, pushed, result, found);
    }

    /** The body of the loop: takes one expectation from the stack. */
    method CollectNext(stack: seq<ExpectationBase>, foundBefore: set<ExpectationBase>, ghost g: Graph,
                       ghost weight: map<ExpectationBase, nat>, ghost share: map<ExpectationBase, nat>,
                       ghost before: set<ExpectationBase>, ghost result: set<ExpectationBase>)
      returns (expectations: seq<ExpectationBase>, found: set<ExpectationBase>, ghost pushed: set<ExpectationBase>)
      requires this in g && Describes(g) && IsMeasure(g, weight, share) && stack != []
      requires Collecting(g, IdleOf(g), SatisfiedOf(g.Keys), this, stack, before, result, foundBefore)
      ensures Collecting(g, IdleOf(g), SatisfiedOf(g.Keys), this, expectations, pushed, result, found)
      ensures StackWeight(weight, expectations) < StackWeight(weight, stack)
    {
      SplitLast(stack);
      var exp := stack[|stack| - 1];
      var others := stack[..|stack| - 1];
      StackWeightPush(weight, others, exp);
      expectations, found := exp.Examine(others, foundBefore, g, weight, share);
      pushed := before + IdleOf(g)[exp];
      exp.ExaminedStep(g, this, others, before, foundBefore, expectations, result, found);
    }

    /** Whether this expectation takes a call whose arguments match or do not match it. */
    method ShouldHandleArguments(matches: bool, ghost g: Graph) returns (ok: bool)
      requires this in g && Describes(g) && Acyclic(g)
      ensures ok <==> !retired && Transitive(g, this) <= SatisfiedOf(g.Keys) && matches
    {
      ok := !retired;
      if ok {
        ok := AllPrerequisitesAreSatisfied(g);
      }
      ok := ok && matches;
    }

    /**
     A call that this expectation handles. It keeps the run invariant. What is behind called and satisfied
     expectations stays satisfied and retired with one exception: the call is excessive and yet leaves this
     expectation satisfied, while some prerequisite is still active.
     */
    method GetActionForArguments(ghost g: Graph) returns (hasAction: bool)
      requires this in g && Describes(g) && Acyclic(g) && ClosedUnder(g, RetiredOf(g.Keys))
      requires !retired && Transitive(g, this) <= SatisfiedOf(g.Keys)
      modifies this`callCount, g.Keys`retired
      ensures callCount == old(callCount) + 1 && hasAction == !old(IsSaturated())
      ensures RetiredOf(g.Keys) == old(RetiredOf(g.Keys))
        + (if hasAction then Transitive(g, this) else {})
        + (if hasAction && retiresOnSaturation && IsSaturated() then {this} else {})
      ensures old(RetiredOf(g.Keys)) <= RetiredOf(g.Keys) && old(CalledOf(g.Keys)) <= CalledOf(g.Keys)
      ensures Describes(g) && ClosedUnder(g, RetiredOf(g.Keys))
      ensures old(RunInvariant(g)) ==> RunInvariant(g)
      ensures old(AllBacked(g)) ==>
        (AllBacked(g) <==> !(old(IsSaturated()) && IsSatisfied() && !(Transitive(g, this) <= old(RetiredOf(g.Keys)))))
    {
      hasAction := !IsSaturated();
      ghost var retired0, satisfied0 := RetiredOf(g.Keys), SatisfiedOf(g.Keys);
      ghost var taken0, backed0 := TakenOf(g.Keys), CalledOf(g.Keys) * SatisfiedOf(g.Keys);
      IncrementCallCount(g.Keys);
      if hasAction {
        RetireForCall(g);
      }
      if old(RunInvariant(g)) {
        CallKeepsBacked(g, this, retired0, satisfied0, taken0, RetiredOf(g.Keys), SatisfiedOf(g.Keys), TakenOf(g.Keys));
      }
      if old(AllBacked(g)) {
        CallKeepsBacked(g, this, retired0, satisfied0, backed0, RetiredOf(g.Keys), SatisfiedOf(g.Keys),
                        CalledOf(g.Keys) * SatisfiedOf(g.Keys));
      }
    }

    method RetireForCall(ghost g: Graph)
      requires this in g && Describes(g) && ClosedUnder(g, RetiredOf(g.Keys))
      modifies g.Keys`retired
      ensures RetiredOf(g.Keys) == old(RetiredOf(g.Keys)) + Transitive(g, this)
        + if retiresOnSaturation && IsSaturated() then {this} else {}
      ensures ClosedUnder(g, RetiredOf(g.Keys))
    {
      RetireAllPreRequisites(g);
      if retiresOnSaturation && IsSaturated() {
        ClosedUnderJoin(g, RetiredOf(g.Keys), this);
        Retire(g.Keys);
      }
    }

    method IncrementCallCount(ghost all: set<ExpectationBase>)
      requires this in all
      modifies this`callCount
      ensures callCount == old(callCount) + 1
      ensures CalledOf(all) == old(CalledOf(all)) + {this}
      ensures SatisfiedOf(all) - {this} == old(SatisfiedOf(all)) - {this}
      ensures TakenOf(all) == old(TakenOf(all)) + if old(IsSaturated()) then {} else {this}
    {
      callCount := callCount + 1;
      assert forall e <- all | e != this ::
        && e.callCount == old(e.callCount)
        && e.IsSatisfied() == old(e.IsSatisfied()) && e.OnlyExcess() == old(e.OnlyExcess());
      OneMoreCall(cardinality, callCount - 1);
    }

    method Retire(ghost all: set<ExpectationBase>)
      requires this in all
      modifies this`retired
      ensures RetiredOf(all) == old(RetiredOf(all)) + {this}
    {
      retired := true;
    }

    /** `e` is a prerequisite the walk goes behind. */
    ghost predicate GoesBehind(e: ExpectationBase)
      reads this`immediatePrerequisites, e`callCount
    {
      e in immediatePrerequisites && e.IsSatisfied() && e.callCount == 0
    }

    /** `e` is a prerequisite the walk collects. */
    ghost predicate Collects(e: ExpectationBase)
      reads this`immediatePrerequisites, e`callCount
    {
      e in immediatePrerequisites && !e.IsSatisfied()
    }

    /** All immediate prerequisites but `rest` have been pushed or collected as they should be. */
    ghost predicate Examined(rest: set<ExpectationBase>, stack: seq<ExpectationBase>,
                             expectations: seq<ExpectationBase>,
                             result: set<ExpectationBase>, found: set<ExpectationBase>)
      reads this`immediatePrerequisites, immediatePrerequisites`callCount, expectations`callCount, found`callCount
    {
      && stack <= expectations && (forall e <- expectations :: e in stack || GoesBehind(e))
      && result <= found && (forall e <- found :: e in result || Collects(e))
      && (forall e <- immediatePrerequisites :: e in rest || (GoesBehind(e) ==> e in expectations))
      && (forall e <- immediatePrerequisites :: e in rest || (Collects(e) ==> e in found))
    }

    lemma ExaminedNext(rest: set<ExpectationBase>, next: ExpectationBase, stack: seq<ExpectationBase>,
                       expectations: seq<ExpectationBase>, result: set<ExpectationBase>, found: set<ExpectationBase>)
      requires Examined(rest, stack, expectations, result, found) && next in immediatePrerequisites
      ensures Examined(rest - {next}, stack, if GoesBehind(next) then expectations + [next] else expectations,
                       result, if Collects(next) then found + {next} else found)
    {
    }

    /** The inner loop of the walk above. */
    method Examine(stack: seq<ExpectationBase>, result: set<ExpectationBase>,
                   ghost g: Graph, ghost weight: map<ExpectationBase, nat>, ghost share: map<ExpectationBase, nat>)
      returns (expectations: seq<ExpectationBase>, found: set<ExpectationBase>)
      requires this in g && g[this] == immediatePrerequisites && IsMeasure(g, weight, share)
      requires forall e <- stack :: e in g
      ensures forall e <- expectations :: e in g
      ensures Examined({}, stack, expectations, result, found)
      ensures StackWeight(weight, expectations) < StackWeight(weight, stack) + weight[this]
    {
      expectations, found := stack, result;
      var rest := immediatePrerequisites;
      while rest != {}
        invariant rest <= immediatePrerequisites
        invariant forall e <- expectations :: e in g
        invariant Examined(rest, stack, expectations, result, found)
        invariant StackWeight(weight, expectations) + Times(|rest|, share[this])
               < StackWeight(weight, stack) + weight[this]
      {
        var next :| next in rest;
        MoveToStack(g, weight, share, expectations, this, rest, next);
        ExaminedNext(rest, next, stack, expectations, result, found);
        rest := rest - {next};
        if next.IsSatisfied() {
          if next.callCount == 0 {
            expectations := expectations + [next];
          }
        } else {
          found := found + {next};
        }
      }
    }

    lemma ExaminedStep(g: Graph, root: ExpectationBase, stack: seq<ExpectationBase>, pushed: set<ExpectationBase>,
                       foundBefore: set<ExpectationBase>, expectations: seq<ExpectationBase>,
                       result: set<ExpectationBase>, found: set<ExpectationBase>)
      requires this in g && root in g && Describes(g)
      requires Collecting(g, IdleOf(g), SatisfiedOf(g.Keys), root, stack + [this], pushed, result, foundBefore)
      requires Examined({}, stack, expectations, foundBefore, found)
      ensures Collecting(g, IdleOf(g), SatisfiedOf(g.Keys), root, expectations, pushed + IdleOf(g)[this], result, found)
    {
      assert found == foundBefore + (g[this] - SatisfiedOf(g.Keys));
      assert forall e :: e in IdleOf(g)[this] <==> GoesBehind(e);
      CollectStep(g, IdleOf(g), SatisfiedOf(g.Keys), root, stack, this, pushed, foundBefore,
                  expectations, pushed + IdleOf(g)[this], result, found);
    }
  }

  ghost function IdleOf(g: Graph): (h: Graph)
    requires WellFormed(g)
    reads g.Keys`callCount
    ensures WellFormed(h) && h.Keys == g.Keys
  {
    Idle(g, SatisfiedOf(g.Keys), CalledOf(g.Keys))
  }

  type Graph = map<ExpectationBase, set<ExpectationBase>>

  /** `g` is the prerequisite graph of its nodes, which are closed under prerequisites. */
  ghost predicate Describes(g: Graph)
    reads g.Keys`immediatePrerequisites
  {
    WellFormed(g) && forall e <- g :: g[e] == e.immediatePrerequisites
  }

  /**
   What holds between calls, whatever the cardinalities are: nothing is retired before its prerequisites, and
   everything behind an expectation that has taken a call which was not excessive is satisfied and retired.
   */
  ghost predicate RunInvariant(g: Graph)
    reads g.Keys`immediatePrerequisites, g.Keys`callCount, g.Keys`retired
  {
    && Describes(g) && Acyclic(g) && ClosedUnder(g, RetiredOf(g.Keys))
    && Backed(g, RetiredOf(g.Keys), SatisfiedOf(g.Keys), TakenOf(g.Keys))
  }

  /** What the collecting walk relies on: so is everything behind an expectation that is called and satisfied. */
  ghost predicate AllBacked(g: Graph)
    requires WellFormed(g)
    reads g.Keys`callCount, g.Keys`retired
  {
    Backed(g, RetiredOf(g.Keys), SatisfiedOf(g.Keys), CalledOf(g.Keys) * SatisfiedOf(g.Keys))
  }

  /** Before the first call. */
  lemma RunInvariantAtStart(g: Graph)
    requires Describes(g) && Acyclic(g)
    requires forall e <- g :: e.callCount == 0 && !e.retired
    ensures RunInvariant(g)
  {
    assert RetiredOf(g.Keys) == {} && TakenOf(g.Keys) == {};
  }

  lemma LawIsEnough(g: Graph)
    requires RunInvariant(g) && forall e <- g :: Lawful(e.cardinality)
    ensures AllBacked(g)
  {
    forall e | e in CalledOf(g.Keys) * SatisfiedOf(g.Keys) ensures e in TakenOf(g.Keys) {
      assert Lawful(e.cardinality);
    }
  }

  ghost function RetiredOf(all: set<ExpectationBase>): set<ExpectationBase>
    reads all`retired
  {
    set e | e in all && e.retired
  }

  ghost function SatisfiedOf(all: set<ExpectationBase>): set<ExpectationBase>
    reads all`callCount
  {
    set e | e in all && e.IsSatisfied()
  }

  ghost function CalledOf(all: set<ExpectationBase>): set<ExpectationBase>
    reads all`callCount
  {
    set e | e in all && e.callCount > 0
  }

  /** Expectations with a call that was not excessive. */
  ghost function TakenOf(all: set<ExpectationBase>): set<ExpectationBase>
    reads all`callCount
  {
    set e | e in all && !e.OnlyExcess()
  }

  /** Behind every expectation the collecting walk finds something exactly when a prerequisite is unsatisfied. */
  ghost predicate WalksAgreeIn(g: Graph)
    requires WellFormed(g)
    reads g.Keys`callCount
  {
    forall e <- g ::
      Frontier(g, SatisfiedOf(g.Keys), CalledOf(g.Keys), e) == {} <==> Transitive(g, e) <= SatisfiedOf(g.Keys)
  }

  /**
   Any number of calls, each put to some expectation with matching or other arguments. The run invariant
   holds throughout. If the cardinalities keep the law, the two walks agree in whatever state the calls lead to.
   */
  method HandleCalls(calls: seq<(ExpectationBase, bool)>, ghost g: Graph)
    requires RunInvariant(g) && forall c <- calls :: c.0 in g
    modifies g.Keys`callCount, g.Keys`retired
    ensures RunInvariant(g)
    ensures old(RetiredOf(g.Keys)) <= RetiredOf(g.Keys) && old(CalledOf(g.Keys)) <= CalledOf(g.Keys)
    ensures (forall e <- g :: Lawful(e.cardinality)) ==> WalksAgreeIn(g)
  {
    for i := 0 to |calls|
      invariant RunInvariant(g)
      invariant old(RetiredOf(g.Keys)) <= RetiredOf(g.Keys) && old(CalledOf(g.Keys)) <= CalledOf(g.Keys)
    {
      HandleCall(calls[i].0, calls[i].1, g);
    }
    if forall e <- g :: Lawful(e.cardinality) {
      LawIsEnough(g);
      WalksAgree(g);
    }
  }

  /** One call, which `e` takes or leaves. */
  method HandleCall(e: ExpectationBase, matches: bool, ghost g: Graph)
    requires RunInvariant(g) && e in g
    modifies g.Keys`callCount, g.Keys`retired
    ensures RunInvariant(g)
    ensures old(RetiredOf(g.Keys)) <= RetiredOf(g.Keys) && old(CalledOf(g.Keys)) <= CalledOf(g.Keys)
  {
    var ok := e.ShouldHandleArguments(matches, g);
    if ok {
      var _ := e.GetActionForArguments(g);
    }
  }

  lemma WalksAgree(g: Graph)
    requires WellFormed(g) && AllBacked(g)
    ensures WalksAgreeIn(g)
  {
    forall e <- g
      ensures Frontier(g, SatisfiedOf(g.Keys), CalledOf(g.Keys), e) == {} <==> Transitive(g, e) <= SatisfiedOf(g.Keys)
    {
      FrontierDecides(g, SatisfiedOf(g.Keys), CalledOf(g.Keys), e);
    }
  }

  class Sequence {
    var last: ExpectationBase?

    constructor ()
      ensures last == null
    {
      last := null;
    }

    /** Chains `expectation` behind the one added last, as its immediate prerequisite. */
    method AddExpectation(expectation: ExpectationBase, ghost g: Graph) returns (ghost g': Graph)
      requires Describes(g) && expectation in g && (last == null || last in g)
      modifies this, expectation`immediatePrerequisites
      ensures last == expectation && Describes(g')
      ensures g' ==
        if old(last) == null || old(last) == expectation then g else WithPrerequisite(g, expectation, old(last))
    {
      g' := g;
      if last != expectation {
        if last != null {
          expectation.immediatePrerequisites := expectation.immediatePrerequisites + {last};
          g' := WithPrerequisite(g, expectation, last);
        }
        last := expectation;
      }
    }
  }

  /**
   The edge that `AddExpectation` adds, from an expectation that is neither called nor retired, keeps
   the run invariant exactly when that expectation is not behind the other one already.
   */
  lemma SequencingKeepsRunInvariant(g: Graph, expectation: ExpectationBase, last: ExpectationBase)
    requires RunInvariant(g) && expectation in g && last in g && last != expectation
    requires expectation.callCount == 0 && !expectation.retired
    ensures
      var g' := WithPrerequisite(g, expectation, last);
      && WellFormed(g') && g'.Keys == g.Keys
      && ClosedUnder(g', RetiredOf(g.Keys))
      && Backed(g', RetiredOf(g.Keys), SatisfiedOf(g.Keys), TakenOf(g.Keys))
      && (Acyclic(g') <==> expectation !in Transitive(g, last))
  {
    AddingKeepsAcyclic(g, expectation, last);
    AddingKeepsBacked(g, expectation, last, RetiredOf(g.Keys), SatisfiedOf(g.Keys), TakenOf(g.Keys));
  }

  /** Three expectations, none of which has been called, in a sequence. */
  method InSequence(first: Cardinality, second: Cardinality, third: Cardinality)
    returns (c: ExpectationBase, b: ExpectationBase, a: ExpectationBase, ghost g: Graph)
    ensures fresh({a, b, c}) && a != b && b != c && a != c
    ensures c.cardinality == first && b.cardinality == second && a.cardinality == third
    ensures forall e <- {a, b, c} :: e.callCount == 0 && !e.retired
    ensures Describes(g) && g == map[a := {b}, b := {c}, c := {}]
  {
    c := new ExpectationBase(first, false);
    b := new ExpectationBase(second, false);
    a := new ExpectationBase(third, false);
    g := Chain(c, b, a);
  }

  method Chain(c: ExpectationBase, b: ExpectationBase, a: ExpectationBase) returns (ghost g: Graph)
    requires a != b && b != c && a != c
    requires a.immediatePrerequisites == b.immediatePrerequisites == c.immediatePrerequisites == {}
    modifies {a, b, c}`immediatePrerequisites
    ensures Describes(g) && g == map[a := {b}, b := {c}, c := {}]
  {
    g := map[a := {}, b := {}, c := {}];
    var sequence := new Sequence();
    LinkThree(a, b, c);
    g := sequence.AddExpectation(c, g);
    g := sequence.AddExpectation(b, g);
    g := sequence.AddExpectation(a, g);
  }

  /**
   Whatever cardinality breaks the law misleads: for three expectations in a sequence, the middle one with a
   cardinality that `n` excessive calls satisfy, `n` calls of that one and a call of its prerequisite are
   accepted. Then the one walk finds an unsatisfied prerequisite behind the last expectation, and the other
   one does not.
   */
  method UnlawfulCardinalityMisleads(cardinality: Cardinality, n: nat)
    returns (satisfied: bool, found: set<ExpectationBase>)
    requires n > 0 && AllSaturated(cardinality, n) && cardinality.satisfiedBy(n)
    ensures !satisfied && found == {}
  {
    var c, b, a, g := InSequence(Between(0, 0), cardinality, Between(0, 0));
    ThreeInSequence(g, a, b, c);
    CallOften(b, c, n, g);
    CallExcessively(c, g);
    satisfied, found := WalkBehindCalled(g, a, b, c);
  }

  /** As many calls of `b`, whose only prerequisite `c` stays as it is. */
  method CallOften(b: ExpectationBase, ghost c: ExpectationBase, n: nat, ghost g: Graph)
    requires b in g && c in g && b != c && Describes(g) && Acyclic(g) && RetiredOf(g.Keys) == {}
    requires b.callCount == 0 && AllSaturated(b.cardinality, n) && Transitive(g, b) == {c} && c.IsSatisfied()
    modifies b`callCount, g.Keys`retired
    ensures b.callCount == n && RetiredOf(g.Keys) == {}
  {
    for i := 0 to n
      invariant b.callCount == i && RetiredOf(g.Keys) == {}
    {
      CallExcessively(b, g);
    }
  }

  method WalkBehindCalled(ghost g: Graph, a: ExpectationBase, ghost b: ExpectationBase, ghost c: ExpectationBase)
    returns (satisfied: bool, found: set<ExpectationBase>)
    requires Describes(g) && Acyclic(g) && a in g && b in g && c in Transitive(g, a) && g[a] == {b}
    requires b.IsSatisfied() && b.callCount > 0 && !c.IsSatisfied()
    ensures !satisfied && found == {}
  {
    satisfied := a.AllPrerequisitesAreSatisfied(g);
    found := a.FindUnsatisfiedPrerequisites({}, g);
    Hidden(g, a, b, c);
  }

  lemma Hidden(g: Graph, a: ExpectationBase, b: ExpectationBase, c: ExpectationBase)
    requires Describes(g) && a in g && b in g && c in Transitive(g, a) && g[a] == {b}
    requires b.IsSatisfied() && b.callCount > 0 && !c.IsSatisfied()
    ensures Frontier(g, SatisfiedOf(g.Keys), CalledOf(g.Keys), a) == {}
    ensures !(Transitive(g, a) <= SatisfiedOf(g.Keys))
  {
    NothingBehindCalled(g, SatisfiedOf(g.Keys), CalledOf(g.Keys), a, b);
    assert c in Transitive(g, a) - SatisfiedOf(g.Keys);
  }

  /** A call that `e` takes although it is one too many. */
  method CallExcessively(e: ExpectationBase, ghost g: Graph)
    requires e in g && Describes(g) && Acyclic(g) && RetiredOf(g.Keys) == {}
    requires e.IsSaturated() && forall p <- Transitive(g, e) :: p.IsSatisfied()
    modifies e`callCount, g.Keys`retired
    ensures e.callCount == old(e.callCount) + 1 && RetiredOf(g.Keys) == {}
  {
    assert e.retired ==> e in RetiredOf(g.Keys);
    var handled := e.ShouldHandleArguments(true, g);
    if handled {
      var _ := e.GetActionForArguments(g);
    }
  }
}
