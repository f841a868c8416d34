/** Mock expectations: retiring and checking prerequisites, sequences, and what every run of calls keeps. */
module Expectations {
  import opened Cardinality
  import opened PrerequisiteGraph

  class Expectation {
    const minCalls: nat
    const maxCalls: nat
    const retiresOnSaturation: bool
    var immediatePrerequisites: set<Expectation>
    var callCount: nat
    var retired: bool

    /** The Between cardinality; an upper bound below the lower one is raised to it. */
    constructor (min: int, max: int, retiresOnSaturation: bool)
      ensures immediatePrerequisites == {} && callCount == 0 && !retired
      ensures this.retiresOnSaturation == retiresOnSaturation
      ensures minCalls <= maxCalls && (0 <= min <= max ==> minCalls == min && maxCalls == max)
      ensures (min < 0 ==> minCalls == 0) && (max < minCalls ==> maxCalls == minCalls)
      ensures (min >= 0 ==> minCalls == min) && (max >= minCalls ==> maxCalls == max)
    {
      minCalls := if min >= 0 then min else 0;
      maxCalls := if max >= (if min >= 0 then min else 0) then max else if min >= 0 then min else 0;
      this.retiresOnSaturation := retiresOnSaturation;
      immediatePrerequisites, callCount, retired := {}, 0, false;
    }

    predicate IsSatisfied()
      reads this
    {
      minCalls <= callCount <= maxCalls
    }

    predicate IsSaturated()
      reads this
    {
      callCount >= maxCalls
    }

    method Retire(ghost universe: set<Expectation>)
      requires this in universe
      modifies this`retired
      ensures RetiredIn(universe) == old(RetiredIn(universe)) + {this}
    {
      retired := true;
    }

    method IncrementCallCount(ghost universe: set<Expectation>)
      requires this in universe
      modifies this`callCount
      ensures CallsOf(universe) == old(CallsOf(universe))[this := old(callCount) + 1]
    {
      callCount := callCount + 1;
    }

    /** The part of the walk at this expectation: retires its immediate prerequisites and appends to the
        worklist those that were not retired yet. */
    method RetireImmediate(worklist: seq<Expectation>, ghost root: Expectation, ghost before: set<Expectation>,
                           ghost universe: set<Expectation>)
      returns (expectations: seq<Expectation>)
      requires Closed(GraphOf(universe))
      requires Sweep(GraphOf(universe), root, before, RetiredIn(universe), worklist, {this})
      modifies universe`retired
      ensures Sweep(GraphOf(universe), root, before, RetiredIn(universe), expectations, {})
      ensures old(RetiredIn(universe)) <= RetiredIn(universe)
      ensures old(RetiredIn(universe)) == RetiredIn(universe) ==> expectations == worklist
    {
      ghost var g, retired0 := GraphOf(universe), RetiredIn(universe);
      expectations := worklist;
      var todo := immediatePrerequisites;
      while todo != {}
        invariant todo <= g[this] && g[this] - todo <= RetiredIn(universe)
        invariant Sweep(g, root, before, RetiredIn(universe), expectations, {this})
        invariant retired0 <= RetiredIn(universe) && (retired0 == RetiredIn(universe) ==> expectations == worklist)
        decreases todo
      {
        var next :| next in todo;
        todo := todo - {next};
        if !next.retired {
          ghost var retired1 := RetiredIn(universe);
          SweepRetire(g, root, before, retired1, expectations, this, next);
          next.Retire(universe);
          expectations := expectations + [next];
        }
      }
      SweepClose(g, root, before, RetiredIn(universe), expectations, this);
    }

    /** Retires everything below this expectation and nothing else. */
    method RetireAllPreRequisites(ghost universe: set<Expectation>)
      requires this in universe && Closed(GraphOf(universe))
      requires RetiredClosed(GraphOf(universe), RetiredIn(universe))
      modifies universe`retired
      ensures RetiredIn(universe) == old(RetiredIn(universe)) + AllBelow(GraphOf(universe), this)
      ensures RetiredClosed(GraphOf(universe), RetiredIn(universe))
    {
      ghost var g, before := GraphOf(universe), RetiredIn(universe);
      if retired {
        BelowWithin(g, this, before);
        return;
      }
      var expectations := [this];
      while expectations != []
        invariant Sweep(g, this, before, RetiredIn(universe), expectations, {})
        decreases universe - RetiredIn(universe), |expectations|
      {
        var n := |expectations| - 1;
        var exp := expectations[n];
        SplitLast(expectations);
        SweepOpen(g, this, before, RetiredIn(universe), expectations[..n], exp);
        expectations := exp.RetireImmediate(expectations[..n], this, before, universe);
      }
      SweepDone(g, this, before, RetiredIn(universe));
    }

    /** The part of the check at this expectation: fails on an unsatisfied immediate prerequisite, else
        appends all of them to the worklist. */
    method CheckImmediate(worklist: seq<Expectation>, ghost root: Expectation, ghost v: View,
                          ghost universe: set<Expectation>)
      returns (ok: bool, expectations: seq<Expectation>)
      requires v.IsOf(universe) && v.Sound() && this in v.g && Reaches(v.g, root, this)
      requires OnList(v.g, root, worklist, v.g.Keys) && Walk(v.g, root, v.satisfied, worklist, v.g[this])
      ensures !ok ==> exists b :: b in AllBelow(v.g, root) && b !in v.satisfied
      ensures ok ==> Walk(v.g, root, v.satisfied, expectations, {}) && OnList(v.g, root, expectations, v.g.Keys)
      ensures ok ==> Load(v.g, expectations) < Load(v.g, worklist) + Weight(v.g, this)
    {
      expectations := worklist;
      var todo := immediatePrerequisites;
      ghost var k: nat := 0;
      while todo != {}
        invariant todo <= v.g[this] && k + |todo| == |v.g[this]|
        invariant OnList(v.g, root, expectations, v.g.Keys)
        invariant Walk(v.g, root, v.satisfied, expectations, todo)
        invariant WithinBudget(Base(v.g), Load(v.g, expectations), Load(v.g, worklist), Weight(v.g, this), k)
        decreases todo
      {
        var next :| next in todo;
        ReachesPrerequisite(v.g, root, this, next);
        if !next.IsSatisfied() {
          assert next in AllBelow(v.g, root) && next !in v.satisfied;
          return false, [];
        }
        WalkPush(v.g, root, v.satisfied, expectations, todo, next);
        LoadPush(v.g, expectations, next);
        BudgetPush(v.g, this, next, Load(v.g, expectations), Load(v.g, expectations + [next]), Load(v.g, worklist), k);
        todo, k := todo - {next}, k + 1;
        expectations := expectations + [next];
      }
      ok := true;
      StepIsLighter(v.g, this, Load(v.g, expectations), Load(v.g, worklist), k);
    }

    /** True if and only if everything below this expectation is satisfied. There is no visited set, so
        shared prerequisites may be looked at many times. */
    method AllPrerequisitesAreSatisfied(ghost universe: set<Expectation>) returns (ok: bool)
      requires this in universe && Closed(GraphOf(universe)) && Acyclic(GraphOf(universe))
      ensures ok <==> AllBelow(GraphOf(universe), this) <= SatisfiedIn(universe)
      ensures ok <==> PrerequisitesAreWithinLimits(universe, this)
    {
      LimitsBelow(universe, this);
      ok := WalkPrerequisites(View(GraphOf(universe), SatisfiedIn(universe), QuietIn(universe)), universe);
    }

    /** The walk, which changes nothing, so that v stays the view of all expectations. */
    method WalkPrerequisites(ghost v: View, ghost universe: set<Expectation>) returns (ok: bool)
      requires v.IsOf(universe) && v.Sound() && this in v.g
      ensures ok <==> AllBelow(v.g, this) <= v.satisfied
    {
      var expectations := [this];
      WalkStart(v.g, this, v.satisfied);
      while expectations != []
        invariant v.IsOf(universe) && OnList(v.g, this, expectations, v.g.Keys)
        invariant Walk(v.g, this, v.satisfied, expectations, {})
        decreases Load(v.g, expectations)
      {
        var n := |expectations| - 1;
        var exp := expectations[n];
        WalkPop(v.g, this, v.satisfied, expectations, v.g.Keys);
        ok, expectations := exp.CheckImmediate(expectations[..n], this, v, universe);
        if !ok {
          return;
        }
      }
      WalkDone(v.g, this, v.satisfied);
      ok := true;
    }

    /** The search meets this expectation: it is followed up if it is satisfied and was never called, and
        collected if it is unsatisfied. */
    method LookAt(worklist: seq<Expectation>, result: set<Expectation>, ghost root: Expectation, ghost v: View,
                  ghost h: Graph<Expectation>, ghost todo: set<Expectation>, ghost universe: set<Expectation>)
      returns (expectations: seq<Expectation>, result': set<Expectation>)
      requires v.IsOf(universe) && v.Sound() && root in v.g && h == v.SearchGraph(root)
      requires Below(h, root, this) && this in todo && Walk(h, root, v.satisfied + result, worklist, todo)
      requires OnList(h, root, worklist, v.quiet + {root})
      ensures result <= result' <= result + (AllBelow(h, root) - v.satisfied)
      ensures OnList(h, root, expectations, v.quiet + {root})
      ensures Walk(h, root, v.satisfied + result', expectations, todo - {this})
      ensures Load(v.g, worklist) <= Load(v.g, expectations) <= Load(v.g, worklist) + Weight(v.g, this)
    {
      v.SearchStops(root, this);
      expectations, result' := worklist, result;
      if IsSatisfied() {
        if callCount == 0 {
          WalkPush(h, root, v.satisfied + result, worklist, todo, this);
          LoadPush(v.g, worklist, this);
          expectations := worklist + [this];
        } else {
          WalkSkip(h, root, v.satisfied + result, worklist, todo, this);
        }
      } else {
        result' := result + {this};
        WalkSkip(h, root, v.satisfied + result', worklist, todo, this);
      }
    }

    /** The part of the search at this expectation: collects its unsatisfied immediate prerequisites and
        appends to the worklist the satisfied ones that were never called. */
    method FindImmediate(worklist: seq<Expectation>, result: set<Expectation>, ghost root: Expectation, ghost v: View,
                         ghost h: Graph<Expectation>, ghost universe: set<Expectation>)
      returns (expectations: seq<Expectation>, result': set<Expectation>)
      requires v.IsOf(universe) && v.Sound() && root in v.g && h == v.SearchGraph(root)
      requires this in v.quiet + {root} && Reaches(h, root, this)
      requires OnList(h, root, worklist, v.quiet + {root})
      requires Walk(h, root, v.satisfied + result, worklist, v.g[this])
      ensures result <= result' <= result + (AllBelow(h, root) - v.satisfied)
      ensures OnList(h, root, expectations, v.quiet + {root})
      ensures Walk(h, root, v.satisfied + result', expectations, {})
      ensures Load(v.g, expectations) < Load(v.g, worklist) + Weight(v.g, this)
    {
      expectations, result' := worklist, result;
      var todo := immediatePrerequisites;
      ghost var k: nat := 0;
      while todo != {}
        invariant todo <= v.g[this] && k + |todo| == |v.g[this]|
        invariant result <= result' <= result + (AllBelow(h, root) - v.satisfied)
        invariant OnList(h, root, expectations, v.quiet + {root})
        invariant Walk(h, root, v.satisfied + result', expectations, todo)
        invariant WithinBudget(Base(v.g), Load(v.g, expectations), Load(v.g, worklist), Weight(v.g, this), k)
        decreases todo
      {
        var next :| next in todo;
        ReachesPrerequisite(h, root, this, next);
        ghost var load := Load(v.g, expectations);
        expectations, result' := next.LookAt(expectations, result', root, v, h, todo, universe);
        BudgetPush(v.g, this, next, load, Load(v.g, expectations), Load(v.g, worklist), k);
        todo, k := todo - {next}, k + 1;
      }
      StepIsLighter(v.g, this, Load(v.g, expectations), Load(v.g, worklist), k);
    }

    /** Adds the unsatisfied prerequisites that are reached through satisfied but uncalled ones only. */
    method FindUnsatisfiedPrerequisites(result: set<Expectation>, ghost universe: set<Expectation>)
      returns (result': set<Expectation>)
      requires this in universe && Closed(GraphOf(universe)) && Acyclic(GraphOf(universe))
      ensures var v := View(GraphOf(universe), SatisfiedIn(universe), QuietIn(universe));
        result' == result + (AllBelow(v.SearchGraph(this), this) - v.satisfied)
    {
      ghost var v := View(GraphOf(universe), SatisfiedIn(universe), QuietIn(universe));
      ghost var h := v.SearchGraph(this);
      result' := result;
      var expectations := [this];
      WalkStart(h, this, v.satisfied + result);
      while expectations != []
        invariant v.IsOf(universe) && result <= result' <= result + (AllBelow(h, this) - v.satisfied)
        invariant OnList(h, this, expectations, v.quiet + {this})
        invariant Walk(h, this, v.satisfied + result', expectations, {})
        decreases Load(v.g, expectations)
      {
        var n := |expectations| - 1;
        var exp := expectations[n];
        WalkPop(h, this, v.satisfied + result', expectations, v.quiet + {this});
        expectations, result' := exp.FindImmediate(expectations[..n], result', this, v, h, universe);
      }
      WalkDone(h, this, v.satisfied + result');
    }
  }

  lemma SplitLast<T>(s: seq<T>)
    requires s != []
    ensures s == s[..|s| - 1] + [s[|s| - 1]]
  {
  }

  lemma WalkPop(g: Graph<Expectation>, root: Expectation, handled: set<Expectation>, worklist: seq<Expectation>,
                allowed: set<Expectation>)
    requires worklist != [] && Walk(g, root, handled, worklist, {}) && OnList(g, root, worklist, allowed)
    ensures Walk(g, root, handled, worklist[..|worklist| - 1], Successors(g, worklist[|worklist| - 1]))
    ensures OnList(g, root, worklist[..|worklist| - 1], allowed)
    ensures worklist[|worklist| - 1] in allowed && Reaches(g, root, worklist[|worklist| - 1])
  {
    SplitLast(worklist);
    WalkOpen(g, root, handled, worklist[..|worklist| - 1], worklist[|worklist| - 1]);
  }

  /** What a walk reads: the graph, the satisfied expectations, and those satisfied without any call. */
  datatype View = View(g: Graph<Expectation>, satisfied: set<Expectation>, quiet: set<Expectation>) {
    ghost predicate IsOf(universe: set<Expectation>)
      reads universe
    {
      g == GraphOf(universe) && satisfied == SatisfiedIn(universe) && quiet == QuietIn(universe)
    }

    ghost predicate Sound() {
      Closed(g) && Acyclic(g)
    }

    /** The graph as the search for unsatisfied prerequisites sees it: it stops at called expectations. */
    ghost function SearchGraph(root: Expectation): Graph<Expectation> {
      Cut(g, quiet + {root})
    }

    /** A prerequisite that is not quiet has none of its own in that graph. */
    lemma SearchStops(root: Expectation, p: Expectation)
      requires Sound() && root in g && Below(SearchGraph(root), root, p)
      ensures p in quiet || Successors(SearchGraph(root), p) == {}
      ensures p in AllBelow(SearchGraph(root), root)
    {
      NotItsOwnPrerequisite(g, SearchGraph(root), root, p);
      BelowWithin(SearchGraph(root), root, g.Keys);
    }
  }

  ghost predicate OnList(g: Graph<Expectation>, root: Expectation, worklist: seq<Expectation>,
                         allowed: set<Expectation>) {
    forall e :: e in worklist ==> e in allowed && Reaches(g, root, e)
  }

  lemma StepIsLighter(g: Graph<Expectation>, a: Expectation, load: nat, before: nat, k: nat)
    requires Closed(g) && a in g && k <= |g[a]|
    requires WithinBudget(Base(g), load, before, Weight(g, a), k)
    ensures load < before + Weight(g, a)
  {
    SubsetCount(g[a], g.Keys);
    PowMonotone(Base(g), 0, |AllBelow(g, a)|);
    BudgetKept(Base(g), load, before, Weight(g, a), k);
  }

  lemma NotItsOwnPrerequisite(g: Graph<Expectation>, h: Graph<Expectation>, root: Expectation, p: Expectation)
    requires Acyclic(g) && root in g && Below(h, root, p)
    requires forall x :: x in h ==> Successors(h, x) <= Successors(g, x)
    ensures p != root
  {
    BelowMonotone(h, g, root, p);
  }

  /** The node itself or one below it. */
  ghost predicate Reaches(g: Graph<Expectation>, a: Expectation, b: Expectation) {
    a == b || Below(g, a, b)
  }

  lemma ReachesPrerequisite(g: Graph<Expectation>, root: Expectation, e: Expectation, p: Expectation)
    requires Reaches(g, root, e) && p in Successors(g, e)
    ensures Below(g, root, p)
  {
    BelowDirect(g, e, p);
    if root != e {
      BelowTransitive(g, root, e, p);
    }
  }

  /** Midway through retiring what lies below the root: only expectations on the worklist, and the given
      open ones, may have prerequisites that are not retired yet. */
  ghost predicate Sweep(g: Graph<Expectation>, root: Expectation, before: set<Expectation>, retired: set<Expectation>,
                        worklist: seq<Expectation>, open: set<Expectation>) {
    && (forall e :: e in worklist ==> e in g && Reaches(g, root, e))
    && (forall e :: e in open ==> e in g && Reaches(g, root, e))
    && before <= retired <= before + AllBelow(g, root)
    && forall e :: e in retired + {root} && e !in worklist && e !in open ==> Successors(g, e) <= retired
  }

  /** Opening the last of the worklist. */
  lemma SweepOpen(g: Graph<Expectation>, root: Expectation, before: set<Expectation>, retired: set<Expectation>,
                  worklist: seq<Expectation>, exp: Expectation)
    requires Sweep(g, root, before, retired, worklist + [exp], {})
    ensures Sweep(g, root, before, retired, worklist, {exp})
  {
    assert forall e :: e in worklist ==> e in worklist + [exp];
    assert exp in worklist + [exp];
  }

  /** Retiring a prerequisite of the open expectation and putting it on the worklist. */
  lemma SweepRetire(g: Graph<Expectation>, root: Expectation, before: set<Expectation>, retired: set<Expectation>,
                    worklist: seq<Expectation>, exp: Expectation, next: Expectation)
    requires Closed(g) && Sweep(g, root, before, retired, worklist, {exp}) && next in Successors(g, exp)
    ensures Sweep(g, root, before, retired + {next}, worklist + [next], {exp})
  {
    ReachesPrerequisite(g, root, exp, next);
  }

  lemma SweepClose(g: Graph<Expectation>, root: Expectation, before: set<Expectation>, retired: set<Expectation>,
                   worklist: seq<Expectation>, exp: Expectation)
    requires Sweep(g, root, before, retired, worklist, {exp}) && Successors(g, exp) <= retired
    ensures Sweep(g, root, before, retired, worklist, {})
  {
  }

  lemma SweepDone(g: Graph<Expectation>, root: Expectation, before: set<Expectation>, retired: set<Expectation>)
    requires Sweep(g, root, before, retired, [], {})
    ensures retired == before + AllBelow(g, root) && RetiredClosed(g, retired)
  {
    BelowWithin(g, root, retired);
  }

  // ----- Expectations as values -----

  ghost function GraphOf(universe: set<Expectation>): Graph<Expectation>
    reads universe`immediatePrerequisites
  {
    map e | e in universe :: e.immediatePrerequisites
  }

  ghost function SatisfiedIn(universe: set<Expectation>): set<Expectation>
    reads universe
  {
    set e | e in universe && e.minCalls <= e.callCount <= e.maxCalls
  }

  /** Whatever the expectation comes after was called as often as it has to be, and not more often than it may. */
  ghost predicate PrerequisitesAreWithinLimits(universe: set<Expectation>, e: Expectation)
    reads universe
  {
    forall p :: p in universe && Below(GraphOf(universe), e, p) ==> p.minCalls <= p.callCount <= p.maxCalls
  }

  lemma LimitsBelow(universe: set<Expectation>, e: Expectation)
    ensures AllBelow(GraphOf(universe), e) <= SatisfiedIn(universe) <==> PrerequisitesAreWithinLimits(universe, e)
  {
    forall p | p in universe && Below(GraphOf(universe), e, p) ensures p in AllBelow(GraphOf(universe), e) {
    }
  }

  /** Satisfied without ever having been called. */
  ghost function QuietIn(universe: set<Expectation>): set<Expectation>
    reads universe
  {
    set e | e in universe && e.minCalls == e.callCount == 0
  }

  ghost function RetiredIn(universe: set<Expectation>): set<Expectation>
    reads universe`retired
  {
    set e | e in universe && e.retired
  }

  ghost predicate RetiredClosed(g: Graph<Expectation>, retired: set<Expectation>) {
    forall e :: e in retired ==> Successors(g, e) <= retired
  }

  // ----- Mock function calls -----

  /** The state of a set of expectations: prerequisites, call counts and the retired ones. */
  datatype Snapshot = Snapshot(g: Graph<Expectation>, calls: map<Expectation, nat>, retired: set<Expectation>) {
    ghost predicate WellFormed() {
      calls.Keys == g.Keys
    }

    ghost function Satisfied(): set<Expectation>
      requires WellFormed()
    {
      set e | e in g && e.minCalls <= calls[e] <= e.maxCalls
    }

    /** The expectation may handle a call: it is not retired, and everything below it is satisfied. */
    ghost predicate Active(e: Expectation)
      requires WellFormed()
    {
      e in g && e !in retired && AllBelow(g, e) <= Satisfied()
    }

    ghost predicate Excessive(e: Expectation)
      requires WellFormed() && e in g
    {
      calls[e] >= e.maxCalls
    }

    /** An excessive call is only counted. Any other retires everything below the expectation, and the
        expectation itself if it was asked to retire on saturation and has become saturated. */
    ghost function AfterCall(e: Expectation): Snapshot
      requires WellFormed() && e in g
    {
      var calls' := calls[e := calls[e] + 1];
      if Excessive(e) then Snapshot(g, calls', retired)
      else
        var itself := if e.retiresOnSaturation && calls'[e] >= e.maxCalls then {e} else {};
        Snapshot(g, calls', retired + AllBelow(g, e) + itself)
    }

    /** A new expectation that comes after some of the old ones. */
    ghost function AfterDeclaration(e: Expectation, prerequisites: set<Expectation>): Snapshot {
      Snapshot(g[e := prerequisites], calls[e := 0], retired)
    }

    /** Just declared: it was not called, is not retired, and nothing comes after it. */
    ghost predicate Fresh(e: Expectation)
      requires WellFormed()
    {
      e in g && calls[e] == 0 && e !in retired && forall x :: x in g ==> e !in g[x]
    }

    /** One more immediate prerequisite. */
    ghost function Linked(e: Expectation, last: Expectation): Snapshot
      requires e in g
    {
      Snapshot(g[e := g[e] + {last}], calls, retired)
    }

    /** What every run keeps. */
    ghost predicate Invariant() {
      && WellFormed() && Closed(g) && Acyclic(g) && RetiredClosed(g, retired)
      && retired <= Satisfied()
      && forall e :: e in g ==> e.minCalls <= e.maxCalls && (0 < calls[e] <= e.maxCalls ==> g[e] <= retired)
    }
  }

  ghost function SnapshotOf(universe: set<Expectation>): Snapshot
    reads universe
  {
    Snapshot(GraphOf(universe), CallsOf(universe), RetiredIn(universe))
  }

  ghost function CallsOf(universe: set<Expectation>): map<Expectation, nat>
    reads universe`callCount
  {
    map e | e in universe :: e.callCount
  }

  lemma CallKeepsInvariant(s: Snapshot, e: Expectation)
    requires s.Invariant() && s.Active(e)
    ensures Enabled(s, Call(e)) && Next(s, Call(e)) == s.AfterCall(e)
    ensures s.AfterCall(e).Invariant()
  {
    var s' := s.AfterCall(e);
    assert e !in AllBelow(s.g, e);
    forall p | p in AllBelow(s.g, e)
      ensures Successors(s.g, p) <= AllBelow(s.g, e)
    {
      forall q | q in Successors(s.g, p)
        ensures Below(s.g, e, q)
      {
        ReachesPrerequisite(s.g, e, p, q);
      }
    }
    forall p | p in s.g[e]
      ensures p in AllBelow(s.g, e)
    {
      BelowDirect(s.g, e, p);
    }
  }

  lemma DeclarationKeepsInvariant(s: Snapshot, e: Expectation, prerequisites: set<Expectation>)
    requires s.Invariant() && e !in s.g && prerequisites <= s.g.Keys && e.minCalls <= e.maxCalls
    ensures Enabled(s, Declare(e, prerequisites))
    ensures Next(s, Declare(e, prerequisites)) == s.AfterDeclaration(e, prerequisites)
    ensures s.AfterDeclaration(e, prerequisites).Invariant()
    ensures forall a, b :: a in s.g ==> (Below(s.AfterDeclaration(e, prerequisites).g, a, b) <==> Below(s.g, a, b))
  {
    SourceKeepsAcyclic(s.g, s.AfterDeclaration(e, prerequisites).g, e);
  }

  /** Linking an expectation that nothing depends on behind another puts it behind everything that one
      comes after, and all that runs rely on still holds. */
  lemma LinkKeepsInvariant(s: Snapshot, e: Expectation, last: Expectation)
    requires s.Invariant() && s.Fresh(e) && last in s.g && last != e
    ensures Enabled(s, Link(e, last)) && Next(s, Link(e, last)) == s.Linked(e, last)
    ensures s.Linked(e, last).Invariant()
    ensures Below(s.Linked(e, last).g, e, last)
    ensures forall x :: x in s.g && Below(s.g, last, x) ==> Below(s.Linked(e, last).g, e, x)
  {
    var g := s.Linked(e, last).g;
    SourceKeepsAcyclic(s.g, g, e);
    BelowDirect(g, e, last);
    forall x | x in s.g && Below(s.g, last, x)
      ensures Below(g, e, x)
    {
      BelowTransitive(g, e, last, x);
    }
  }

  /** In every reachable state, whatever is satisfied and was called has everything below it satisfied. */
  lemma CalledMeansBelowSatisfied(s: Snapshot, e: Expectation)
    requires s.Invariant() && e in s.Satisfied() && s.calls[e] > 0
    ensures AllBelow(s.g, e) <= s.Satisfied()
  {
    BelowWithin(s.g, e, s.retired);
  }

  /** Hence the search for unsatisfied prerequisites, which does not look below called ones, finds
      something exactly when there is something to find. */
  lemma SearchIsComplete(s: Snapshot, a: Expectation)
    requires s.Invariant() && a in s.g
    ensures var quiet := set e | e in s.Satisfied() && s.calls[e] == 0;
      AllBelow(Cut(s.g, quiet + {a}), a) <= s.Satisfied() <==> AllBelow(s.g, a) <= s.Satisfied()
  {
    var satisfied := s.Satisfied();
    var quiet := set e | e in satisfied && s.calls[e] == 0;
    var h := Cut(s.g, quiet + {a});
    forall b | b in AllBelow(h, a)
      ensures b in AllBelow(s.g, a)
    {
      BelowMonotone(h, s.g, a, b);
    }
    if AllBelow(h, a) <= satisfied {
      var fine := set x | x in satisfied && (x in AllBelow(h, a) || AllBelow(s.g, x) <= satisfied);
      assert Successors(s.g, a) <= fine by {
        forall p | p in s.g[a]
          ensures p in fine
        {
          BelowDirect(h, a, p);
        }
      }
      forall x | x in fine
        ensures Successors(s.g, x) <= fine
      {
        SearchCovers(s, a, x, quiet, h);
      }
      BelowWithin(s.g, a, fine);
    }
  }

  lemma SearchCovers(s: Snapshot, a: Expectation, x: Expectation, quiet: set<Expectation>, h: Graph<Expectation>)
    requires s.Invariant() && a in s.g && quiet == (set e | e in s.Satisfied() && s.calls[e] == 0)
    requires h == Cut(s.g, quiet + {a}) && AllBelow(h, a) <= s.Satisfied()
    requires x in s.Satisfied() && (x in AllBelow(h, a) || AllBelow(s.g, x) <= s.Satisfied())
    ensures forall p :: p in Successors(s.g, x) ==>
              p in s.Satisfied() && (p in AllBelow(h, a) || AllBelow(s.g, p) <= s.Satisfied())
  {
    forall p | p in Successors(s.g, x)
      ensures p in s.Satisfied() && (p in AllBelow(h, a) || AllBelow(s.g, p) <= s.Satisfied())
    {
      if x in quiet && x in AllBelow(h, a) {
        ReachesPrerequisite(h, a, x, p);
      } else {
        if x !in quiet {
          CalledMeansBelowSatisfied(s, x);
        }
        BelowDirect(s.g, x, p);
        forall q | q in AllBelow(s.g, p)
          ensures q in AllBelow(s.g, x)
        {
          BelowTransitive(s.g, x, p, q);
        }
      }
    }
  }

  // ----- Runs -----

  /** A call that the expectation handles, a declaration with its prerequisites, or a sequence that puts an
      expectation behind its last one. */
  datatype Step =
    | Call(e: Expectation)
    | Declare(e: Expectation, prerequisites: set<Expectation>)
    | Link(e: Expectation, last: Expectation)

  ghost predicate Enabled(s: Snapshot, step: Step) {
    s.WellFormed() &&
    match step
    case Call(e) => s.Active(e)
    case Declare(e, prerequisites) => e !in s.g && prerequisites <= s.g.Keys && e.minCalls <= e.maxCalls
    case Link(e, last) => s.Fresh(e) && last in s.g && last != e
  }

  ghost function Next(s: Snapshot, step: Step): Snapshot
    requires Enabled(s, step)
  {
    match step
    case Call(e) => s.AfterCall(e)
    case Declare(e, prerequisites) => s.AfterDeclaration(e, prerequisites)
    case Link(e, last) => s.Linked(e, last)
  }

  /** Any interleaving of declarations, links and calls, one at a time under the lock. */
  ghost predicate IsRun(states: seq<Snapshot>, steps: seq<Step>) {
    && |states| == |steps| + 1 && states[0] == Snapshot(map[], map[], {})
    && forall i :: 0 <= i < |steps| ==> Enabled(states[i], steps[i]) && states[i + 1] == Next(states[i], steps[i])
  }

  lemma {:induction false} RunKeepsInvariant(states: seq<Snapshot>, steps: seq<Step>, i: nat)
    requires IsRun(states, steps) && i < |states|
    ensures states[i].Invariant()
  {
    if i > 0 {
      RunKeepsInvariant(states, steps, i - 1);
      assert Enabled(states[i - 1], steps[i - 1]);
      match steps[i - 1]
      case Call(e) => CallKeepsInvariant(states[i - 1], e);
      case Declare(e, prerequisites) => DeclarationKeepsInvariant(states[i - 1], e, prerequisites);
      case Link(e, last) => LinkKeepsInvariant(states[i - 1], e, last);
    }
  }

  lemma {:induction false} RetiredForever(states: seq<Snapshot>, steps: seq<Step>, i: nat, j: nat)
    requires IsRun(states, steps) && i <= j < |states|
    ensures states[i].retired <= states[j].retired
    decreases j
  {
    if i < j {
      RetiredForever(states, steps, i, j - 1);
      assert Enabled(states[j - 1], steps[j - 1]);
    }
  }

  /** The order that sequences promise, over every run: once an expectation has handled a call within its
      limit, none of its prerequisites ever handles a call again. */
  lemma PrerequisitesComeFirst(states: seq<Snapshot>, steps: seq<Step>, i: nat, j: nat)
    requires IsRun(states, steps) && i < j < |steps| && steps[i].Call? && steps[j].Call?
    requires Enabled(states[i], steps[i]) && !states[i].Excessive(steps[i].e)
    ensures !Below(states[i].g, steps[i].e, steps[j].e)
  {
    RunKeepsInvariant(states, steps, i);
    RetiredForever(states, steps, i + 1, j);
    assert states[i + 1] == Next(states[i], steps[i]);
    assert AllBelow(states[i].g, steps[i].e) <= states[j].retired;
    assert Enabled(states[j], steps[j]);
    BelowWithin(states[i].g, steps[i].e, states[i].g.Keys);
  }

  lemma StepGrows(s: Snapshot, step: Step)
    requires Enabled(s, step)
    ensures forall x :: x in s.g ==> x in Next(s, step).g && s.g[x] <= Next(s, step).g[x]
  {
  }

  lemma {:induction false} GraphGrows(states: seq<Snapshot>, steps: seq<Step>, i: nat, j: nat)
    requires IsRun(states, steps) && i <= j < |states|
    ensures forall x :: x in states[i].g ==> x in states[j].g && states[i].g[x] <= states[j].g[x]
    decreases j
  {
    if i < j {
      GraphGrows(states, steps, i, j - 1);
      StepGrows(states[j - 1], steps[j - 1]);
      assert states[j] == Next(states[j - 1], steps[j - 1]);
    }
  }

  /** What a step puts an expectation behind. */
  ghost function PutBefore(step: Step): set<Expectation> {
    match step
    case Call(_) => {}
    case Declare(_, prerequisites) => prerequisites
    case Link(_, last) => {last}
  }

  /** The order that declarations and sequences promise, over every run: an expectation was put behind p at step k,
      and handles a call within its limit at step i. Then neither p nor anything that p came after at step k
      ever handles a call again. */
  lemma OrderIsKept(states: seq<Snapshot>, steps: seq<Step>, k: nat, i: nat, j: nat, p: Expectation)
    requires IsRun(states, steps) && k < i < j < |steps| && steps[j].Call?
    requires p in PutBefore(steps[k]) && steps[i] == Call(steps[k].e) && !states[i].Excessive(steps[i].e)
    ensures steps[j].e != p && !Below(states[k].g, p, steps[j].e)
  {
    var e, x, g := steps[k].e, steps[j].e, states[i].g;
    assert Enabled(states[k], steps[k]) && p in states[k + 1].g[e];
    GraphGrows(states, steps, k, i);
    GraphGrows(states, steps, k + 1, i);
    PrerequisitesComeFirst(states, steps, i, j);
    BelowDirect(g, e, p);
    if Below(states[k].g, p, x) {
      BelowMonotone(states[k].g, g, p, x);
      BelowTransitive(g, e, p, x);
    }
  }

  /** How many of the first n steps are calls that the expectation handled. */
  ghost function CallsAmong(steps: seq<Step>, n: nat, e: Expectation): nat
    requires n <= |steps|
  {
    if n == 0 then 0 else CallsAmong(steps, n - 1, e) + if steps[n - 1] == Call(e) then 1 else 0
  }

  /** Over every run the call count of an expectation is the number of calls that it handled. */
  lemma {:induction false} CallsAreCounted(states: seq<Snapshot>, steps: seq<Step>, i: nat, e: Expectation)
    requires IsRun(states, steps) && i < |states|
    ensures states[i].WellFormed()
    ensures CallsAmong(steps, i, e) == if e in states[i].g then states[i].calls[e] else 0
  {
    if i > 0 {
      CallsAreCounted(states, steps, i - 1, e);
      assert Enabled(states[i - 1], steps[i - 1]) && states[i] == Next(states[i - 1], steps[i - 1]);
    }
  }

  /** Over every run: when an expectation handles a call, each of its prerequisites has handled as many calls as it
      has to, and not more than it may. */
  lemma PrerequisitesWereCalled(states: seq<Snapshot>, steps: seq<Step>, i: nat, e: Expectation, p: Expectation)
    requires IsRun(states, steps) && i < |steps| && steps[i] == Call(e) && Below(states[i].g, e, p)
    ensures p.minCalls <= CallsAmong(steps, i, p) <= p.maxCalls
  {
    RunKeepsInvariant(states, steps, i);
    CallsAreCounted(states, steps, i, p);
    assert Enabled(states[i], steps[i]);
    BelowWithin(states[i].g, e, states[i].g.Keys);
    assert p in AllBelow(states[i].g, e);
  }

  /** Step i is a call within the limit of its expectation, which comes after p. */
  ghost predicate PassesBy(states: seq<Snapshot>, steps: seq<Step>, i: nat, p: Expectation)
    requires i < |steps| && i < |states|
  {
    steps[i].Call? && CallsAmong(steps, i, steps[i].e) < steps[i].e.maxCalls && Below(states[i].g, steps[i].e, p)
  }

  ghost predicate WasPassed(states: seq<Snapshot>, steps: seq<Step>, n: nat, p: Expectation)
    requires n <= |steps| && n <= |states|
  {
    exists i :: 0 <= i < n && PassesBy(states, steps, i, p)
  }

  /** Asked to retire on saturation, and saturated. */
  ghost predicate HasRetiredItself(steps: seq<Step>, n: nat, p: Expectation)
    requires n <= |steps|
  {
    p.retiresOnSaturation && 0 < p.maxCalls <= CallsAmong(steps, n, p)
  }

  /** Over every run, an expectation is retired if and only if a call within its limit was handled by one that comes
      after it, or it was asked to retire on saturation and has handled as many calls as it may. */
  lemma {:induction false} RetiredMeans(states: seq<Snapshot>, steps: seq<Step>, n: nat, p: Expectation)
    requires IsRun(states, steps) && n < |states|
    ensures p in states[n].retired <==>
            p in states[n].g && (WasPassed(states, steps, n, p) || HasRetiredItself(steps, n, p))
  {
    if n > 0 {
      RetiredMeans(states, steps, n - 1, p);
      PassedGrows(states, steps, n, p);
      RetiredStep(states, steps, n - 1, p);
    }
  }

  lemma PassedGrows(states: seq<Snapshot>, steps: seq<Step>, n: nat, p: Expectation)
    requires 0 < n <= |steps| && n <= |states|
    ensures WasPassed(states, steps, n, p) <==> WasPassed(states, steps, n - 1, p) || PassesBy(states, steps, n - 1, p)
  {
    if i :| 0 <= i < n - 1 && PassesBy(states, steps, i, p) {
      assert 0 <= i < n;
    }
  }

  lemma RetiredStep(states: seq<Snapshot>, steps: seq<Step>, i: nat, p: Expectation)
    requires IsRun(states, steps) && i < |steps|
    requires p in states[i].retired <==>
             p in states[i].g && (WasPassed(states, steps, i, p) || HasRetiredItself(steps, i, p))
    ensures p in states[i + 1].retired <==>
            p in states[i + 1].g && (WasPassed(states, steps, i, p) || PassesBy(states, steps, i, p)
                                     || HasRetiredItself(steps, i + 1, p))
  {
    RunKeepsInvariant(states, steps, i);
    CallsAreCounted(states, steps, i, p);
    assert Enabled(states[i], steps[i]) && states[i + 1] == Next(states[i], steps[i]);
    if steps[i].Call? {
      CallsAreCounted(states, steps, i, steps[i].e);
    } else if p !in states[i].g {
      NeverPassedBefore(states, steps, i, p);
    }
  }

  /** Nothing comes after an expectation before it is declared. */
  lemma NeverPassedBefore(states: seq<Snapshot>, steps: seq<Step>, n: nat, p: Expectation)
    requires IsRun(states, steps) && n <= |steps| && p !in states[n].g
    ensures !WasPassed(states, steps, n, p)
  {
    forall i | 0 <= i < n ensures !PassesBy(states, steps, i, p) {
      RunKeepsInvariant(states, steps, i);
      GraphGrows(states, steps, i, n);
      if steps[i].Call? {
        assert Enabled(states[i], steps[i]);
        BelowWithin(states[i].g, steps[i].e, states[i].g.Keys);
      }
    }
  }

  // ----- Handling a call -----

  /** What a call does: the default action of the mock function, one of the actions given for a single call
      each, or the action given for all later calls. */
  datatype Action = DefaultAction | Once(index: nat) | Repeated

  /** The action of the call that is counted as the given number, from one on. */
  function GetCurrentAction(count: nat, actionCount: nat): (action: Action)
    requires count >= 1
    ensures action == Once(count - 1) <==> count <= actionCount
  {
    if count <= actionCount then Once(count - 1) else Repeated
  }

  /** Over every run, the calls within the limit that an expectation handles take its single actions in order, each
      once and none left out, and then the repeated one. */
  lemma ActionsComeInOrder(states: seq<Snapshot>, steps: seq<Step>, i: nat, actionCount: nat)
    requires IsRun(states, steps) && i < |steps| && steps[i].Call? && Enabled(states[i], steps[i])
    ensures var before := CallsAmong(steps, i, steps[i].e);
      && (states[i].Excessive(steps[i].e) <==> before >= steps[i].e.maxCalls)
      && GetCurrentAction(states[i].calls[steps[i].e] + 1, actionCount) ==
           if before < actionCount then Once(before) else Repeated
  {
    CallsAreCounted(states, steps, i, steps[i].e);
  }

  /** The counting and retiring part of a call: exactly one step of a run. */
  method HandleCall(e: Expectation, ghost universe: set<Expectation>) returns (excessive: bool)
    requires e in universe && SnapshotOf(universe).Invariant() && SnapshotOf(universe).Active(e)
    modifies e`callCount, universe`retired
    ensures SnapshotOf(universe) == old(SnapshotOf(universe)).AfterCall(e)
    ensures SnapshotOf(universe).Invariant() && e.callCount == old(e.callCount) + 1
    ensures excessive <==> old(SnapshotOf(universe)).Excessive(e)
  {
    CallKeepsInvariant(SnapshotOf(universe), e);
    excessive := CountCall(e, universe);
  }

  /** The call is counted, and retires what it has to. */
  method CountCall(e: Expectation, ghost universe: set<Expectation>) returns (excessive: bool)
    requires e in universe && Closed(GraphOf(universe)) && RetiredClosed(GraphOf(universe), RetiredIn(universe))
    modifies e`callCount, universe`retired
    ensures SnapshotOf(universe) == old(SnapshotOf(universe)).AfterCall(e) && e.callCount == old(e.callCount) + 1
    ensures excessive <==> old(SnapshotOf(universe)).Excessive(e)
  {
    ghost var s := SnapshotOf(universe);
    assert s.calls[e] == e.callCount;
    excessive := e.IsSaturated();
    if excessive {
      e.IncrementCallCount(universe);
    } else {
      CountAndRetire(e, universe);
    }
    assert GraphOf(universe) == s.g && CallsOf(universe) == s.calls[e := s.calls[e] + 1];
    IsAfterCall(s, e, SnapshotOf(universe));
  }

  lemma IsAfterCall(s: Snapshot, e: Expectation, t: Snapshot)
    requires s.WellFormed() && e in s.g && t.g == s.g && t.calls == s.calls[e := s.calls[e] + 1]
    requires t.retired == if s.Excessive(e) then s.retired else RetiredByCall(s.g, e, s.calls[e], s.retired)
    ensures t == s.AfterCall(e)
  {
  }

  /** What is retired after a call within the limit. */
  ghost function RetiredByCall(g: Graph<Expectation>, e: Expectation, calls: nat, retired: set<Expectation>)
    : set<Expectation>
  {
    retired + AllBelow(g, e) + if e.retiresOnSaturation && calls + 1 >= e.maxCalls then {e} else {}
  }

  /** A call within the limit. */
  method CountAndRetire(e: Expectation, ghost universe: set<Expectation>)
    requires e in universe && Closed(GraphOf(universe)) && RetiredClosed(GraphOf(universe), RetiredIn(universe))
    modifies e`callCount, universe`retired
    ensures CallsOf(universe) == old(CallsOf(universe))[e := old(e.callCount) + 1]
    ensures RetiredIn(universe) == RetiredByCall(old(GraphOf(universe)), e, old(e.callCount), old(RetiredIn(universe)))
  {
    ghost var g, was, calls := GraphOf(universe), RetiredIn(universe), e.callCount;
    e.IncrementCallCount(universe);
    assert e.callCount == calls + 1 by {
      assert CallsOf(universe)[e] == e.callCount;
    }
    e.RetireAllPreRequisites(universe);
    assert RetiredIn(universe) == was + AllBelow(g, e);
    if e.retiresOnSaturation && e.IsSaturated() {
      e.Retire(universe);
      assert RetiredIn(universe) == was + AllBelow(g, e) + {e};
    } else {
      assert RetiredIn(universe) == was + AllBelow(g, e) + {};
    }
    assert GraphOf(universe) == g;
  }

  /** An excessive call takes the default action. The single actions have run out if there were some, none is given
      for later calls, and this is a later call. */
  method GetActionForArguments(e: Expectation, actionCount: nat, repeatedActionSpecified: bool,
                               ghost universe: set<Expectation>)
    returns (action: Action, actionsRanOut: bool)
    requires e in universe && SnapshotOf(universe).Invariant() && SnapshotOf(universe).Active(e)
    modifies e`callCount, universe`retired
    ensures SnapshotOf(universe) == old(SnapshotOf(universe)).AfterCall(e)
    ensures SnapshotOf(universe).Invariant()
    ensures action == if old(SnapshotOf(universe)).Excessive(e) then DefaultAction
                      else if old(e.callCount) < actionCount then Once(old(e.callCount)) else Repeated
    ensures actionsRanOut <==> action == Repeated && actionCount > 0 && !repeatedActionSpecified
  {
    var excessive := HandleCall(e, universe);
    if excessive {
      return DefaultAction, false;
    }
    actionsRanOut := actionCount > 0 && !repeatedActionSpecified && e.callCount > actionCount;
    action := GetCurrentAction(e.callCount, actionCount);
  }

  method ShouldHandleArguments(e: Expectation, matches: bool, ghost universe: set<Expectation>) returns (ok: bool)
    requires e in universe && SnapshotOf(universe).Invariant()
    ensures ok <==> matches && SnapshotOf(universe).Active(e)
    ensures ok <==> matches && !e.retired && PrerequisitesAreWithinLimits(universe, e)
  {
    ok := false;
    if !e.retired {
      var satisfied := e.AllPrerequisitesAreSatisfied(universe);
      ok := satisfied && matches;
    }
    assert SnapshotOf(universe).Satisfied() == SatisfiedIn(universe);
  }

  ghost predicate MayHandle(universe: set<Expectation>, e: Expectation)
    reads universe, e`retired
  {
    !e.retired && PrerequisitesAreWithinLimits(universe, e)
  }

  /** The last declared expectation that may handle a call with matching arguments. */
  method FindMatchingExpectation(expectations: seq<Expectation>, matches: seq<bool>, ghost universe: set<Expectation>)
    returns (k: int)
    requires |matches| == |expectations| && forall e :: e in expectations ==> e in universe
    requires SnapshotOf(universe).Invariant()
    ensures -1 <= k < |expectations|
    ensures k >= 0 ==> matches[k] && SnapshotOf(universe).Active(expectations[k])
    ensures k >= 0 ==> MayHandle(universe, expectations[k])
    ensures forall i :: k < i < |expectations| ==> !(matches[i] && SnapshotOf(universe).Active(expectations[i]))
    ensures forall i :: k < i < |expectations| ==> !(matches[i] && MayHandle(universe, expectations[i]))
  {
    k := |expectations| - 1;
    while k >= 0
      invariant -1 <= k < |expectations|
      invariant forall i :: k < i < |expectations| ==> !(matches[i] && SnapshotOf(universe).Active(expectations[i]))
      invariant forall i :: k < i < |expectations| ==> !(matches[i] && MayHandle(universe, expectations[i]))
    {
      var ok := ShouldHandleArguments(expectations[k], matches[k], universe);
      if ok {
        return;
      }
      k := k - 1;
    }
  }

  /** The prerequisites named when a call fails to match: there are some exactly when the check fails. */
  method ExplainPrerequisites(e: Expectation, ghost universe: set<Expectation>) returns (unsatisfied: set<Expectation>)
    requires e in universe && SnapshotOf(universe).Invariant()
    ensures unsatisfied == {} <==> AllBelow(GraphOf(universe), e) <= SatisfiedIn(universe)
    ensures unsatisfied <= AllBelow(GraphOf(universe), e) - SatisfiedIn(universe)
  {
    ghost var s := SnapshotOf(universe);
    ghost var quiet := set x | x in s.Satisfied() && s.calls[x] == 0;
    assert s.Satisfied() == SatisfiedIn(universe) && quiet == QuietIn(universe);
    SearchIsComplete(s, e);
    unsatisfied := e.FindUnsatisfiedPrerequisites({}, universe);
    forall b | b in unsatisfied
      ensures Below(s.g, e, b)
    {
      BelowMonotone(Cut(s.g, quiet + {e}), s.g, e, b);
    }
  }

  /** Why an expectation does not handle a call, or that it does. */
  datatype Explanation = Inactive | ArgumentsDiffer | Unsatisfied(prerequisites: set<Expectation>) | Matching

  /** The explanation names the first reason that applies; only a call that would be handled has none. */
  method ExplainMatchResult(e: Expectation, matches: bool, ghost universe: set<Expectation>) returns (why: Explanation)
    requires e in universe && SnapshotOf(universe).Invariant()
    ensures why == Inactive <==> e.retired
    ensures why == ArgumentsDiffer <==> !e.retired && !matches
    ensures why == Matching <==> matches && SnapshotOf(universe).Active(e)
    ensures why.Unsatisfied? ==>
      why.prerequisites != {} && why.prerequisites <= AllBelow(GraphOf(universe), e) - SatisfiedIn(universe)
  {
    assert SnapshotOf(universe).Satisfied() == SatisfiedIn(universe);
    if e.retired {
      return Inactive;
    }
    if !matches {
      return ArgumentsDiffer;
    }
    var satisfied := e.AllPrerequisitesAreSatisfied(universe);
    if satisfied {
      return Matching;
    }
    var unsatisfied := ExplainPrerequisites(e, universe);
    why := Unsatisfied(unsatisfied);
  }

  // ----- Sequences -----

  class Sequence {
    var last: Expectation?

    constructor ()
      ensures last == null
    {
      last := null;
    }

    /** Puts an expectation at the end of the sequence, behind the last one so far. */
    method AddExpectation(e: Expectation, ghost universe: set<Expectation>)
      requires e in universe && (last != null ==> last in universe)
      modifies this, e`immediatePrerequisites
      ensures last == e
      ensures SnapshotOf(universe) == if old(last) == null || old(last) == e then old(SnapshotOf(universe))
                                      else old(SnapshotOf(universe)).Linked(e, old(last))
    {
      if last != e {
        if last != null {
          e.immediatePrerequisites := e.immediatePrerequisites + {last};
        }
        last := e;
      }
    }
  }
}
