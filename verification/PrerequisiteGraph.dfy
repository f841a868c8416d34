/** Prerequisite graphs: which nodes lie transitively below a node, and why walks without a visited set
    come to an end when no node lies below itself. */
module PrerequisiteGraph {
  import opened Cardinality
  import opened Division

  /** Each node with its immediate prerequisites. */
  type Graph<T> = map<T, set<T>>

  ghost predicate Closed<T>(g: Graph<T>) {
    forall a :: a in g ==> g[a] <= g.Keys
  }

  ghost function Successors<T>(g: Graph<T>, a: T): set<T> {
    if a in g then g[a] else {}
  }

  /** The ends of the walks from a of n + 1 steps. */
  ghost function Layer<T>(g: Graph<T>, a: T, n: nat): set<T> {
    if n == 0 then Successors(g, a)
    else set x, y | x in Layer(g, a, n - 1) && y in Successors(g, x) :: y
  }

  /** b is a prerequisite of a, immediate or not. */
  ghost predicate Below<T>(g: Graph<T>, a: T, b: T) {
    exists n: nat :: b in Layer(g, a, n)
  }

  ghost predicate Acyclic<T>(g: Graph<T>) {
    forall a :: a in g ==> !Below(g, a, a)
  }

  lemma {:induction false} LayersCompose<T>(g: Graph<T>, a: T, b: T, c: T, n: nat, m: nat)
    requires b in Layer(g, a, n) && c in Layer(g, b, m)
    ensures c in Layer(g, a, n + m + 1)
  {
    if m > 0 {
      var x :| x in Layer(g, b, m - 1) && c in Successors(g, x);
      LayersCompose(g, a, b, x, n, m - 1);
      assert x in Layer(g, a, n + m);
    }
  }

  lemma BelowDirect<T>(g: Graph<T>, a: T, b: T)
    requires b in Successors(g, a)
    ensures Below(g, a, b)
  {
    assert b in Layer(g, a, 0);
  }

  lemma BelowTransitive<T>(g: Graph<T>, a: T, b: T, c: T)
    requires Below(g, a, b) && Below(g, b, c)
    ensures Below(g, a, c)
  {
    var n: nat :| b in Layer(g, a, n);
    var m: nat :| c in Layer(g, b, m);
    LayersCompose(g, a, b, c, n, m);
  }

  lemma {:induction false} LayerFirstStep<T>(g: Graph<T>, a: T, b: T, n: nat)
    requires b in Layer(g, a, n)
    ensures b in Successors(g, a) || exists p :: p in Successors(g, a) && Below(g, p, b)
  {
    if n > 0 {
      var x :| x in Layer(g, a, n - 1) && b in Successors(g, x);
      LayerFirstStep(g, a, x, n - 1);
      BelowDirect(g, x, b);
      if x !in Successors(g, a) {
        var p :| p in Successors(g, a) && Below(g, p, x);
        BelowTransitive(g, p, x, b);
      }
    }
  }

  /** Everything below a is an immediate prerequisite of a, or below one. */
  lemma BelowFirstStep<T>(g: Graph<T>, a: T, b: T)
    requires Below(g, a, b)
    ensures b in Successors(g, a) || exists p :: p in Successors(g, a) && Below(g, p, b)
  {
    var n: nat :| b in Layer(g, a, n);
    LayerFirstStep(g, a, b, n);
  }

  lemma {:induction false} LayerWithin<T>(g: Graph<T>, a: T, n: nat, s: set<T>)
    requires Successors(g, a) <= s && forall x :: x in s ==> Successors(g, x) <= s
    ensures Layer(g, a, n) <= s
  {
    if n > 0 {
      LayerWithin(g, a, n - 1, s);
    }
  }

  /** A set that holds a's immediate prerequisites and is closed under prerequisites holds all below a. */
  lemma BelowWithin<T>(g: Graph<T>, a: T, s: set<T>)
    requires Successors(g, a) <= s && forall x :: x in s ==> Successors(g, x) <= s
    ensures forall b :: Below(g, a, b) ==> b in s
  {
    forall b | Below(g, a, b)
      ensures b in s
    {
      var n: nat :| b in Layer(g, a, n);
      LayerWithin(g, a, n, s);
    }
  }

  /** Removing prerequisites removes walks, never adds any. */
  lemma {:induction false} LayerMonotone<T>(g: Graph<T>, h: Graph<T>, a: T, n: nat)
    requires forall x :: x in g ==> Successors(g, x) <= Successors(h, x)
    ensures Layer(g, a, n) <= Layer(h, a, n)
  {
    if n > 0 {
      LayerMonotone(g, h, a, n - 1);
    }
  }

  lemma BelowMonotone<T>(g: Graph<T>, h: Graph<T>, a: T, b: T)
    requires forall x :: x in g ==> Successors(g, x) <= Successors(h, x)
    requires Below(g, a, b)
    ensures Below(h, a, b)
  {
    var n: nat :| b in Layer(g, a, n);
    LayerMonotone(g, h, a, n);
  }

  lemma {:induction false} LayersBesideSource<T>(g: Graph<T>, g': Graph<T>, e: T, a: T, n: nat)
    requires forall x :: x in g && x != e ==> x in g' && g'[x] == g[x]
    requires forall x :: x in g' ==> e !in g'[x] && (x != e ==> x in g)
    requires a != e
    ensures Layer(g', a, n) == Layer(g, a, n) && e !in Layer(g', a, n)
  {
    if n > 0 {
      LayersBesideSource(g, g', e, a, n - 1);
      assert forall x :: x != e ==> Successors(g', x) == Successors(g, x) && e !in Successors(g', x);
    }
  }

  /** Giving prerequisites to a node that nothing depends on cannot close a cycle. */
  lemma SourceKeepsAcyclic<T>(g: Graph<T>, g': Graph<T>, e: T)
    requires Acyclic(g)
    requires forall x :: x in g && x != e ==> x in g' && g'[x] == g[x]
    requires forall x :: x in g' ==> e !in g'[x] && (x != e ==> x in g)
    ensures Acyclic(g')
    ensures forall a, b :: a != e ==> (Below(g', a, b) <==> Below(g, a, b))
  {
    forall a, n: nat | a != e
      ensures Layer(g', a, n) == Layer(g, a, n)
    {
      LayersBesideSource(g, g', e, a, n);
    }
    forall n: nat
      ensures e !in Layer(g', e, n)
    {
      if n > 0 {
        assert forall x :: e !in Successors(g', x);
      }
    }
  }

  // ----- Weights -----

  ghost function AllBelow<T>(g: Graph<T>, a: T): set<T> {
    set b | b in g.Keys && Below(g, a, b)
  }

  ghost function Pow(b: nat, n: nat): nat {
    if n == 0 then 1 else b * Pow(b, n - 1)
  }

  lemma {:induction false} PowMonotone(b: nat, m: nat, n: nat)
    requires b > 0 && m <= n
    ensures 0 < Pow(b, m) <= Pow(b, n)
  {
    if m > 0 {
      PowMonotone(b, m - 1, n - 1);
      TimesMonotone(Pow(b, m - 1), Pow(b, n - 1), b);
      TimesMonotone(1, Pow(b, m - 1), b);
    } else if n > 0 {
      PowMonotone(b, 0, n - 1);
      TimesMonotone(1, b, Pow(b, n - 1));
    }
  }

  ghost function Base<T>(g: Graph<T>): nat {
    |g| + 1
  }

  /** An upper bound for the number of walks from a. */
  ghost function Weight<T>(g: Graph<T>, a: T): nat {
    Pow(Base(g), |AllBelow(g, a)|)
  }

  /** A node outweighs all its immediate prerequisites together. */
  lemma PrerequisiteIsLighter<T>(g: Graph<T>, a: T, p: T)
    requires Closed(g) && Acyclic(g) && a in g && p in g[a]
    ensures Base(g) * Weight(g, p) <= Weight(g, a)
    ensures |g[a]| < Base(g)
  {
    BelowDirect(g, a, p);
    forall b | b in AllBelow(g, p)
      ensures b in AllBelow(g, a)
    {
      BelowTransitive(g, a, p, b);
    }
    assert p in AllBelow(g, a) - AllBelow(g, p);
    SubsetCount(AllBelow(g, p) + {p}, AllBelow(g, a));
    PowMonotone(Base(g), |AllBelow(g, p)| + 1, |AllBelow(g, a)|);
    SubsetCount(g[a], g.Keys);
  }

  ghost function Load<T>(g: Graph<T>, worklist: seq<T>): nat {
    if worklist == [] then 0
    else Load(g, worklist[..|worklist| - 1]) + Weight(g, worklist[|worklist| - 1])
  }

  lemma LoadPush<T>(g: Graph<T>, worklist: seq<T>, a: T)
    ensures Load(g, worklist + [a]) == Load(g, worklist) + Weight(g, a)
  {
    assert (worklist + [a])[..|worklist|] == worklist;
  }

  /** The budget of a walk step: k prerequisites pushed so far in place of a node of the given weight. */
  ghost predicate WithinBudget(base: nat, load: nat, before: nat, weight: nat, k: nat) {
    base * load <= base * before + k * weight
  }

  lemma BudgetPush<T>(g: Graph<T>, a: T, p: T, load: nat, load': nat, before: nat, k: nat)
    requires Closed(g) && Acyclic(g) && a in g && p in g[a]
    requires WithinBudget(Base(g), load, before, Weight(g, a), k)
    requires load' <= load + Weight(g, p)
    ensures WithinBudget(Base(g), load', before, Weight(g, a), k + 1)
  {
    PrerequisiteIsLighter(g, a, p);
    var base, weight := Base(g), Weight(g, a);
    assert base * load' <= base * (load + Weight(g, p)) == base * load + base * Weight(g, p);
    assert (k + 1) * weight == k * weight + weight;
  }

  /** Replacing a node by no more nodes than it has immediate prerequisites, each of them that light,
      makes the worklist lighter. */
  lemma BudgetKept(base: nat, load: nat, before: nat, weight: nat, k: nat)
    requires WithinBudget(base, load, before, weight, k) && k < base && weight > 0
    ensures load < before + weight
  {
    assert (k + 1) * weight <= base * weight;
    assert base * load < base * before + base * weight == base * (before + weight);
    MulCancels(base, load, before + weight);
  }

  lemma MulCancels(a: nat, x: nat, y: nat)
    requires a * x < a * y
    ensures x < y
  {
  }

  // ----- Walks -----

  ghost function UnderSome<T>(g: Graph<T>, s: set<T>): set<T> {
    set b | b in g.Keys && exists a :: a in s && Below(g, a, b)
  }

  /** Midway through a walk from the root: everything below it is handled, on the list of things to look
      at, or below something there or on the worklist. */
  ghost predicate Walk<T>(g: Graph<T>, root: T, handled: set<T>, worklist: seq<T>, todo: set<T>) {
    AllBelow(g, root) <= handled + UnderSome(g, Elements(worklist)) + todo + UnderSome(g, todo)
  }

  lemma WalkStart<T>(g: Graph<T>, root: T, handled: set<T>)
    ensures Walk(g, root, handled, [root], {})
  {
    assert root in Elements([root]);
  }

  lemma WalkOpen<T>(g: Graph<T>, root: T, handled: set<T>, worklist: seq<T>, a: T)
    requires Walk(g, root, handled, worklist + [a], {})
    ensures Walk(g, root, handled, worklist, Successors(g, a))
  {
    assert UnderSome(g, {}) == {};
    assert Elements(worklist + [a]) == Elements(worklist) + {a};
    forall b | b in UnderSome(g, Elements(worklist) + {a}) && b !in UnderSome(g, Elements(worklist))
      ensures b in Successors(g, a) + UnderSome(g, Successors(g, a))
    {
      BelowFirstStep(g, a, b);
    }
  }

  lemma WalkPush<T>(g: Graph<T>, root: T, handled: set<T>, worklist: seq<T>, todo: set<T>, p: T)
    requires Walk(g, root, handled, worklist, todo) && p in todo && p in handled
    ensures Walk(g, root, handled, worklist + [p], todo - {p})
  {
    assert Elements(worklist + [p]) == Elements(worklist) + {p};
    assert UnderSome(g, todo) <= UnderSome(g, todo - {p}) + UnderSome(g, Elements(worklist) + {p});
    assert UnderSome(g, Elements(worklist)) <= UnderSome(g, Elements(worklist) + {p});
  }

  lemma WalkSkip<T>(g: Graph<T>, root: T, handled: set<T>, worklist: seq<T>, todo: set<T>, p: T)
    requires Walk(g, root, handled, worklist, todo) && p in todo && p in handled
    requires Successors(g, p) == {}
    ensures Walk(g, root, handled, worklist, todo - {p})
  {
    BelowWithin(g, p, {});
    assert UnderSome(g, todo) <= UnderSome(g, todo - {p});
  }

  lemma WalkDone<T>(g: Graph<T>, root: T, handled: set<T>)
    requires Walk(g, root, handled, [], {})
    ensures AllBelow(g, root) <= handled
  {
    var nothing: seq<T> := [];
    assert Elements(nothing) == {} && UnderSome(g, {}) == {};
  }

  /** A graph cut down to the prerequisites of the given nodes. */
  ghost function Cut<T>(g: Graph<T>, kept: set<T>): Graph<T> {
    map a | a in g :: if a in kept then g[a] else {}
  }
}
