/** Maximum bipartite matching between container elements (left) and matchers (right), and the
    pairing test of the unordered-elements matchers that is built on it. */
module Matching {
  import opened Cardinality

  /** The abstract value of a match matrix. */
  datatype Graph = Graph(lhs: nat, rhs: nat, edges: set<(nat, nat)>)

  // ----- The connectivity matrix -----

  lemma SpaceIndexInRange(l: nat, r: nat, lhs: nat, rhs: nat)
    requires l < lhs && r < rhs
    ensures 0 <= l * rhs + r < lhs * rhs
  {
    assert (l + 1) * rhs <= lhs * rhs;
    assert (l + 1) * rhs == l * rhs + rhs;
  }

  lemma SpaceIndexMonotone(l: nat, r: nat, l': nat, r': nat, rhs: nat)
    requires l < l' && r < rhs
    ensures l * rhs + r < l' * rhs + r'
  {
    assert (l + 1) * rhs <= l' * rhs;
    assert (l + 1) * rhs == l * rhs + rhs;
  }

  /** The row-major cells read as a binary number, the first cell being the lowest bit. */
  ghost function Number(cells: seq<bool>): nat {
    if cells == [] then 0 else (if cells[0] then 1 else 0) + 2 * Number(cells[1..])
  }

  ghost function Pow2(n: nat): nat {
    if n == 0 then 1 else 2 * Pow2(n - 1)
  }

  lemma DoubleProduct(x: nat, y: nat)
    ensures 2 * (x * y) == (2 * x) * y
  {
  }

  lemma {:induction false} NumberAppend(a: seq<bool>, b: seq<bool>)
    ensures Number(a + b) == Number(a) + Pow2(|a|) * Number(b)
  {
    if a == [] {
      assert a + b == b;
    } else {
      NumberAppend(a[1..], b);
      assert (a + b)[1..] == a[1..] + b;
      DoubleProduct(Pow2(|a| - 1), Number(b));
    }
  }

  lemma {:induction false} NumberOfConstant(n: nat, b: bool)
    ensures Number(seq(n, _ => b)) == if b then Pow2(n) - 1 else 0
  {
    if n > 0 {
      NumberOfConstant(n - 1, b);
      assert seq(n, _ => b)[1..] == seq(n - 1, _ => b);
    }
  }

  /** Flipping k leading ones to zero and the zero after them to one adds one. */
  lemma {:induction false} CarryAddsOne(before: seq<bool>, after: seq<bool>, k: nat)
    requires k < |before| == |after|
    requires forall i :: 0 <= i < k ==> before[i] && !after[i]
    requires !before[k] && after[k] && before[k + 1..] == after[k + 1..]
    ensures Number(after) == Number(before) + 1
  {
    var rest := before[k + 1..];
    assert before == seq(k, _ => true) + ([false] + rest);
    assert after == seq(k, _ => false) + ([true] + rest);
    NumberAppend(seq(k, _ => true), [false] + rest);
    NumberAppend(seq(k, _ => false), [true] + rest);
    NumberOfConstant(k, true);
    NumberOfConstant(k, false);
    assert ([false] + rest)[1..] == rest == ([true] + rest)[1..];
    assert Pow2(k) * (1 + 2 * Number(rest)) == Pow2(k) + Pow2(k) * (2 * Number(rest));
  }

  class MatchMatrix {
    const lhsSize: nat
    const rhsSize: nat
    var matched: seq<bool>

    ghost predicate Valid()
      reads this
    {
      |matched| == lhsSize * rhsSize
    }

    ghost function Value(): Graph
      requires Valid()
      reads this
    {
      Graph(lhsSize, rhsSize, set l: nat, r: nat | l < lhsSize && r < rhsSize && HasEdge(l, r) :: (l, r))
    }

    constructor (numElements: nat, numMatchers: nat)
      ensures Valid() && lhsSize == numElements && rhsSize == numMatchers
      ensures Value() == Graph(numElements, numMatchers, {})
    {
      lhsSize, rhsSize := numElements, numMatchers;
      matched := seq(numElements * numMatchers, _ => false);
      new;
      assert forall l: nat, r: nat | l < lhsSize && r < rhsSize :: !HasEdge(l, r);
    }

    function SpaceIndex(l: nat, r: nat): (i: nat)
      requires l < lhsSize && r < rhsSize
      ensures i < lhsSize * rhsSize
    {
      SpaceIndexInRange(l, r, lhsSize, rhsSize);
      l * rhsSize + r
    }

    predicate HasEdge(l: nat, r: nat)
      requires Valid() && l < lhsSize && r < rhsSize
      reads this
    {
      matched[SpaceIndex(l, r)]
    }

    method SetEdge(l: nat, r: nat, b: bool)
      requires Valid() && l < lhsSize && r < rhsSize
      modifies this
      ensures Valid()
      ensures Value().edges == if b then old(Value().edges) + {(l, r)} else old(Value().edges) - {(l, r)}
    {
      matched := matched[SpaceIndex(l, r) := b];
      forall l': nat, r': nat | l' < lhsSize && r' < rhsSize
        ensures HasEdge(l', r') == if l == l' && r == r' then b else old(HasEdge(l', r'))
      {
        if l < l' {
          SpaceIndexMonotone(l, r, l', r', rhsSize);
        } else if l' < l {
          SpaceIndexMonotone(l', r', l, r, rhsSize);
        }
      }
    }

    /** Adds one to the matrix read as a number; false if that overflowed and left it empty. */
    method NextGraph() returns (more: bool)
      requires Valid()
      modifies this
      ensures Valid()
      ensures more <==> Number(old(matched)) + 1 < Pow2(lhsSize * rhsSize)
      ensures Number(matched) == if more then Number(old(matched)) + 1 else 0
      ensures Follows(old(matched), matched)
    {
      ghost var was := matched;
      ghost var k: nat := 0;
      var l := 0;
      while l < lhsSize
        invariant 0 <= l <= lhsSize && k == l * rhsSize <= |matched| == |was| == lhsSize * rhsSize
        invariant forall i :: 0 <= i < k ==> was[i] && !matched[i]
        invariant matched[k..] == was[k..]
      {
        var r := 0;
        while r < rhsSize
          invariant 0 <= r <= rhsSize && k == l * rhsSize + r <= |matched| == |was| == lhsSize * rhsSize
          invariant forall i :: 0 <= i < k ==> was[i] && !matched[i]
          invariant matched[k..] == was[k..]
        {
          assert SpaceIndex(l, r) == k;
          assert matched[k] == matched[k..][0] == was[k];
          if !matched[SpaceIndex(l, r)] {
            matched := matched[SpaceIndex(l, r) := true];
            assert matched[k + 1..] == was[k..][1..] == was[k + 1..];
            CarryAddsOne(was, matched, k);
            NumberBound(matched);
            return true;
          }
          matched := matched[SpaceIndex(l, r) := false];
          assert matched[k + 1..] == was[k..][1..] == was[k + 1..];
          r, k := r + 1, k + 1;
        }
        l := l + 1;
      }
      assert was == seq(|was|, _ => true) && matched == seq(|was|, _ => false);
      NumberOfConstant(|was|, true);
      NumberOfConstant(|was|, false);
      return false;
    }
  }

  /** Equal numbers of equal length are equal matrices. */
  lemma {:induction false} NumberInjective(a: seq<bool>, b: seq<bool>)
    requires |a| == |b| && Number(a) == Number(b)
    ensures a == b
  {
    if a != [] {
      NumberInjective(a[1..], b[1..]);
      assert a == [a[0]] + a[1..] && b == [b[0]] + b[1..];
    }
  }

  lemma {:induction false} NumberBound(cells: seq<bool>)
    ensures Number(cells) < Pow2(|cells|)
  {
    if cells != [] {
      NumberBound(cells[1..]);
    }
  }

  /** What a call of NextGraph makes of a matrix. */
  ghost predicate Follows(before: seq<bool>, after: seq<bool>) {
    && |after| == |before|
    && Number(after) == if Number(before) + 1 < Pow2(|before|) then Number(before) + 1 else 0
  }

  /** The matrices of successive calls, from the empty one on. */
  ghost predicate IsTraversal(visited: seq<seq<bool>>, size: nat) {
    && visited != [] && visited[0] == seq(size, _ => false)
    && forall i :: 0 <= i < |visited| - 1 ==> Follows(visited[i], visited[i + 1])
  }

  lemma {:induction false} VisitedNumber(visited: seq<seq<bool>>, size: nat, n: nat)
    requires IsTraversal(visited, size) && n < |visited| && n < Pow2(size)
    ensures |visited[n]| == size && Number(visited[n]) == n
  {
    if n == 0 {
      NumberOfConstant(size, false);
    } else {
      VisitedNumber(visited, size, n - 1);
      assert Follows(visited[n - 1], visited[n - 1 + 1]);
    }
  }

  /** In one round of calls every matrix of the size is visited exactly once: after as many calls as its number. */
  lemma EveryMatrixIsVisitedOnce(visited: seq<seq<bool>>, size: nat, cells: seq<bool>, n: nat)
    requires IsTraversal(visited, size) && |visited| == Pow2(size) && |cells| == size && n < Pow2(size)
    ensures Number(cells) < Pow2(size) && (visited[n] == cells <==> n == Number(cells))
  {
    NumberBound(cells);
    VisitedNumber(visited, size, n);
    if n == Number(cells) {
      NumberInjective(visited[n], cells);
    }
  }

  /** The call after the last matrix of a round starts again with the empty one. */
  lemma RoundEnds(visited: seq<seq<bool>>, size: nat)
    requires IsTraversal(visited, size) && |visited| == Pow2(size) + 1
    ensures visited[Pow2(size)] == seq(size, _ => false)
  {
    NumberBound(seq(size, _ => false));
    var last := Pow2(size) - 1;
    VisitedNumber(visited, size, last);
    assert Follows(visited[last], visited[last + 1]);
    NumberOfConstant(size, false);
    NumberInjective(visited[Pow2(size)], seq(size, _ => false));
  }

  // ----- Matchings -----

  ghost predicate IsMatching(g: Graph, m: set<(nat, nat)>) {
    && m <= g.edges
    && (forall p, q :: p in m && q in m && p.0 == q.0 ==> p == q)
    && (forall p, q :: p in m && q in m && p.1 == q.1 ==> p == q)
  }

  ghost predicate InBounds(g: Graph) {
    forall e :: e in g.edges ==> e.0 < g.lhs && e.1 < g.rhs
  }

  // ----- The search state -----

  const UNUSED := -1

  /** Every used left node is mutually linked, along an edge of the graph, with its right node. */
  ghost predicate LeftLinked(g: Graph, left: seq<int>, right: seq<int>) {
    && |left| == g.lhs && |right| == g.rhs
    && forall l: nat :: l < g.lhs ==>
         left[l] == UNUSED || (0 <= left[l] < g.rhs && right[left[l]] == l && (l, left[l]) in g.edges)
  }

  /** Every used right node, except possibly the one given, is mutually linked with its left node. */
  ghost predicate RightLinkedExcept(g: Graph, left: seq<int>, right: seq<int>, hole: int) {
    && |left| == g.lhs && |right| == g.rhs
    && forall r: nat :: r < g.rhs ==>
         right[r] == UNUSED || (0 <= right[r] < g.lhs && (r == hole || left[right[r]] == r))
  }

  ghost predicate Linked(g: Graph, left: seq<int>, right: seq<int>) {
    LeftLinked(g, left, right) && RightLinkedExcept(g, left, right, UNUSED)
  }

  ghost predicate NeighboursIn(g: Graph, l: int, s: set<nat>) {
    forall r: nat :: l >= 0 && (l, r) in g.edges ==> r in s
  }

  /** A dead set: right nodes that are all used, by left nodes that lead nowhere else. */
  ghost predicate Dead(g: Graph, right: seq<int>, dead: set<nat>) {
    |right| == g.rhs && forall r :: r in dead ==> r < g.rhs && 0 <= right[r] && NeighboursIn(g, right[r], dead)
  }

  ghost function Marked(seen: seq<bool>): set<nat> {
    set r: nat | r < |seen| && seen[r]
  }

  ghost function Unmarked(seen: seq<bool>): set<nat> {
    set r: nat | r < |seen| && !seen[r]
  }

  lemma MarkingShrinks(before: seq<bool>, after: seq<bool>, r: nat)
    requires |before| == |after| && Marked(before) <= Marked(after)
    requires r in Marked(after) - Marked(before)
    ensures Unmarked(after) < Unmarked(before)
  {
    assert r in Unmarked(before) - Unmarked(after);
    assert forall i :: i in Unmarked(after) ==> i !in Marked(after);
  }

  lemma MarkingKeeps(before: seq<bool>, after: seq<bool>)
    requires |before| == |after| && Marked(before) <= Marked(after)
    ensures Unmarked(after) <= Unmarked(before)
  {
    assert forall i :: i in Unmarked(after) ==> i !in Marked(after);
  }

  ghost function Links(left: seq<int>): set<(nat, nat)> {
    set l: nat | l < |left| && 0 <= left[l] :: (l, left[l])
  }

  /** Every right node marked between the two sets is used, by a left node whose neighbours are all marked. */
  ghost predicate Explored(g: Graph, right: seq<int>, before: set<nat>, after: set<nat>) {
    && |right| == g.rhs && before <= after
    && forall r :: r in after - before ==> r < g.rhs && 0 <= right[r] && NeighboursIn(g, right[r], after)
  }

  /** What a successful search from l does to the links: l becomes used, no other left node changes
      between used and unused, marked right nodes and their left nodes keep their links, and only the
      right node that l itself gave up may be left dangling. */
  ghost predicate Augmented(g: Graph, l: nat, marked: set<nat>, left: seq<int>, right: seq<int>,
                            left': seq<int>, right': seq<int>) {
    && |left| == g.lhs && |right| == g.rhs && l < g.lhs
    && LeftLinked(g, left', right') && RightLinkedExcept(g, left', right', left[l])
    && left'[l] != UNUSED && left'[l] != left[l]
    && (forall i: nat :: i < g.lhs && i != l ==> (left'[i] == UNUSED <==> left[i] == UNUSED))
    && (forall i: nat :: i < g.lhs && i != l && left[i] in marked ==> left'[i] == left[i])
    && (forall r: nat :: r < g.rhs && r in marked ==> right'[r] == right[r])
  }

  /** Linking l to an unused right node augments. */
  lemma AugmentDirectly(g: Graph, l: nat, r: nat, marked: set<nat>, left: seq<int>, right: seq<int>)
    requires InBounds(g) && Linked(g, left, right) && (l, r) in g.edges
    requires left[l] == UNUSED || left[l] in marked
    requires r !in marked && right[r] == UNUSED
    ensures Augmented(g, l, marked, left, right, left[l := r], right[r := l])
  {
  }

  /** Linking l to a right node whose left node found another place augments. */
  lemma AugmentThrough(g: Graph, l: nat, r: nat, marked: set<nat>, inner: set<nat>, left: seq<int>, right: seq<int>,
                       left': seq<int>, right': seq<int>)
    requires InBounds(g) && Linked(g, left, right) && (l, r) in g.edges
    requires left[l] == UNUSED || left[l] in marked
    requires r !in marked && marked + {r} <= inner && 0 <= right[r]
    requires Augmented(g, right[r], inner, left, right, left', right')
    ensures Augmented(g, l, marked, left, right, left'[l := r], right'[r := l])
  {
  }

  /** A failed search from the left node of r extends an explored set. */
  lemma ExploreThrough(g: Graph, r: nat, right: seq<int>, before: set<nat>, middle: set<nat>, after: set<nat>)
    requires r < |right| && 0 <= right[r]
    requires Explored(g, right, before, middle)
    requires Explored(g, right, middle + {r}, after) && NeighboursIn(g, right[r], after)
    ensures Explored(g, right, before, after) && r in after
  {
    forall i | i in after - before
      ensures i < g.rhs && 0 <= right[i] && NeighboursIn(g, right[i], after)
    {
      if i in middle {
        assert i in middle - before && NeighboursIn(g, right[i], middle);
      } else if i != r {
        assert i in after - (middle + {r});
      }
    }
  }

  class MaxBipartiteMatchState {
    const graph: MatchMatrix
    const left: array<int>
    const right: array<int>
    ghost const g: Graph

    ghost predicate Valid()
      reads this, graph
    {
      && graph.Valid() && g == graph.Value() && left != right
      && left.Length == g.lhs && right.Length == g.rhs
    }

    constructor (graph: MatchMatrix)
      requires graph.Valid()
      ensures Valid() && this.graph == graph && fresh(left) && fresh(right)
      ensures forall l :: 0 <= l < left.Length ==> left[l] == UNUSED
      ensures forall r :: 0 <= r < right.Length ==> right[r] == UNUSED
    {
      this.graph := graph;
      g := graph.Value();
      left := new int[graph.lhsSize](_ => UNUSED);
      right := new int[graph.rhsSize](_ => UNUSED);
    }

    /** One depth-first search for an augmenting path from l. The ghost set is any set that was dead
        before the call: success never enters it, and none of its links is lost. */
    method TryAugment(l: nat, seen: array<bool>, ghost dead: set<nat>) returns (ok: bool)
      requires Valid() && l < left.Length && seen.Length == right.Length
      requires Linked(g, left[..], right[..])
      requires left[l] == UNUSED || left[l] in Marked(seen[..])
      requires Dead(g, right[..], dead)
      modifies left, right, seen
      decreases Unmarked(seen[..]), 1
      ensures Marked(old(seen[..])) <= Marked(seen[..])
      ensures !ok ==> left[..] == old(left[..]) && right[..] == old(right[..])
      ensures !ok ==> Explored(g, right[..], Marked(old(seen[..])), Marked(seen[..]))
      ensures !ok ==> NeighboursIn(g, l, Marked(seen[..]))
      ensures ok ==> Augmented(g, l, Marked(old(seen[..])), old(left[..]), old(right[..]), left[..], right[..])
      ensures ok ==> !NeighboursIn(g, l, dead)
      ensures forall r :: r in dead ==> right[r] == old(right[r])
    {
      ghost var marked, left0, right0 := Marked(seen[..]), left[..], right[..];
      var r := 0;
      while r < graph.rhsSize
        invariant 0 <= r <= graph.rhsSize
        invariant left[..] == left0 && right[..] == right0
        invariant Explored(g, right0, marked, Marked(seen[..]))
        invariant forall r': nat :: r' < r && (l, r') in g.edges ==> r' in Marked(seen[..])
      {
        if !seen[r] && graph.HasEdge(l, r) {
          MarkingKeeps(old(seen[..]), seen[..]);
          var free := TryThrough(l, r, seen, marked, dead);
          if free {
            return true;
          }
        }
        r := r + 1;
      }
      return false;
    }

    /** The part of the search at an unseen right node that l has an edge to. */
    method TryThrough(l: nat, r: nat, seen: array<bool>, ghost marked: set<nat>, ghost dead: set<nat>)
      returns (free: bool)
      requires Valid() && seen.Length == right.Length && (l, r) in g.edges && InBounds(g) && !seen[r]
      requires Linked(g, left[..], right[..]) && (left[l] == UNUSED || left[l] in marked)
      requires Dead(g, right[..], dead) && Explored(g, right[..], marked, Marked(seen[..]))
      modifies left, right, seen
      decreases Unmarked(seen[..]), 0
      ensures !free ==> left[..] == old(left[..]) && right[..] == old(right[..])
      ensures !free ==> Explored(g, right[..], marked, Marked(seen[..])) && r in Marked(seen[..])
      ensures Marked(old(seen[..])) <= Marked(seen[..])
      ensures free ==> Augmented(g, l, marked, old(left[..]), old(right[..]), left[..], right[..])
      ensures free ==> !NeighboursIn(g, l, dead)
      ensures forall r :: r in dead ==> right[r] == old(right[r])
    {
      ghost var middle, left0, right0 := Marked(seen[..]), left[..], right[..];
      MarkOne(seen, r);
      free := right[r] == UNUSED;
      if free {
        AugmentDirectly(g, l, r, marked, left0, right0);
      } else {
        free := TryAugment(right[r], seen, dead);
        if !free {
          ExploreThrough(g, r, right0, marked, middle, Marked(seen[..]));
          return;
        }
        AugmentThrough(g, l, r, marked, middle + {r}, left0, right0, left[..], right[..]);
      }
      LinkOne(l, r);
    }

    method MarkOne(seen: array<bool>, r: nat)
      requires r < seen.Length && !seen[r]
      modifies seen
      ensures Marked(seen[..]) == Marked(old(seen[..])) + {r}
      ensures Unmarked(seen[..]) < Unmarked(old(seen[..]))
    {
      ghost var before := seen[..];
      seen[r] := true;
      MarkingShrinks(before, seen[..], r);
    }

    method LinkOne(l: nat, r: nat)
      requires l < left.Length && r < right.Length && left != right
      modifies left, right
      ensures left[..] == old(left[..])[l := r] && right[..] == old(right[..])[r := l]
    {
      left[l] := r;
      right[r] := l;
    }

    /** One search from every left node, each with a fresh marking. The dead set collects everything
        that the failed searches explored. */
    method AugmentAll() returns (ghost dead: set<nat>)
      requires Valid() && InBounds(g)
      requires Linked(g, left[..], right[..])
      requires forall l :: 0 <= l < left.Length ==> left[l] == UNUSED
      modifies left, right
      ensures Linked(g, left[..], right[..]) && Dead(g, right[..], dead)
      ensures forall l: nat :: l < left.Length && left[l] == UNUSED ==> NeighboursIn(g, l, dead)
    {
      dead := {};
      for l := 0 to graph.lhsSize
        invariant Linked(g, left[..], right[..]) && Dead(g, right[..], dead)
        invariant forall i :: l <= i < left.Length ==> left[i] == UNUSED
        invariant forall i :: 0 <= i < l && left[i] == UNUSED ==> NeighboursIn(g, i, dead)
      {
        var seen := new bool[graph.rhsSize](_ => false);
        assert Marked(seen[..]) == {};
        ghost var right0 := right[..];
        var ok := TryAugment(l, seen, dead);
        if ok {
          DeadStaysDead(g, right0, right[..], dead);
        } else {
          DeadGrows(g, right0, dead, Marked(seen[..]));
          dead := dead + Marked(seen[..]);
        }
      }
    }

    /** One pass over the left nodes finds a maximum matching, in the order of the left nodes. */
    method Compute() returns (result: seq<(nat, nat)>)
      requires Valid()
      requires forall l :: 0 <= l < left.Length ==> left[l] == UNUSED
      requires forall r :: 0 <= r < right.Length ==> right[r] == UNUSED
      modifies left, right
      ensures Linked(g, left[..], right[..]) && Elements(result) == Links(left[..])
      ensures IsMaximumMatching(g, Elements(result))
      ensures forall i, j :: 0 <= i < j < |result| ==> result[i].0 < result[j].0
    {
      ghost var dead := AugmentAll();
      MaximumByDeadSet(g, left[..], right[..], dead);
      result := ListPairs();
      UsedPairsAreLinks(left[..]);
    }

    method ListPairs() returns (result: seq<(nat, nat)>)
      requires forall l :: 0 <= l < left.Length ==> left[l] == UNUSED || left[l] >= 0
      ensures result == UsedPairs(left[..])
    {
      result := [];
      for l := 0 to left.Length
        invariant result == UsedPairs(left[..l])
      {
        assert left[..l + 1] == left[..l] + [left[l]];
        var r := left[l];
        if r != UNUSED {
          result := result + [(l, r)];
        }
      }
      assert left[..left.Length] == left[..];
    }
  }

  lemma DeadStaysDead(g: Graph, before: seq<int>, after: seq<int>, dead: set<nat>)
    requires Dead(g, before, dead) && |after| == g.rhs
    requires forall r :: r in dead ==> after[r] == before[r]
    ensures Dead(g, after, dead)
  {
  }

  lemma DeadGrows(g: Graph, right: seq<int>, dead: set<nat>, more: set<nat>)
    requires Dead(g, right, dead) && Explored(g, right, {}, more)
    ensures Dead(g, right, dead + more)
  {
  }

  /** The used left nodes with their right nodes, in order. */
  ghost function UsedPairs(left: seq<int>): seq<(nat, nat)>
    requires forall l :: 0 <= l < |left| ==> left[l] >= UNUSED
  {
    if left == [] then []
    else
      var l := |left| - 1;
      UsedPairs(left[..l]) + if left[l] == UNUSED then [] else [(l, left[l])]
  }

  lemma {:induction false} UsedPairsAreLinks(left: seq<int>)
    requires forall l :: 0 <= l < |left| ==> left[l] >= UNUSED
    ensures Elements(UsedPairs(left)) == Links(left)
    ensures forall i :: 0 <= i < |UsedPairs(left)| ==> UsedPairs(left)[i].0 < |left|
    ensures forall i, j :: 0 <= i < j < |UsedPairs(left)| ==> UsedPairs(left)[i].0 < UsedPairs(left)[j].0
  {
    if left != [] {
      var l := |left| - 1;
      UsedPairsAreLinks(left[..l]);
      if left[l] == UNUSED {
        assert Links(left) == Links(left[..l]);
      } else {
        assert Links(left) == Links(left[..l]) + {(l, left[l] as nat)};
      }
    }
  }

  ghost predicate IsMaximumMatching(g: Graph, m: set<(nat, nat)>) {
    IsMatching(g, m) && forall other :: IsMatching(g, other) ==> |other| <= |m|
  }

  /** The used left nodes outside the dead set together with the dead set cover every edge, and there
      are as many of them as links, so no matching is larger than the links. */
  lemma MaximumByDeadSet(g: Graph, left: seq<int>, right: seq<int>, dead: set<nat>)
    requires InBounds(g) && Linked(g, left, right) && Dead(g, right, dead)
    requires forall l: nat :: l < g.lhs && left[l] == UNUSED ==> NeighboursIn(g, l, dead)
    ensures IsMaximumMatching(g, Links(left))
  {
    forall other: set<(nat, nat)> | IsMatching(g, other)
      ensures |other| <= |Links(left)|
    {
      assert forall e :: e in other && e.1 !in dead ==> left[e.0] != UNUSED;
      InjectionCount(other, Links(left), e requires e in other => Charge(left, right, dead, e));
    }
  }

  /** The link that accounts for an edge: through its right node if that is dead, else through its left node. */
  ghost function Charge(left: seq<int>, right: seq<int>, dead: set<nat>, e: (nat, nat)): (nat, nat)
    requires e.0 < |left| && e.1 < |right|
    requires if e.1 in dead then 0 <= right[e.1] else 0 <= left[e.0]
  {
    if e.1 in dead then (right[e.1], e.1) else (e.0, left[e.0])
  }

  method FindMaxBipartiteMatching(graph: MatchMatrix) returns (pairs: seq<(nat, nat)>)
    requires graph.Valid()
    ensures NoDuplicates(pairs) && IsMaximumMatching(graph.Value(), Elements(pairs))
  {
    var state := new MaxBipartiteMatchState(graph);
    pairs := state.Compute();
  }

  // ----- Pairing elements with matchers -----

  datatype MatchFlags = Superset | Subset | ExactMatch {
    predicate EveryMatcher() {
      this != Subset
    }

    predicate EveryElement() {
      this != Superset
    }
  }

  ghost predicate MatcherHit(m: set<(nat, nat)>, r: int) {
    exists e :: e in m && e.1 == r
  }

  ghost predicate ElementHit(m: set<(nat, nat)>, l: int) {
    exists e :: e in m && e.0 == l
  }

  ghost predicate CoversMatchers(g: Graph, m: set<(nat, nat)>) {
    forall r :: 0 <= r < g.rhs ==> MatcherHit(m, r)
  }

  ghost predicate CoversElements(g: Graph, m: set<(nat, nat)>) {
    forall l :: 0 <= l < g.lhs ==> ElementHit(m, l)
  }

  /** The edges reach every matcher, every element, or both. */
  ghost predicate Covers(flags: MatchFlags, g: Graph, m: set<(nat, nat)>) {
    match flags
    case Superset => CoversMatchers(g, m)
    case Subset => CoversElements(g, m)
    case ExactMatch => CoversMatchers(g, m) && CoversElements(g, m)
  }

  ghost predicate Pairs(flags: MatchFlags, g: Graph, m: set<(nat, nat)>) {
    IsMatching(g, m) && Covers(flags, g, m)
  }

  /** Some one-to-one assignment along edges covers every matcher, every element, or both. */
  ghost predicate Pairable(flags: MatchFlags, g: Graph) {
    exists m :: Pairs(flags, g, m)
  }

  // ----- What the flags ask for -----

  /** A different element for every matcher, in the order of the matchers. */
  ghost predicate AssignsElements(g: Graph, elements: seq<nat>) {
    && |elements| == g.rhs && NoDuplicates(elements)
    && forall r :: 0 <= r < g.rhs ==> (elements[r], r as nat) in g.edges
  }

  ghost function AssignedPairs(elements: seq<nat>): set<(nat, nat)> {
    set r: nat | r < |elements| :: (elements[r], r)
  }

  lemma AssignmentIsMatching(g: Graph, elements: seq<nat>)
    requires AssignsElements(g, elements)
    ensures IsMatching(g, AssignedPairs(elements)) && CoversMatchers(g, AssignedPairs(elements))
  {
    forall r | 0 <= r < g.rhs ensures MatcherHit(AssignedPairs(elements), r) {
      assert (elements[r], r) in AssignedPairs(elements);
    }
  }

  lemma MatchingIsAssignment(g: Graph, m: set<(nat, nat)>) returns (elements: seq<nat>)
    requires IsMatching(g, m) && CoversMatchers(g, m)
    ensures AssignsElements(g, elements) && AssignedPairs(elements) <= m
  {
    elements := [];
    for r := 0 to g.rhs
      invariant |elements| == r && forall i :: 0 <= i < r ==> (elements[i], i as nat) in m
    {
      assert MatcherHit(m, r);
      var e :| e in m && e.1 == r;
      elements := elements + [e.0];
    }
  }

  /** The same graph with elements and matchers exchanged. */
  ghost function Transposed(g: Graph): Graph {
    Graph(g.rhs, g.lhs, Turned(g.edges))
  }

  ghost function Turned(m: set<(nat, nat)>): set<(nat, nat)> {
    set e | e in m :: (e.1, e.0)
  }

  lemma TurnedPair(m: set<(nat, nat)>, a: nat, b: nat)
    ensures (a, b) in Turned(m) <==> (b, a) in m
  {
    if (b, a) in m {
      assert ((b, a).1, (b, a).0) == (a, b);
    }
  }

  lemma TurnedTwice(m: set<(nat, nat)>)
    ensures Turned(Turned(m)) == m
  {
    forall e ensures e in Turned(Turned(m)) <==> e in m {
      TurnedPair(Turned(m), e.0, e.1);
      TurnedPair(m, e.1, e.0);
    }
  }

  lemma TurnedMatching(g: Graph, m: set<(nat, nat)>)
    requires IsMatching(g, m)
    ensures IsMatching(Transposed(g), Turned(m))
  {
  }

  lemma TurnedCovers(g: Graph, m: set<(nat, nat)>)
    ensures CoversMatchers(Transposed(g), Turned(m)) <==> CoversElements(g, m)
    ensures CoversElements(Transposed(g), Turned(m)) <==> CoversMatchers(g, m)
  {
    forall i ensures MatcherHit(Turned(m), i) <==> ElementHit(m, i) {
      TurnedHit(m, i);
    }
    forall i ensures ElementHit(Turned(m), i) <==> MatcherHit(m, i) {
      TurnedHit(m, i);
    }
  }

  lemma TurnedHit(m: set<(nat, nat)>, i: int)
    ensures MatcherHit(Turned(m), i) <==> ElementHit(m, i)
    ensures ElementHit(Turned(m), i) <==> MatcherHit(m, i)
  {
    forall e | e in m ensures (e.1, e.0) in Turned(m) {
    }
  }

  /** Exchanging elements and matchers exchanges the two one-sided flags and keeps the exact one. */
  lemma TransposedPairable(g: Graph)
    ensures Pairable(Superset, Transposed(g)) <==> Pairable(Subset, g)
    ensures Pairable(ExactMatch, Transposed(g)) <==> Pairable(ExactMatch, g)
  {
    TransposedPairs(g);
    TurnedTwice(g.edges);
    assert Transposed(Transposed(g)) == g;
    TransposedPairs(Transposed(g));
  }

  lemma TransposedPairs(g: Graph)
    ensures Pairable(Subset, g) ==> Pairable(Superset, Transposed(g))
    ensures Pairable(Superset, g) ==> Pairable(Subset, Transposed(g))
    ensures Pairable(ExactMatch, g) ==> Pairable(ExactMatch, Transposed(g))
  {
    forall flags, m | Pairs(flags, g, m) ensures Pairs(Opposite(flags), Transposed(g), Turned(m)) {
      TurnedMatching(g, m);
      TurnedCovers(g, m);
    }
  }

  ghost function Opposite(flags: MatchFlags): MatchFlags {
    match flags
    case Superset => Subset
    case Subset => Superset
    case ExactMatch => ExactMatch
  }

  /** Superset: every matcher gets an element of its own. Subset: every element gets a matcher of its own. Exact:
      there are as many elements as matchers, and every matcher gets an element of its own. */
  lemma PairableMeans(g: Graph)
    requires InBounds(g)
    ensures Pairable(Superset, g) <==> exists elements :: AssignsElements(g, elements)
    ensures Pairable(Subset, g) <==> exists matchers :: AssignsElements(Transposed(g), matchers)
    ensures Pairable(ExactMatch, g) <==> g.lhs == g.rhs && exists elements :: AssignsElements(g, elements)
  {
    SupersetMeans(g);
    SupersetMeans(Transposed(g));
    TransposedPairable(g);
    ExactMeans(g);
  }

  lemma SupersetMeans(g: Graph)
    ensures Pairable(Superset, g) <==> exists elements :: AssignsElements(g, elements)
  {
    if m :| Pairs(Superset, g, m) {
      var elements := MatchingIsAssignment(g, m);
    }
    if elements :| AssignsElements(g, elements) {
      AssignmentIsMatching(g, elements);
      assert Pairs(Superset, g, AssignedPairs(elements));
    }
  }

  lemma ExactMeans(g: Graph)
    requires InBounds(g)
    ensures Pairable(ExactMatch, g) <==> g.lhs == g.rhs && exists elements :: AssignsElements(g, elements)
  {
    if m :| Pairs(ExactMatch, g, m) {
      CoversMatchersByCount(g, m);
      CoversElementsByCount(g, m);
      var elements := MatchingIsAssignment(g, m);
    }
    if g.lhs == g.rhs && exists elements :: AssignsElements(g, elements) {
      var elements :| AssignsElements(g, elements);
      var m := AssignedPairs(elements);
      AssignmentIsMatching(g, elements);
      CoversMatchersByCount(g, m);
      CoversElementsByCount(g, m);
      assert Pairs(ExactMatch, g, m);
    }
  }

  ghost predicate MatchesSome(g: Graph, r: nat) {
    exists l: nat :: (l, r) in g.edges
  }

  ghost predicate IsMatchedBySome(g: Graph, l: nat) {
    exists r: nat :: (l, r) in g.edges
  }

  /** The quick check asks for an edge of every matcher, of every element, or both. */
  lemma NoLonerMeans(g: Graph)
    ensures NoLoner(Superset, g) <==> forall r: nat :: r < g.rhs ==> MatchesSome(g, r)
    ensures NoLoner(Subset, g) <==> forall l: nat :: l < g.lhs ==> IsMatchedBySome(g, l)
    ensures NoLoner(ExactMatch, g) <==> NoLoner(Superset, g) && NoLoner(Subset, g)
  {
    forall r: nat ensures MatcherHit(g.edges, r) <==> MatchesSome(g, r) {
      if e :| e in g.edges && e.1 == r {
        assert (e.0, r) in g.edges;
      }
    }
    forall l: nat ensures ElementHit(g.edges, l) <==> IsMatchedBySome(g, l) {
      if e :| e in g.edges && e.0 == l {
        assert (l, e.1) in g.edges;
      }
    }
  }

  /** A matching covers all matchers exactly when it has as many pairs as there are matchers. */
  lemma CoversMatchersByCount(g: Graph, m: set<(nat, nat)>)
    requires InBounds(g) && IsMatching(g, m)
    ensures |m| <= g.rhs
    ensures CoversMatchers(g, m) <==> |m| == g.rhs
  {
    var image := set e | e in m :: e.1 as int;
    assert forall r :: r in image <==> MatcherHit(m, r);
    InjectionCount(m, image, (e: (nat, nat)) => e.1 as int);
    SubsetCount(image, UpTo(g.rhs));
    if CoversMatchers(g, m) {
      InjectionCount(UpTo(g.rhs), m, (r: int) requires MatcherHit(m, r) => var e :| e in m && e.1 == r; e);
    }
  }

  lemma CoversElementsByCount(g: Graph, m: set<(nat, nat)>)
    requires InBounds(g) && IsMatching(g, m)
    ensures |m| <= g.lhs
    ensures CoversElements(g, m) <==> |m| == g.lhs
  {
    var image := set e | e in m :: e.0 as int;
    assert forall l :: l in image <==> ElementHit(m, l);
    InjectionCount(m, image, (e: (nat, nat)) => e.0 as int);
    SubsetCount(image, UpTo(g.lhs));
    if CoversElements(g, m) {
      InjectionCount(UpTo(g.lhs), m, (l: int) requires ElementHit(m, l) => var e :| e in m && e.0 == l; e);
    }
  }

  /** A graph is pairable exactly when its maximum matching is large enough for the flags. */
  lemma PairableByMaximum(flags: MatchFlags, g: Graph, m: set<(nat, nat)>)
    requires InBounds(g) && IsMaximumMatching(g, m)
    ensures Pairable(flags, g) <==>
            match flags
            case Superset => |m| >= g.rhs
            case Subset => |m| >= g.lhs
            case ExactMatch => |m| >= g.rhs && |m| >= g.lhs
  {
    CoversMatchersByCount(g, m);
    CoversElementsByCount(g, m);
    if Pairable(flags, g) {
      var other :| Pairs(flags, g, other);
      CoversMatchersByCount(g, other);
      CoversElementsByCount(g, other);
    } else {
      assert !Pairs(flags, g, m);
    }
  }

  method FindPairing(flags: MatchFlags, matrix: MatchMatrix) returns (ok: bool)
    requires matrix.Valid()
    ensures ok <==> Pairable(flags, matrix.Value())
  {
    var matches := FindMaxBipartiteMatching(matrix);
    ElementsCount(matches);
    PairableByMaximum(flags, matrix.Value(), Elements(matches));
    if flags.EveryMatcher() && |matches| < matrix.rhsSize {
      return false;
    }
    if flags.EveryElement() && |matches| < matrix.lhsSize {
      return false;
    }
    return true;
  }

  /** The necessary condition of the fast check: the edges alone reach what the flags ask for. */
  ghost predicate NoLoner(flags: MatchFlags, g: Graph) {
    Covers(flags, g, g.edges)
  }

  /** The fast check never rejects a pairable matrix. */
  lemma PairableHasNoLoner(flags: MatchFlags, g: Graph)
    requires Pairable(flags, g)
    ensures NoLoner(flags, g)
  {
    var m :| Pairs(flags, g, m);
    HitsOfUnion(m, g.edges);
    assert m + g.edges == g.edges;
  }

  lemma HitsOfUnion(a: set<(nat, nat)>, b: set<(nat, nat)>)
    ensures forall r :: MatcherHit(a + b, r) <==> MatcherHit(a, r) || MatcherHit(b, r)
    ensures forall l :: ElementHit(a + b, l) <==> ElementHit(a, l) || ElementHit(b, l)
  {
    forall e | e in a || e in b
      ensures MatcherHit(a + b, e.1) && ElementHit(a + b, e.0)
    {
      assert e in a + b;
    }
  }

  /** The edges in the first ls rows, and in the first rs columns of the next row. */
  ghost function Scanned(g: Graph, ls: nat, rs: nat): set<(nat, nat)> {
    set e | e in g.edges && (e.0 < ls || (e.0 == ls && e.1 < rs))
  }

  method VerifyMatchMatrix(flags: MatchFlags, matrix: MatchMatrix) returns (result: bool)
    requires matrix.Valid()
    ensures result <==> NoLoner(flags, matrix.Value())
  {
    ghost var g := matrix.Value();
    var elementMatched := new bool[matrix.lhsSize](_ => false);
    var matcherMatched := new bool[matrix.rhsSize](_ => false);
    for l := 0 to matrix.lhsSize
      invariant forall i :: 0 <= i < elementMatched.Length ==> (elementMatched[i] <==> ElementHit(Scanned(g, l, 0), i))
      invariant forall j :: 0 <= j < matcherMatched.Length ==> (matcherMatched[j] <==> MatcherHit(Scanned(g, l, 0), j))
    {
      for r := 0 to matrix.rhsSize
        invariant forall i :: 0 <= i < elementMatched.Length ==>
                    (elementMatched[i] <==> ElementHit(Scanned(g, l, r), i))
        invariant forall j :: 0 <= j < matcherMatched.Length ==>
                    (matcherMatched[j] <==> MatcherHit(Scanned(g, l, r), j))
      {
        var matched := matrix.HasEdge(l, r);
        elementMatched[l] := elementMatched[l] || matched;
        matcherMatched[r] := matcherMatched[r] || matched;
        ScanCell(g, l, r);
      }
      assert Scanned(g, l, matrix.rhsSize) == Scanned(g, l + 1, 0);
    }
    assert Scanned(g, matrix.lhsSize, 0) == g.edges;
    result := true;
    if flags.EveryMatcher() {
      for r := 0 to matcherMatched.Length
        invariant result <==> forall j :: 0 <= j < r ==> MatcherHit(g.edges, j)
      {
        if !matcherMatched[r] {
          result := false;
        }
      }
    }
    ghost var matchersHit := result;
    if flags.EveryElement() {
      for l := 0 to elementMatched.Length
        invariant result <==> matchersHit && forall i :: 0 <= i < l ==> ElementHit(g.edges, i)
      {
        if !elementMatched[l] {
          result := false;
        }
      }
    }
  }

  lemma ScanCell(g: Graph, l: nat, r: nat)
    ensures forall i :: ElementHit(Scanned(g, l, r + 1), i) <==>
                        ElementHit(Scanned(g, l, r), i) || (i == l && (l, r) in g.edges)
    ensures forall j :: MatcherHit(Scanned(g, l, r + 1), j) <==>
                        MatcherHit(Scanned(g, l, r), j) || (j == r && (l, r) in g.edges)
  {
    var cell := if (l, r) in g.edges then {(l, r)} else {};
    assert Scanned(g, l, r + 1) == Scanned(g, l, r) + cell;
    HitsOfUnion(Scanned(g, l, r), cell);
    if (l, r) in g.edges {
      assert (l, r) in cell;
    }
  }

  /** The whole decision: the early answers and the fast check never change it. */
  method MatchAndExplain(flags: MatchFlags, matrix: MatchMatrix) returns (ok: bool)
    requires matrix.Valid()
    ensures ok <==> Pairable(flags, matrix.Value())
  {
    ghost var g := matrix.Value();
    if matrix.lhsSize == 0 && matrix.rhsSize == 0 {
      assert Pairs(flags, g, {});
      return true;
    }
    if flags == ExactMatch && matrix.lhsSize != matrix.rhsSize {
      if Pairable(flags, g) {
        var m :| Pairs(flags, g, m);
        CoversMatchersByCount(g, m);
        CoversElementsByCount(g, m);
      }
      return false;
    }
    if Pairable(flags, g) {
      PairableHasNoLoner(flags, g);
    }
    ok := VerifyMatchMatrix(flags, matrix);
    if ok {
      ok := FindPairing(flags, matrix);
    }
  }
}
