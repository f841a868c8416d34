/** Orders of test suites and tests as values: registration, shuffling, and the runs made of them. */
module TestSchedule {
  import opened Cardinality
  import Filters

  // ----- Orders -----

  function Range(from: int, to: int): (r: seq<int>)
    requires from <= to
    ensures |r| == to - from && forall i :: 0 <= i < |r| ==> r[i] == from + i
  {
    seq(to - from, i => from + i)
  }

  /** Every index below n occurs exactly once. */
  ghost predicate IsOrder(order: seq<int>, n: nat) {
    multiset(order) == multiset(Range(0, n))
  }

  lemma {:induction false} RangeCount(from: int, to: int, x: int)
    requires from <= to
    ensures multiset(Range(from, to))[x] == if from <= x < to then 1 else 0
    decreases -from + to
  {
    if from < to {
      RangeCount(from, to - 1, x);
      assert Range(from, to) == Range(from, to - 1) + [to - 1];
    }
  }

  lemma OrderIsPermutation(order: seq<int>, n: nat)
    requires IsOrder(order, n)
    ensures |order| == n && NoDuplicates(order)
    ensures forall x :: x in order <==> 0 <= x < n
  {
    assert |multiset(order)| == |multiset(Range(0, n))|;
    forall x ensures multiset(order)[x] == if 0 <= x < n then 1 else 0 {
      RangeCount(0, n, x);
    }
    forall x ensures x in order <==> 0 <= x < n {
      assert x in order <==> multiset(order)[x] > 0;
    }
    forall i, j | 0 <= i < j < |order| ensures order[i] != order[j] {
      assert order == order[..j] + order[j..];
      assert multiset(order)[order[i]] == multiset(order[..j])[order[i]] + multiset(order[j..])[order[i]];
      assert order[..j][i] in order[..j] && order[j..][0] in order[j..];
      assert multiset(order)[order[j]] <= 1;
    }
  }

  lemma OrderGrows(order: seq<int>, n: nat)
    requires IsOrder(order, n)
    ensures IsOrder(order + [n], n + 1)
  {
    RangeGrows(n);
  }

  lemma RangeGrows(n: nat)
    ensures Range(0, n) + [n] == Range(0, n + 1)
  {
  }

  lemma DistinctIsOrder(order: seq<int>, n: nat)
    requires |order| == n && NoDuplicates(order) && forall i :: 0 <= i < n ==> 0 <= order[i] < n
    ensures IsOrder(order, n)
  {
    ElementsCount(order);
    SubsetCount(Elements(order), UpTo(n));
    forall x ensures multiset(order)[x] == multiset(Range(0, n))[x] {
      RangeCount(0, n, x);
      CountOfDistinct(order, x);
      assert x in order <==> x in Elements(order);
    }
  }

  lemma {:induction false} CountOfDistinct(order: seq<int>, x: int)
    requires NoDuplicates(order)
    ensures multiset(order)[x] == if x in order then 1 else 0
  {
    if order != [] {
      CountOfDistinct(order[1..], x);
      assert order == [order[0]] + order[1..];
    }
  }

  // ----- The Fisher-Yates shuffle -----

  function Swap<T>(v: seq<T>, i: nat, j: nat): (w: seq<T>)
    requires i < |v| && j < |v|
    ensures |w| == |v|
  {
    v[i := v[j]][j := v[i]]
  }

  lemma SwapPermutes<T>(v: seq<T>, i: nat, j: nat)
    requires i < |v| && j < |v|
    ensures multiset(Swap(v, i, j)) == multiset(v)
  {
  }

  /** The first numbers of a shuffle: each is below the width that is left, which is at least two. */
  ghost predicate SomeDraws(draws: seq<nat>, width: nat) {
    draws != [] ==> width >= 2 && draws[0] < width && SomeDraws(draws[1..], width - 1)
  }

  /** One number for each width from the first down to two. */
  ghost predicate AreDraws(draws: seq<nat>, width: nat) {
    SomeDraws(draws, width) && |draws| == if width < 2 then 0 else width - 1
  }

  ghost function Shuffled<T>(v: seq<T>, begin: nat, width: nat, draws: seq<nat>): (w: seq<T>)
    requires begin + width <= |v| && SomeDraws(draws, width)
    ensures |w| == |v|
    decreases |draws|
  {
    if draws == [] then v
    else Shuffled(Swap(v, begin + draws[0], begin + width - 1), begin, width - 1, draws[1..])
  }

  lemma {:induction false} OneMoreDraw<T(!new)>(v: seq<T>, begin: nat, width: nat, draws: seq<nat>, drawn: nat)
    requires begin + width <= |v| && SomeDraws(draws, width) && width - |draws| >= 2 && drawn < width - |draws|
    ensures SomeDraws(draws + [drawn], width)
    ensures Shuffled(v, begin, width, draws + [drawn])
      == Swap(Shuffled(v, begin, width, draws), begin + drawn, begin + width - |draws| - 1)
    decreases |draws|
  {
    if draws == [] {
      assert draws + [drawn] == [drawn] && [drawn][1..] == [];
    } else {
      OneMoreDraw(Swap(v, begin + draws[0], begin + width - 1), begin, width - 1, draws[1..], drawn);
      assert (draws + [drawn])[1..] == draws[1..] + [drawn];
    }
  }

  /** w has the elements of v in some order, and all outside [begin, end) where v has them. */
  ghost predicate RangePermuted<T(!new)>(v: seq<T>, w: seq<T>, begin: nat, end: nat)
    requires begin <= end <= |v|
  {
    && |w| == |v| && multiset(w) == multiset(v)
    && forall i :: 0 <= i < |v| && !(begin <= i < end) ==> w[i] == v[i]
  }

  lemma CommonPartsCancel<T(!new)>(p: multiset<T>, a: multiset<T>, b: multiset<T>, q: multiset<T>)
    requires p + a + q == p + b + q
    ensures a == b
  {
    forall x ensures a[x] == b[x] {
      assert (p + a + q)[x] == p[x] + a[x] + q[x];
      assert (p + b + q)[x] == p[x] + b[x] + q[x];
    }
  }

  lemma ThreeParts<T(!new)>(v: seq<T>, begin: nat, end: nat)
    requires begin <= end <= |v|
    ensures multiset(v) == multiset(v[..begin]) + multiset(v[begin..end]) + multiset(v[end..])
  {
    assert v == v[..begin] + v[begin..end] + v[end..];
  }

  lemma PermutedRange<T(!new)>(v: seq<T>, w: seq<T>, begin: nat, end: nat)
    requires begin <= end <= |v| && RangePermuted(v, w, begin, end)
    ensures w[..begin] == v[..begin] && multiset(w[begin..end]) == multiset(v[begin..end]) && w[end..] == v[end..]
  {
    var a, b := w[begin..end], v[begin..end];
    assert w[..begin] == v[..begin] && w[end..] == v[end..];
    ThreeParts(v, begin, end);
    ThreeParts(w, begin, end);
    CommonPartsCancel(multiset(v[..begin]), multiset(a), multiset(b), multiset(v[end..]));
  }

  /** A shuffle permutes its range and leaves the rest alone, whatever is drawn. */
  lemma {:induction false} ShufflePermutes<T(!new)>(v: seq<T>, begin: nat, width: nat, draws: seq<nat>)
    requires begin + width <= |v| && AreDraws(draws, width)
    ensures RangePermuted(v, Shuffled(v, begin, width, draws), begin, begin + width)
    decreases width
  {
    if width >= 2 {
      SwapPermutes(v, begin + draws[0], begin + width - 1);
      ShufflePermutes(Swap(v, begin + draws[0], begin + width - 1), begin, width - 1, draws[1..]);
    }
  }

  lemma LastIsDrawn<T(!new)>(v: seq<T>, begin: nat, width: nat, draws: seq<nat>)
    requires width >= 2 && begin + width <= |v| && AreDraws(draws, width)
    ensures Shuffled(v, begin, width, draws)[begin + width - 1] == v[begin + draws[0]]
  {
    ShufflePermutes(Swap(v, begin + draws[0], begin + width - 1), begin, width - 1, draws[1..]);
  }

  /** Different draws give different orders of distinct elements. */
  lemma {:induction false} DrawsAreUnique<T(!new)>(v: seq<T>, begin: nat, width: nat, a: seq<nat>, b: seq<nat>)
    requires NoDuplicates(v) && begin + width <= |v| && AreDraws(a, width) && AreDraws(b, width)
    requires Shuffled(v, begin, width, a) == Shuffled(v, begin, width, b)
    ensures a == b
    decreases width
  {
    if width >= 2 {
      LastIsDrawn(v, begin, width, a);
      LastIsDrawn(v, begin, width, b);
      assert v[begin + a[0]] == v[begin + b[0]];
      var next := Swap(v, begin + a[0], begin + width - 1);
      SwapKeepsDistinct(v, begin + a[0], begin + width - 1);
      DrawsAreUnique(next, begin, width - 1, a[1..], b[1..]);
      assert a == [a[0]] + a[1..] && b == [b[0]] + b[1..];
    }
  }

  lemma SwapKeepsDistinct<T(!new)>(v: seq<T>, i: nat, j: nat)
    requires NoDuplicates(v) && i < |v| && j < |v|
    ensures NoDuplicates(Swap(v, i, j))
  {
  }

  /** Every order of the range comes from some draws: with uniform draws the shuffle is fair. */
  lemma {:induction false} EveryOrderIsDrawn<T(!new)>(v: seq<T>, w: seq<T>, begin: nat, width: nat)
    returns (draws: seq<nat>)
    requires begin + width <= |v| && RangePermuted(v, w, begin, begin + width)
    ensures AreDraws(draws, width) && Shuffled(v, begin, width, draws) == w
    decreases width
  {
    if width >= 2 {
      var k := FirstDraw(v, w, begin, width);
      var rest := EveryOrderIsDrawn(Swap(v, begin + k, begin + width - 1), w, begin, width - 1);
      DrawnFirst(v, begin, width, k, rest);
      draws := [k] + rest;
    } else {
      SingleIsFixed(v, w, begin, width);
      draws := [];
    }
  }

  lemma FirstDraw<T(!new)>(v: seq<T>, w: seq<T>, begin: nat, width: nat) returns (k: nat)
    requires width >= 2 && begin + width <= |v| && RangePermuted(v, w, begin, begin + width)
    ensures k < width && RangePermuted(Swap(v, begin + k, begin + width - 1), w, begin, begin + width - 1)
  {
    k := FindInRange(v, w, begin, width);
    LastInPlace(v, w, begin, begin + width - 1, begin + k);
  }

  lemma LastInPlace<T(!new)>(v: seq<T>, w: seq<T>, begin: nat, last: nat, k: nat)
    requires begin <= k <= last < |v| && RangePermuted(v, w, begin, last + 1) && v[k] == w[last]
    ensures RangePermuted(Swap(v, k, last), w, begin, last)
  {
    SwapPermutes(v, k, last);
    var next := Swap(v, k, last);
    forall i | 0 <= i < |v| && !(begin <= i < last) ensures w[i] == next[i] {
    }
  }

  lemma DrawnFirst<T(!new)>(v: seq<T>, begin: nat, width: nat, k: nat, rest: seq<nat>)
    requires width >= 2 && begin + width <= |v| && k < width && AreDraws(rest, width - 1)
    ensures AreDraws([k] + rest, width)
    ensures Shuffled(v, begin, width, [k] + rest)
      == Shuffled(Swap(v, begin + k, begin + width - 1), begin, width - 1, rest)
  {
    assert ([k] + rest)[1..] == rest;
  }

  lemma FindInRange<T(!new)>(v: seq<T>, w: seq<T>, begin: nat, width: nat) returns (k: nat)
    requires width >= 1 && begin + width <= |v| && RangePermuted(v, w, begin, begin + width)
    ensures k < width && v[begin + k] == w[begin + width - 1]
  {
    PermutedRange(v, w, begin, begin + width);
    var a, b := v[begin..begin + width], w[begin..begin + width];
    assert b[width - 1] in multiset(b);
    assert b[width - 1] in a;
    k :| k < width && a[k] == b[width - 1];
  }

  lemma SingleIsFixed<T(!new)>(v: seq<T>, w: seq<T>, begin: nat, width: nat)
    requires width < 2 && begin + width <= |v| && RangePermuted(v, w, begin, begin + width)
    ensures v == w
  {
    if width == 1 {
      var _ := FindInRange(v, w, begin, 1);
    }
  }

  // ----- Schedules -----

  /** A suite: its tests in order of registration, and the order in which they run. */
  datatype SuiteState = SuiteState(name: string, tests: seq<string>, order: seq<int>)

  /** The suites as stored, the order in which they run, and the position of the last death suite or -1. */
  datatype Schedule = Schedule(suites: seq<SuiteState>, indices: seq<int>, lastDeath: int)

  ghost predicate IsDeathSuite(name: string) {
    Filters.MatchesSome(Filters.DEATH_TEST_SUITE_FILTER, name)
  }

  /** A death suite is one whose name ends in DeathTest, or has it right before a slash. */
  lemma DeathSuiteByName(name: string)
    ensures IsDeathSuite(name) <==> Filters.EndsWith(name, "DeathTest") || Filters.Contains(name, "DeathTest/")
  {
    Filters.DeathTestFilterMeaning(name);
  }

  function Names(suites: seq<SuiteState>): (r: seq<string>)
    ensures |r| == |suites| && forall i :: 0 <= i < |r| ==> r[i] == suites[i].name
  {
    seq(|suites|, i requires 0 <= i < |suites| => suites[i].name)
  }

  ghost predicate DeathSuitesUpTo(suites: seq<SuiteState>, lastDeath: int) {
    forall i :: 0 <= i < |suites| ==> (i <= lastDeath <==> IsDeathSuite(suites[i].name))
  }

  ghost predicate SuitesSound(suites: seq<SuiteState>) {
    forall i :: 0 <= i < |suites| ==> IsOrder(suites[i].order, |suites[i].tests|)
  }

  ghost predicate InBounds(s: Schedule) {
    -1 <= s.lastDeath < |s.suites| == |s.indices|
  }

  /** Names are unique, death suites are stored first, and every suite and test has one place in the order. */
  ghost predicate Sound(s: Schedule) {
    && InBounds(s) && IsOrder(s.indices, |s.suites|)
    && NoDuplicates(Names(s.suites)) && DeathSuitesUpTo(s.suites, s.lastDeath) && SuitesSound(s.suites)
  }

  ghost predicate RunsDeathSuite(s: Schedule, i: nat)
    requires i < |s.indices|
  {
    0 <= s.indices[i] < |s.suites| && IsDeathSuite(s.suites[s.indices[i]].name)
  }

  /** No death suite runs after another suite. */
  ghost predicate DeathFirst(s: Schedule) {
    forall i, j :: 0 <= i < j < |s.indices| && RunsDeathSuite(s, j) ==> RunsDeathSuite(s, i)
  }

  /** The first lastDeath + 1 places run the suites stored there. */
  ghost predicate Divided(s: Schedule) {
    && -1 <= s.lastDeath < |s.indices|
    && IsOrder(s.indices[..s.lastDeath + 1], s.lastDeath + 1)
  }

  lemma DeathFirstIffDivided(s: Schedule)
    requires Sound(s)
    ensures DeathFirst(s) <==> Divided(s)
  {
    DeathSuitesAreSmall(s);
    SmallFirstIffFrontIsOrder(s.indices, |s.suites|, s.lastDeath + 1);
  }

  ghost predicate SmallFirst(indices: seq<int>, b: nat) {
    forall i, j :: 0 <= i < j < |indices| && indices[j] < b ==> indices[i] < b
  }

  /** The death suites are those with the small indices. */
  lemma DeathSuitesAreSmall(s: Schedule)
    requires Sound(s)
    ensures DeathFirst(s) <==> SmallFirst(s.indices, s.lastDeath + 1)
  {
    OrderIsPermutation(s.indices, |s.suites|);
    forall i | 0 <= i < |s.suites| ensures RunsDeathSuite(s, i) <==> s.indices[i] < s.lastDeath + 1 {
      assert s.indices[i] in s.indices;
    }
  }

  lemma SmallFirstIffFrontIsOrder(indices: seq<int>, n: nat, b: nat)
    requires IsOrder(indices, n) && |indices| == n && b <= n
    ensures SmallFirst(indices, b) <==> IsOrder(indices[..b], b)
  {
    if IsOrder(indices[..b], b) {
      FrontIsClosed(indices, n, b);
    } else if SmallFirst(indices, b) {
      FrontIsFull(indices, n, b);
    }
  }

  lemma FrontIsClosed(indices: seq<int>, n: nat, b: nat)
    requires IsOrder(indices, n) && |indices| == n && b <= n && IsOrder(indices[..b], b)
    ensures forall i :: 0 <= i < n ==> (indices[i] < b <==> i < b)
  {
    OrderIsPermutation(indices, n);
    var front := indices[..b];
    OrderIsPermutation(front, b);
    forall i | 0 <= i < n ensures indices[i] < b <==> i < b {
      if i < b {
        assert front[i] in front;
      } else {
        assert indices[i] in indices;
        assert indices[i] !in front;
      }
    }
  }

  /** Small indices that are never preceded by large ones fill the front. */
  lemma FrontIsFull(indices: seq<int>, n: nat, b: nat)
    requires IsOrder(indices, n) && |indices| == n && b <= n
    requires SmallFirst(indices, b)
    ensures IsOrder(indices[..b], b)
  {
    OrderIsPermutation(indices, n);
    forall k | 0 <= k < b ensures 0 <= indices[..b][k] < b {
      assert indices[k] in indices;
      if indices[k] >= b {
        forall x | x in UpTo(b) ensures x in Elements(indices[..k]) {
          assert x in indices;
          var p :| 0 <= p < n && indices[p] == x;
          assert p < k;
        }
        SubsetCount(UpTo(b), Elements(indices[..k]));
        ElementsCount(indices[..k]);
        assert false;
      }
    }
    DistinctIsOrder(indices[..b], b);
  }

  // ----- Registration -----

  const NOTHING_REGISTERED := Schedule([], [], -1)

  /** The last suite of that name, or -1. */
  ghost function LastNamed(suites: seq<SuiteState>, name: string): (i: int)
    ensures -1 <= i < |suites|
    ensures i >= 0 ==> suites[i].name == name
    ensures i < 0 ==> forall k :: 0 <= k < |suites| ==> suites[k].name != name
  {
    var n := |suites| - 1;
    if n < 0 then -1 else if suites[n].name == name then n else LastNamed(suites[..n], name)
  }

  lemma {:induction false} LastNamedAt(suites: seq<SuiteState>, name: string, k: int)
    requires -1 <= k < |suites| && (k >= 0 ==> suites[k].name == name)
    requires forall i :: k < i < |suites| ==> suites[i].name != name
    ensures LastNamed(suites, name) == k
  {
    if k < |suites| - 1 {
      LastNamedAt(suites[..|suites| - 1], name, k);
    }
  }

  lemma UniqueName(suites: seq<SuiteState>, i: nat, k: nat)
    requires NoDuplicates(Names(suites)) && i < |suites| && k < |suites| && suites[i].name == suites[k].name
    ensures i == k
  {
    assert Names(suites)[i] == Names(suites)[k];
  }

  function Inserted<T>(s: seq<T>, at: nat, x: T): (r: seq<T>)
    requires at <= |s|
    ensures |r| == |s| + 1
    ensures forall i :: 0 <= i < |r| ==> r[i] == if i < at then s[i] else if i == at then x else s[i - 1]
  {
    s[..at] + [x] + s[at..]
  }

  lemma InsertedMembers<T>(s: seq<T>, at: nat, x: T)
    requires at <= |s|
    ensures x in Inserted(s, at, x) && forall y :: y in Inserted(s, at, x) ==> y in s || y == x
  {
    assert Inserted(s, at, x)[at] == x;
  }

  ghost function WithNewSuite(s: Schedule, name: string): (t: Schedule)
    requires InBounds(s)
    ensures InBounds(t) && |t.suites| == |s.suites| + 1
  {
    var suite, indices := SuiteState(name, [], []), s.indices + [|s.indices|];
    if IsDeathSuite(name) then
      Schedule(Inserted(s.suites, s.lastDeath + 1, suite), indices, s.lastDeath + 1)
    else
      Schedule(Inserted(s.suites, |s.suites|, suite), indices, s.lastDeath)
  }

  ghost function WithSuite(s: Schedule, name: string): (t: Schedule)
    requires InBounds(s)
    ensures InBounds(t) && LastNamed(t.suites, name) >= 0
  {
    if LastNamed(s.suites, name) >= 0 then s
    else
      var t := WithNewSuite(s, name);
      assert t.suites[if IsDeathSuite(name) then s.lastDeath + 1 else |s.suites|].name == name;
      t
  }

  function WithTest(suite: SuiteState, test: string): SuiteState {
    SuiteState(suite.name, suite.tests + [test], suite.order + [|suite.order|])
  }

  function WithTestAt(suites: seq<SuiteState>, i: nat, test: string): (r: seq<SuiteState>)
    requires i < |suites|
    ensures |r| == |suites|
  {
    suites[i := WithTest(suites[i], test)]
  }

  /** A test is added to its suite, which is created on the way if it is new. */
  ghost function Registered(s: Schedule, suite: string, test: string): (t: Schedule)
    requires InBounds(s)
    ensures InBounds(t)
  {
    var t := WithSuite(s, suite);
    t.(suites := WithTestAt(t.suites, LastNamed(t.suites, suite), test))
  }

  lemma InsertionKeepsDistinct(names: seq<string>, at: nat, name: string)
    requires NoDuplicates(names) && at <= |names| && name !in names
    ensures NoDuplicates(Inserted(names, at, name))
  {
    var r := Inserted(names, at, name);
    forall i, j | 0 <= i < j < |r| ensures r[i] != r[j] {
      if i == at {
        assert r[j] in names;
      } else if j == at {
        assert r[i] in names;
      }
    }
  }

  lemma InsertionKeepsDeathSuites(suites: seq<SuiteState>, at: nat, suite: SuiteState, lastDeath: int)
    requires DeathSuitesUpTo(suites, lastDeath) && -1 <= lastDeath < |suites|
    requires at == if IsDeathSuite(suite.name) then lastDeath + 1 else |suites|
    ensures DeathSuitesUpTo(Inserted(suites, at, suite), if IsDeathSuite(suite.name) then at else lastDeath)
  {
    var r := Inserted(suites, at, suite);
    forall i | 0 <= i < |r| && i != at ensures IsDeathSuite(r[i].name) <==> i < at && i <= lastDeath {
      assert r[i] == suites[if i < at then i else i - 1];
    }
  }

  lemma InsertionKeepsOrders(suites: seq<SuiteState>, at: nat, name: string)
    requires SuitesSound(suites) && at <= |suites|
    ensures SuitesSound(Inserted(suites, at, SuiteState(name, [], [])))
  {
    assert Range(0, 0) == [];
  }

  lemma NewNames(s: Schedule, name: string)
    requires InBounds(s)
    ensures Names(WithNewSuite(s, name).suites)
      == Inserted(Names(s.suites), if IsDeathSuite(name) then s.lastDeath + 1 else |s.suites|, name)
  {
  }

  lemma NewNameIsDistinct(s: Schedule, name: string)
    requires InBounds(s) && NoDuplicates(Names(s.suites)) && LastNamed(s.suites, name) < 0
    ensures NoDuplicates(Names(WithNewSuite(s, name).suites))
  {
    InsertionKeepsDistinct(Names(s.suites), if IsDeathSuite(name) then s.lastDeath + 1 else |s.suites|, name);
    NewNames(s, name);
  }

  lemma NewSuiteIsSound(s: Schedule, name: string)
    requires Sound(s) && LastNamed(s.suites, name) < 0
    ensures Sound(WithNewSuite(s, name))
  {
    var at := if IsDeathSuite(name) then s.lastDeath + 1 else |s.suites|;
    NewNameIsDistinct(s, name);
    InsertionKeepsDeathSuites(s.suites, at, SuiteState(name, [], []), s.lastDeath);
    InsertionKeepsOrders(s.suites, at, name);
    OrderGrows(s.indices, |s.suites|);
  }

  lemma NewTestIsSound(s: Schedule, i: nat, test: string)
    requires Sound(s) && i < |s.suites|
    ensures Sound(s.(suites := WithTestAt(s.suites, i, test)))
  {
    var suite := s.suites[i];
    OrderIsPermutation(suite.order, |suite.tests|);
    OrderGrows(suite.order, |suite.tests|);
  }

  lemma RegistrationIsSound(s: Schedule, suite: string, test: string)
    requires Sound(s)
    ensures Sound(Registered(s, suite, test))
  {
    if LastNamed(s.suites, suite) < 0 {
      NewSuiteIsSound(s, suite);
    }
    var t := WithSuite(s, suite);
    NewTestIsSound(t, LastNamed(t.suites, suite), test);
  }

  /** Registration keeps the death suites first unless it adds one while another suite runs in its place. */
  lemma RegistrationKeepsDeathFirst(s: Schedule, suite: string, test: string)
    requires Sound(s) && DeathFirst(s)
    ensures Sound(Registered(s, suite, test))
    ensures DeathFirst(Registered(s, suite, test)) <==>
      LastNamed(s.suites, suite) >= 0 || !IsDeathSuite(suite) ||
      s.lastDeath + 1 == |s.indices| || s.indices[s.lastDeath + 1] == s.lastDeath + 1
  {
    RegistrationIsSound(s, suite, test);
    DeathFirstIffDivided(s);
    DeathFirstIffDivided(Registered(s, suite, test));
    DividedAfterRegistration(s, suite, test);
  }

  lemma DividedAfterRegistration(s: Schedule, suite: string, test: string)
    requires InBounds(s) && Divided(s)
    ensures Divided(Registered(s, suite, test)) <==>
      LastNamed(s.suites, suite) >= 0 || !IsDeathSuite(suite) ||
      s.lastDeath + 1 == |s.indices| || s.indices[s.lastDeath + 1] == s.lastDeath + 1
  {
    var t, b := Registered(s, suite, test), s.lastDeath + 1;
    assert s.indices[..b] == t.indices[..b];
    if LastNamed(s.suites, suite) < 0 && IsDeathSuite(suite) {
      FrontGrows(t.indices, b);
    }
  }

  lemma FrontGrows(indices: seq<int>, b: nat)
    requires b < |indices| && IsOrder(indices[..b], b)
    ensures IsOrder(indices[..b + 1], b + 1) <==> indices[b] == b
  {
    var front := indices[..b + 1];
    assert front == indices[..b] + [indices[b]];
    if IsOrder(front, b + 1) {
      OrderIsPermutation(indices[..b], b);
      OrderIsPermutation(front, b + 1);
      assert front[b] in front && front[b] !in indices[..b];
    } else {
      OrderGrows(indices[..b], b);
    }
  }

  // ----- Shuffling -----

  ghost predicate IsShuffleOf(t: Schedule, s: Schedule)
    requires InBounds(s)
  {
    && t.lastDeath == s.lastDeath && |t.suites| == |s.suites|
    && RangesPermuted(s.indices, t.indices, s.lastDeath + 1)
    && forall i :: 0 <= i < |s.suites| ==> IsShuffledSuite(t.suites[i], s.suites[i])
  }

  ghost predicate IsShuffledSuite(t: SuiteState, s: SuiteState) {
    t.name == s.name && t.tests == s.tests && multiset(t.order) == multiset(s.order)
  }

  ghost predicate RangesPermuted(v: seq<int>, w: seq<int>, b: nat)
    requires b <= |v|
  {
    |w| == |v| && multiset(w[..b]) == multiset(v[..b]) && multiset(w) == multiset(v)
  }

  ghost predicate SuiteShuffledBy(t: SuiteState, s: SuiteState, draws: seq<nat>) {
    AreDraws(draws, |s.order|) && t == s.(order := Shuffled(s.order, 0, |s.order|, draws))
  }

  /** The exact result for given draws: for the death suites, for the other suites, and for each suite's tests. */
  ghost predicate IsShuffleBy(t: Schedule, s: Schedule, death: seq<nat>, others: seq<nat>, each: seq<seq<nat>>)
    requires InBounds(s)
  {
    && t.lastDeath == s.lastDeath && SuitesShuffledBy(t.suites, s.suites, each)
    && IndicesShuffledBy(t.indices, s.indices, s.lastDeath, death, others)
  }

  /** The places up to the last death suite are shuffled among themselves, and so are the others. */
  ghost predicate IndicesShuffledBy(t: seq<int>, s: seq<int>, lastDeath: int, death: seq<nat>, others: seq<nat>)
    requires -1 <= lastDeath < |s|
  {
    var n, b := |s|, lastDeath + 1;
    && AreDraws(death, b) && AreDraws(others, n - b)
    && t == Shuffled(Shuffled(s, 0, b, death), b, n - b, others)
  }

  lemma PartsShuffled(t: Schedule, s: Schedule, death: seq<nat>, others: seq<nat>, each: seq<seq<nat>>)
    requires InBounds(s) && t.lastDeath == s.lastDeath && SuitesShuffledBy(t.suites, s.suites, each)
    requires IndicesShuffledBy(t.indices, s.indices, s.lastDeath, death, others)
    ensures IsShuffleBy(t, s, death, others, each)
  {
  }

  ghost predicate SuitesShuffledBy(t: seq<SuiteState>, s: seq<SuiteState>, each: seq<seq<nat>>) {
    && |t| == |each| == |s|
    && (each != [] ==>
          var n := |each| - 1;
          SuitesShuffledBy(t[..n], s[..n], each[..n]) && SuiteShuffledBy(t[n], s[n], each[n]))
  }

  lemma {:induction false} SuiteShuffledAt(t: seq<SuiteState>, s: seq<SuiteState>, each: seq<seq<nat>>, i: nat)
    requires SuitesShuffledBy(t, s, each) && i < |s|
    ensures SuiteShuffledBy(t[i], s[i], each[i])
  {
    var n := |each| - 1;
    if i < n {
      SuiteShuffledAt(t[..n], s[..n], each[..n], i);
    }
  }

  /** As far as suite i the suites are shuffled, and the others are as they were. */
  ghost predicate ShuffledUpTo(now: seq<SuiteState>, was: seq<SuiteState>, each: seq<seq<nat>>) {
    && |each| <= |was| == |now| && now[|each|..] == was[|each|..]
    && SuitesShuffledBy(now[..|each|], was[..|each|], each)
  }

  lemma NothingShuffledYet(was: seq<SuiteState>)
    ensures ShuffledUpTo(was, was, [])
  {
  }

  lemma NextShuffled(now: seq<SuiteState>, next: seq<SuiteState>, was: seq<SuiteState>,
                     each: seq<seq<nat>>, draws: seq<nat>)
    requires ShuffledUpTo(now, was, each) && |each| < |was| == |next| && next == now[|each| := next[|each|]]
    requires SuiteShuffledBy(next[|each|], now[|each|], draws)
    ensures ShuffledUpTo(next, was, each + [draws])
  {
    var i := |each|;
    assert now[i] == now[i..][0] == was[i..][0] == was[i];
    assert next[..i + 1][..i] == now[..i] && was[..i + 1][..i] == was[..i] && (each + [draws])[..i] == each;
    assert next[i + 1..] == now[i..][1..] && was[i + 1..] == was[i..][1..];
  }

  lemma AllShuffled(now: seq<SuiteState>, was: seq<SuiteState>, each: seq<seq<nat>>)
    requires ShuffledUpTo(now, was, each) && |each| == |was|
    ensures SuitesShuffledBy(now, was, each)
  {
    assert now[..|each|] == now && was[..|each|] == was;
  }

  ghost function Joined(each: seq<seq<nat>>): seq<nat> {
    if each == [] then [] else Joined(each[..|each| - 1]) + each[|each| - 1]
  }

  lemma JoinedGrows(each: seq<seq<nat>>, draws: seq<nat>)
    ensures Joined(each + [draws]) == Joined(each) + draws
  {
    assert (each + [draws])[..|each|] == each;
  }

  lemma SuiteShuffleIsOne(t: SuiteState, s: SuiteState, draws: seq<nat>)
    requires SuiteShuffledBy(t, s, draws)
    ensures IsShuffledSuite(t, s)
  {
    ShufflePermutes(s.order, 0, |s.order|, draws);
  }

  lemma ShuffleByIsShuffle(t: Schedule, s: Schedule, death: seq<nat>, others: seq<nat>, each: seq<seq<nat>>)
    requires InBounds(s) && IsShuffleBy(t, s, death, others, each)
    ensures IsShuffleOf(t, s)
  {
    var n, b := |s.suites|, s.lastDeath + 1;
    var half := Shuffled(s.indices, 0, b, death);
    ShufflePermutes(s.indices, 0, b, death);
    ShufflePermutes(half, b, n - b, others);
    TwoShuffles(s.indices, half, t.indices, b);
    forall i | 0 <= i < n ensures IsShuffledSuite(t.suites[i], s.suites[i]) {
      SuiteShuffledAt(t.suites, s.suites, each, i);
      SuiteShuffleIsOne(t.suites[i], s.suites[i], each[i]);
    }
  }

  lemma TwoShuffles(v: seq<int>, half: seq<int>, w: seq<int>, b: nat)
    requires b <= |v| == |half| && RangePermuted(v, half, 0, b) && RangePermuted(half, w, b, |v|)
    ensures RangesPermuted(v, w, b)
  {
    PermutedRange(v, half, 0, b);
    PermutedRange(half, w, b, |v|);
  }

  function UnshuffledSuite(s: SuiteState): SuiteState {
    s.(order := Range(0, |s.order|))
  }

  function Unshuffled(s: Schedule): Schedule {
    s.(suites := seq(|s.suites|, i requires 0 <= i < |s.suites| => UnshuffledSuite(s.suites[i])),
       indices := Range(0, |s.suites|))
  }

  lemma ShuffleKeepsSuites(s: seq<SuiteState>, t: seq<SuiteState>, lastDeath: int)
    requires |t| == |s| && SuitesSound(s) && DeathSuitesUpTo(s, lastDeath)
    requires forall i :: 0 <= i < |s| ==> IsShuffledSuite(t[i], s[i])
    ensures Names(t) == Names(s) && SuitesSound(t) && DeathSuitesUpTo(t, lastDeath)
  {
    forall i | 0 <= i < |t| ensures t[i].name == s[i].name && IsOrder(t[i].order, |t[i].tests|) {
      assert IsShuffledSuite(t[i], s[i]);
    }
  }

  lemma ShuffleKeeps(s: Schedule, t: Schedule)
    requires Sound(s) && DeathFirst(s) && IsShuffleOf(t, s)
    ensures Sound(t) && DeathFirst(t)
  {
    DeathFirstIffDivided(s);
    ShuffleKeepsSuites(s.suites, t.suites, s.lastDeath);
    DeathFirstIffDivided(t);
  }

  lemma UnshuffleKeeps(s: Schedule)
    requires Sound(s)
    ensures Sound(Unshuffled(s)) && DeathFirst(Unshuffled(s))
  {
    var t := Unshuffled(s);
    forall i | 0 <= i < |t.suites|
      ensures IsOrder(t.suites[i].order, |t.suites[i].tests|)
    {
      OrderIsPermutation(s.suites[i].order, |s.suites[i].tests|);
    }
    assert t.indices[..t.lastDeath + 1] == Range(0, t.lastDeath + 1);
    DeathFirstIffDivided(t);
  }

  // ----- Runs -----

  datatype Step = Register(suite: string, test: string) | Shuffle | Unshuffle

  /** Registration is the caller's duty to make only while the suites are not shuffled. */
  ghost predicate Next(s: Schedule, step: Step, t: Schedule)
    requires InBounds(s)
  {
    match step
    case Register(suite, test) => s.indices == Range(0, |s.suites|) && t == Registered(s, suite, test)
    case Shuffle => IsShuffleOf(t, s)
    case Unshuffle => t == Unshuffled(s)
  }

  ghost predicate IsStepAt(states: seq<Schedule>, steps: seq<Step>, k: nat)
    requires k < |steps| && k + 1 < |states|
  {
    InBounds(states[k]) && Next(states[k], steps[k], states[k + 1])
  }

  ghost predicate IsRun(states: seq<Schedule>, steps: seq<Step>) {
    && |states| == |steps| + 1
    && forall k :: 0 <= k < |steps| ==> IsStepAt(states, steps, k)
  }

  lemma StepKeeps(s: Schedule, step: Step, t: Schedule)
    requires Sound(s) && DeathFirst(s) && Next(s, step, t)
    ensures Sound(t) && DeathFirst(t)
  {
    match step
    case Register(suite, test) => RegistrationKeepsDeathFirst(s, suite, test);
    case Shuffle => ShuffleKeeps(s, t);
    case Unshuffle => UnshuffleKeeps(s);
  }

  lemma {:induction false} StateOfRun(states: seq<Schedule>, steps: seq<Step>, k: nat)
    requires IsRun(states, steps) && states[0] == NOTHING_REGISTERED && k < |states|
    ensures Sound(states[k]) && DeathFirst(states[k])
  {
    if k == 0 {
      NothingIsBuilt();
    } else {
      StateOfRun(states, steps, k - 1);
      assert IsStepAt(states, steps, k - 1);
      StepKeeps(states[k - 1], steps[k - 1], states[k]);
    }
  }

  /** Over every run the suites stay distinct, each runs once, and the death suites run first. */
  lemma RunKeepsDeathFirst(states: seq<Schedule>, steps: seq<Step>)
    requires IsRun(states, steps) && states[0] == NOTHING_REGISTERED
    ensures forall k :: 0 <= k < |states| ==> Sound(states[k]) && DeathFirst(states[k])
  {
    forall k | 0 <= k < |states| ensures Sound(states[k]) && DeathFirst(states[k]) {
      StateOfRun(states, steps, k);
    }
  }

  lemma ShuffleThenUnshuffle(s: Schedule, t: Schedule)
    requires InBounds(s) && (t == Unshuffled(s) || IsShuffleOf(t, s))
    ensures Unshuffled(t) == Unshuffled(s)
  {
    forall i | 0 <= i < |s.suites| ensures UnshuffledSuite(t.suites[i]) == UnshuffledSuite(s.suites[i]) {
      if t != Unshuffled(s) {
        assert IsShuffledSuite(t.suites[i], s.suites[i]);
        assert |multiset(t.suites[i].order)| == |multiset(s.suites[i].order)|;
      }
    }
    assert Unshuffled(t).suites == Unshuffled(s).suites;
  }

  // ----- What registration builds -----

  datatype Registration = Registration(suite: string, test: string)

  /** The suites in the order of their first tests. */
  ghost function FirstNames(regs: seq<Registration>): seq<string> {
    if regs == [] then []
    else
      var n := |regs| - 1;
      var names := FirstNames(regs[..n]);
      if regs[n].suite in names then names else names + [regs[n].suite]
  }

  ghost function Only(names: seq<string>, death: bool): seq<string> {
    if names == [] then []
    else
      var n := |names| - 1;
      Only(names[..n], death) + if IsDeathSuite(names[n]) == death then [names[n]] else []
  }

  ghost function TestsOf(regs: seq<Registration>, suite: string): seq<string> {
    if regs == [] then []
    else
      var n := |regs| - 1;
      TestsOf(regs[..n], suite) + if regs[n].suite == suite then [regs[n].test] else []
  }

  ghost function RegisteredAll(regs: seq<Registration>): (s: Schedule)
    ensures InBounds(s)
  {
    if regs == [] then NOTHING_REGISTERED
    else
      var n := |regs| - 1;
      Registered(RegisteredAll(regs[..n]), regs[n].suite, regs[n].test)
  }

  /** The state that a list of registrations should lead to. */
  ghost predicate IsBuiltFrom(s: Schedule, regs: seq<Registration>) {
    var names := FirstNames(regs);
    && NamesBuilt(s, names)
    && s.indices == Range(0, |s.suites|)
    && (forall i :: 0 <= i < |s.suites| ==> IsSuiteFrom(s.suites[i], regs))
  }

  ghost predicate IsSuiteFrom(suite: SuiteState, regs: seq<Registration>) {
    suite.tests == TestsOf(regs, suite.name) && suite.order == Range(0, |suite.tests|)
  }

  lemma {:induction false} OnlyKeepsMembers(names: seq<string>, name: string)
    ensures name in names <==> name in Only(names, true) + Only(names, false)
  {
    if names != [] {
      var n := |names| - 1;
      OnlyKeepsMembers(names[..n], name);
      assert names == names[..n] + [names[n]];
    }
  }

  lemma {:induction false} NewNameHasNoTests(regs: seq<Registration>, name: string)
    requires name !in FirstNames(regs)
    ensures TestsOf(regs, name) == []
  {
    if regs != [] {
      NewNameHasNoTests(regs[..|regs| - 1], name);
    }
  }

  ghost predicate NamesBuilt(s: Schedule, names: seq<string>) {
    && Names(s.suites) == Only(names, true) + Only(names, false)
    && s.lastDeath == |Only(names, true)| - 1
  }

  lemma NewNameIsBuilt(s: Schedule, names: seq<string>, name: string)
    requires InBounds(s) && NamesBuilt(s, names) && name !in names
    ensures NamesBuilt(WithNewSuite(s, name), names + [name])
  {
    NewNames(s, name);
    NewNameInPlace(names, Names(s.suites), name);
  }

  lemma NameIsNew(s: Schedule, names: seq<string>, name: string)
    requires NamesBuilt(s, names)
    ensures LastNamed(s.suites, name) < 0 <==> name !in names
  {
    OnlyKeepsMembers(names, name);
    forall k | 0 <= k < |s.suites| ensures s.suites[k].name in Names(s.suites) {
      assert Names(s.suites)[k] in Names(s.suites);
    }
  }

  lemma NewNameInPlace(names: seq<string>, stored: seq<string>, name: string)
    requires stored == Only(names, true) + Only(names, false)
    ensures var at := if IsDeathSuite(name) then |Only(names, true)| else |stored|;
      Inserted(stored, at, name) == Only(names + [name], true) + Only(names + [name], false)
    ensures |Only(names + [name], true)| == |Only(names, true)| + if IsDeathSuite(name) then 1 else 0
  {
    assert (names + [name])[..|names|] == names;
  }

  lemma NewSuiteFits(s: Schedule, regs: seq<Registration>, name: string)
    requires InBounds(s) && name !in FirstNames(regs)
    requires forall i :: 0 <= i < |s.suites| ==> IsSuiteFrom(s.suites[i], regs)
    ensures var t := WithNewSuite(s, name); forall i :: 0 <= i < |t.suites| ==> IsSuiteFrom(t.suites[i], regs)
  {
    var suite := SuiteState(name, [], []);
    NewNameHasNoTests(regs, name);
    assert Range(0, 0) == [] && IsSuiteFrom(suite, regs);
    InsertedFits(s.suites, if IsDeathSuite(name) then s.lastDeath + 1 else |s.suites|, suite, regs);
  }

  lemma InsertedFits(suites: seq<SuiteState>, at: nat, suite: SuiteState, regs: seq<Registration>)
    requires at <= |suites| && IsSuiteFrom(suite, regs)
    requires forall i :: 0 <= i < |suites| ==> IsSuiteFrom(suites[i], regs)
    ensures var r := Inserted(suites, at, suite); forall i :: 0 <= i < |r| ==> IsSuiteFrom(r[i], regs)
  {
  }

  lemma NewTestFits(suite: SuiteState, regs: seq<Registration>, reg: Registration)
    requires IsSuiteFrom(suite, regs)
    ensures IsSuiteFrom(if suite.name == reg.suite then WithTest(suite, reg.test) else suite, regs + [reg])
  {
    assert (regs + [reg])[..|regs|] == regs;
    RangeGrows(|suite.tests|);
  }

  lemma TestAdded(t: Schedule, i: nat, regs: seq<Registration>, reg: Registration)
    requires NoDuplicates(Names(t.suites)) && i < |t.suites| && t.suites[i].name == reg.suite
    requires forall k :: 0 <= k < |t.suites| ==> IsSuiteFrom(t.suites[k], regs)
    ensures var r := WithTestAt(t.suites, i, reg.test);
      Names(r) == Names(t.suites) && forall k :: 0 <= k < |r| ==> IsSuiteFrom(r[k], regs + [reg])
  {
    var r := WithTestAt(t.suites, i, reg.test);
    forall k | 0 <= k < |r| ensures IsSuiteFrom(r[k], regs + [reg]) {
      NewTestFits(t.suites[k], regs, reg);
      assert k != i ==> Names(t.suites)[k] != Names(t.suites)[i];
    }
  }

  /** What is left to do after the suite has been found or created: only the test is missing. */
  ghost predicate SuiteReady(t: Schedule, regs: seq<Registration>, names: seq<string>) {
    && NamesBuilt(t, names) && t.indices == Range(0, |t.suites|) && NoDuplicates(Names(t.suites))
    && forall i :: 0 <= i < |t.suites| ==> IsSuiteFrom(t.suites[i], regs)
  }

  lemma SuiteIsReady(s: Schedule, regs: seq<Registration>, reg: Registration)
    requires Sound(s) && IsBuiltFrom(s, regs)
    ensures SuiteReady(WithSuite(s, reg.suite), regs, FirstNames(regs + [reg]))
  {
    var names := FirstNames(regs);
    NextNames(regs, reg);
    NameIsNew(s, names, reg.suite);
    if reg.suite !in names {
      NewSuiteIsReady(s, regs, reg.suite);
    }
  }

  lemma NextNames(regs: seq<Registration>, reg: Registration)
    ensures var names := FirstNames(regs);
      FirstNames(regs + [reg]) == if reg.suite in names then names else names + [reg.suite]
  {
    assert (regs + [reg])[..|regs|] == regs;
  }

  lemma NewSuiteIsReady(s: Schedule, regs: seq<Registration>, name: string)
    requires InBounds(s) && NoDuplicates(Names(s.suites)) && LastNamed(s.suites, name) < 0
    requires IsBuiltFrom(s, regs) && name !in FirstNames(regs)
    ensures SuiteReady(WithNewSuite(s, name), regs, FirstNames(regs) + [name])
  {
    NewNameIsBuilt(s, FirstNames(regs), name);
    NewSuiteFits(s, regs, name);
    NewNameIsDistinct(s, name);
    RangeGrows(|s.suites|);
  }

  lemma RegistrationBuilds(s: Schedule, regs: seq<Registration>, reg: Registration)
    requires Sound(s) && IsBuiltFrom(s, regs)
    ensures Sound(Registered(s, reg.suite, reg.test))
    ensures IsBuiltFrom(Registered(s, reg.suite, reg.test), regs + [reg])
  {
    var t := WithSuite(s, reg.suite);
    SuiteIsReady(s, regs, reg);
    TestAdded(t, LastNamed(t.suites, reg.suite), regs, reg);
    RegistrationIsSound(s, reg.suite, reg.test);
  }

  lemma NothingIsBuilt()
    ensures Sound(NOTHING_REGISTERED) && IsBuiltFrom(NOTHING_REGISTERED, [])
  {
    assert Range(0, 0) == [];
  }

  /** Registration stores the death suites first, each kind in the order of first mention, and each suite's tests
      in order. */
  lemma {:induction false} RegistrationOrder(regs: seq<Registration>)
    ensures Sound(RegisteredAll(regs)) && IsBuiltFrom(RegisteredAll(regs), regs)
  {
    if regs == [] {
      NothingIsBuilt();
    } else {
      var front, last := regs[..|regs| - 1], regs[|regs| - 1];
      assert front + [last] == regs;
      RegistrationOrder(front);
      RegistrationBuilds(RegisteredAll(front), front, last);
    }
  }

  // ----- What unshuffling restores -----

  /** Registered tests are in their original order. */
  lemma RegisteredIsUnshuffled(regs: seq<Registration>)
    ensures Unshuffled(RegisteredAll(regs)) == RegisteredAll(regs)
  {
    RegistrationOrder(regs);
    var s := RegisteredAll(regs);
    forall i | 0 <= i < |s.suites| ensures UnshuffledSuite(s.suites[i]) == s.suites[i] {
      assert IsSuiteFrom(s.suites[i], regs);
    }
    assert Unshuffled(s).suites == s.suites;
  }

  lemma {:induction false} SameNamesSameLast(a: seq<SuiteState>, b: seq<SuiteState>, name: string)
    requires |a| == |b| && forall i :: 0 <= i < |a| ==> a[i].name == b[i].name
    ensures LastNamed(a, name) == LastNamed(b, name)
  {
    if a != [] {
      SameNamesSameLast(a[..|a| - 1], b[..|b| - 1], name);
    }
  }

  /** It does not matter whether a suite is created before or after unshuffling. */
  lemma UnshuffleNewSuite(s: Schedule, name: string)
    requires InBounds(s)
    ensures Unshuffled(WithNewSuite(s, name)) == WithNewSuite(Unshuffled(s), name)
  {
    var at := if IsDeathSuite(name) then s.lastDeath + 1 else |s.suites|;
    var suite := SuiteState(name, [], []);
    assert UnshuffledSuite(suite) == suite;
    assert Unshuffled(WithNewSuite(s, name)).suites == Inserted(Unshuffled(s).suites, at, suite);
    RangeGrows(|s.suites|);
  }

  lemma UnshuffleWithSuite(s: Schedule, name: string)
    requires InBounds(s)
    ensures Unshuffled(WithSuite(s, name)) == WithSuite(Unshuffled(s), name)
  {
    SameNamesSameLast(s.suites, Unshuffled(s).suites, name);
    if LastNamed(s.suites, name) < 0 {
      UnshuffleNewSuite(s, name);
    }
  }

  lemma UnshuffleWithTest(t: Schedule, i: nat, test: string)
    requires InBounds(t) && i < |t.suites|
    ensures Unshuffled(t.(suites := WithTestAt(t.suites, i, test)))
      == Unshuffled(t).(suites := WithTestAt(Unshuffled(t).suites, i, test))
  {
    RangeGrows(|t.suites[i].order|);
    assert UnshuffledSuite(WithTest(t.suites[i], test)) == WithTest(UnshuffledSuite(t.suites[i]), test);
    assert Unshuffled(t.(suites := WithTestAt(t.suites, i, test))).suites
      == WithTestAt(Unshuffled(t).suites, i, test);
  }

  /** A registration and unshuffling can be exchanged. */
  lemma UnshuffleRegistered(s: Schedule, suite: string, test: string)
    requires InBounds(s)
    ensures Unshuffled(Registered(s, suite, test)) == Registered(Unshuffled(s), suite, test)
  {
    var t := WithSuite(s, suite);
    UnshuffleWithSuite(s, suite);
    SameNamesSameLast(t.suites, Unshuffled(t).suites, suite);
    UnshuffleWithTest(t, LastNamed(t.suites, suite), test);
  }

  /** All registrations after k steps, in order: those from before, and those among the steps. */
  ghost function RegistrationsAfter(regs: seq<Registration>, steps: seq<Step>, k: nat): seq<Registration>
    requires k <= |steps|
  {
    if k == 0 then regs else WithStep(RegistrationsAfter(regs, steps, k - 1), steps[k - 1])
  }

  ghost function WithStep(regs: seq<Registration>, step: Step): seq<Registration> {
    if step.Register? then regs + [Registration(step.suite, step.test)] else regs
  }

  lemma StepUnshuffled(s: Schedule, step: Step, t: Schedule, regs: seq<Registration>)
    requires InBounds(s) && Next(s, step, t) && Unshuffled(s) == RegisteredAll(regs)
    ensures Unshuffled(t) == RegisteredAll(WithStep(regs, step))
  {
    if step.Register? {
      UnshuffleRegistered(s, step.suite, step.test);
      assert WithStep(regs, step)[..|regs|] == regs;
    } else {
      ShuffleThenUnshuffle(s, t);
    }
  }

  /** Unshuffling gives the order of all registrations up to step k, as if nothing had ever been shuffled. */
  ghost predicate IsRestored(s: Schedule, regs: seq<Registration>, steps: seq<Step>, k: nat)
    requires k <= |steps|
  {
    Unshuffled(s) == RegisteredAll(RegistrationsAfter(regs, steps, k))
  }

  lemma RestoredNext(regs: seq<Registration>, states: seq<Schedule>, steps: seq<Step>, k: nat)
    requires IsRun(states, steps) && 0 < k <= |steps| && IsRestored(states[k - 1], regs, steps, k - 1)
    ensures IsRestored(states[k], regs, steps, k)
  {
    assert IsStepAt(states, steps, k - 1);
    StepUnshuffled(states[k - 1], steps[k - 1], states[k], RegistrationsAfter(regs, steps, k - 1));
  }

  lemma RestoredFirst(regs: seq<Registration>, steps: seq<Step>)
    ensures IsRestored(RegisteredAll(regs), regs, steps, 0)
  {
    RegisteredIsUnshuffled(regs);
  }

  /** In every state of every run from registered tests, unshuffling restores exactly the order of all registrations
      so far, as if nothing had ever been shuffled. */
  lemma UnshuffleRestores(regs: seq<Registration>, states: seq<Schedule>, steps: seq<Step>, k: nat)
    requires IsRun(states, steps) && states[0] == RegisteredAll(regs) && k <= |steps|
    ensures IsRestored(states[k], regs, steps, k)
  {
    RestoredFirst(regs, steps);
    for i := 0 to k
      invariant IsRestored(states[i], regs, steps, i)
    {
      RestoredNext(regs, states, steps, i + 1);
    }
  }

  lemma {:induction false} NoRegistrations(regs: seq<Registration>, steps: seq<Step>, k: nat)
    requires k <= |steps| && forall i :: 0 <= i < |steps| ==> !steps[i].Register?
    ensures RegistrationsAfter(regs, steps, k) == regs
  {
    if k > 0 {
      NoRegistrations(regs, steps, k - 1);
    }
  }

  /** In particular, after any shuffles since the last registration unshuffling gives back the registered state. */
  lemma UnshuffleUndoesShuffles(regs: seq<Registration>, states: seq<Schedule>, steps: seq<Step>)
    requires IsRun(states, steps) && states[0] == RegisteredAll(regs)
    requires forall k :: 0 <= k < |steps| ==> !steps[k].Register?
    ensures Unshuffled(states[|steps|]) == RegisteredAll(regs)
  {
    UnshuffleRestores(regs, states, steps, |steps|);
    NoRegistrations(regs, steps, |steps|);
  }

  // ----- When a shuffle can change the order -----

  lemma ExchangePermutes(v: seq<int>, b: nat, i: nat, j: nat)
    requires i < j < |v| && b <= |v| && (j < b || b <= i)
    ensures RangesPermuted(v, Swap(v, i, j), b)
  {
    var w := Swap(v, i, j);
    SwapPermutes(v, i, j);
    if j < b {
      SwapPermutes(v[..b], i, j);
      assert w[..b] == Swap(v[..b], i, j);
    } else {
      assert w[..b] == v[..b];
    }
  }

  lemma ReorderIsShuffle(s: Schedule, w: seq<int>)
    requires InBounds(s) && RangesPermuted(s.indices, w, s.lastDeath + 1)
    ensures IsShuffleOf(s.(indices := w), s)
  {
  }

  lemma LoneElementStays(v: seq<int>, w: seq<int>)
    requires |v| == |w| <= 1 && multiset(v) == multiset(w)
    ensures v == w
  {
    if |v| == 1 {
      assert v[0] in multiset(w);
    }
  }

  lemma LoneElementsStay(v: seq<int>, w: seq<int>, b: nat)
    requires b <= |v| && RangesPermuted(v, w, b) && b <= 1 && |v| - b <= 1
    ensures v == w
  {
    assert v == v[..b] + v[b..] && w == w[..b] + w[b..];
    CommonPartsCancel(multiset(v[..b]), multiset(w[b..]), multiset(v[b..]), multiset{});
    LoneElementStays(v[..b], w[..b]);
    LoneElementStays(v[b..], w[b..]);
  }

  /** Some shuffle runs the suites in another order exactly if there are two suites of one kind. */
  lemma ShuffleCanMoveSuites(s: Schedule)
    requires Sound(s)
    ensures (exists t :: IsShuffleOf(t, s) && t.indices != s.indices) <==>
            s.lastDeath + 1 >= 2 || |s.suites| - (s.lastDeath + 1) >= 2
  {
    var n, b := |s.suites|, s.lastDeath + 1;
    if b >= 2 || n - b >= 2 {
      var i := if b >= 2 then 0 else b;
      OrderIsPermutation(s.indices, n);
      ExchangePermutes(s.indices, b, i, i + 1);
      var w := Swap(s.indices, i, i + 1);
      assert w[i] == s.indices[i + 1] != s.indices[i];
      ReorderIsShuffle(s, w);
      assert s.(indices := w).indices != s.indices;
    } else {
      forall t | IsShuffleOf(t, s) ensures t.indices == s.indices {
        LoneElementsStay(s.indices, t.indices, b);
      }
    }
  }
}
