/** The registered test suites: registration, filtering with sharding, shuffling and unshuffling. */
module TestScheduling {
  import opened Cardinality
  import opened TestSchedule
  import opened Sharding
  import Filters

  // ----- Random numbers -----

  class Random {
    ghost var drawn: seq<nat>

    constructor () {}

    /** Any value below the range may come. */
    method Generate(range: int) returns (r: int)
      requires range > 0
      modifies this
      ensures 0 <= r < range && drawn == old(drawn) + [r]
    {
      r :| 0 <= r < range;
      drawn := drawn + [r];
    }
  }

  /** The result is the Fisher-Yates shuffle of the range for the numbers drawn. */
  method ShuffleRange<T(!new)>(random: Random, begin: int, end: int, v: seq<T>)
    returns (w: seq<T>, ghost draws: seq<nat>)
    requires 0 <= begin <= end <= |v|
    modifies random
    ensures random.drawn == old(random.drawn) + draws
    ensures AreDraws(draws, end - begin) && w == Shuffled(v, begin, end - begin, draws)
  {
    w, draws := v, [];
    var rangeWidth := end - begin;
    while rangeWidth >= 2
      invariant 0 <= rangeWidth == end - begin - |draws| && SomeDraws(draws, end - begin)
      invariant rangeWidth == end - begin || rangeWidth > 0
      invariant w == Shuffled(v, begin, end - begin, draws)
      invariant random.drawn == old(random.drawn) + draws
    {
      var lastInRange := begin + rangeWidth - 1;
      var drawn := random.Generate(rangeWidth);
      var selected := begin + drawn;
      OneMoreDraw(v, begin, end - begin, draws, drawn);
      w := Swap(w, selected, lastInRange);
      draws := draws + [drawn];
      rangeWidth := rangeWidth - 1;
    }
  }

  /** The element at i, or the default if there is none. */
  function GetElementOr<T>(v: seq<T>, i: int, default: T): T {
    if i < 0 || i >= |v| then default else v[i]
  }

  // ----- Filters -----

  datatype Flags = Flags(filter: string, alsoRunDisabledTests: bool)

  /** What the filters say: of the name of a suite or test, and of a full name. */
  datatype Criteria = Criteria(disables: string -> bool, selects: string -> bool, alsoRunDisabledTests: bool)

  ghost function CriteriaOf(flags: Flags): Criteria {
    Criteria(name => Filters.MatchesSome(Filters.DISABLE_TEST_FILTER, name),
      name => Filters.Selects(flags.filter, name), flags.alsoRunDisabledTests)
  }

  /** A test is disabled if its suite's name or its own is one of a disabled test. */
  ghost predicate IsDisabled(c: Criteria, suite: string, test: string) {
    c.disables(suite) || c.disables(test)
  }

  ghost predicate MatchesFilter(c: Criteria, suite: string, test: string) {
    c.selects(suite + "." + test)
  }

  ghost predicate IsRunnable(c: Criteria, suite: string, test: string) {
    (c.alsoRunDisabledTests || !IsDisabled(c, suite, test)) && MatchesFilter(c, suite, test)
  }

  ghost function RunnableRow(c: Criteria, suite: string, tests: seq<string>): (r: seq<bool>)
    ensures |r| == |tests| && forall j :: 0 <= j < |tests| ==> (r[j] <==> IsRunnable(c, suite, tests[j]))
  {
    seq(|tests|, j requires 0 <= j < |tests| => IsRunnable(c, suite, tests[j]))
  }

  ghost function RunnableUpTo(c: Criteria, suites: seq<SuiteState>, n: nat): (r: seq<seq<bool>>)
    requires n <= |suites|
    ensures |r| == n
  {
    if n == 0 then []
    else RunnableUpTo(c, suites, n - 1) + [RunnableRow(c, suites[n - 1].name, suites[n - 1].tests)]
  }

  ghost function RunnableRows(c: Criteria, suites: seq<SuiteState>): (r: seq<seq<bool>>)
    ensures |r| == |suites|
  {
    RunnableUpTo(c, suites, |suites|)
  }

  lemma {:induction false} RunnableUpToAt(c: Criteria, suites: seq<SuiteState>, n: nat, i: nat)
    requires i < n <= |suites|
    ensures RunnableUpTo(c, suites, n)[i] == RunnableRow(c, suites[i].name, suites[i].tests)
  {
    if i < n - 1 {
      RunnableUpToAt(c, suites, n - 1, i);
    }
  }

  // ----- Tests and suites -----

  /** A test, as its suite owns it: its name, and what filtering last said of it. */
  datatype TestInfo = TestInfo(testSuiteName: string, name: string,
    isDisabled: bool, matchesFilter: bool, isInAnotherShard: bool, shouldRun: bool)

  function NewTestInfo(testSuiteName: string, name: string): TestInfo {
    TestInfo(testSuiteName, name, false, false, false, false)
  }

  ghost function TestNames(infos: seq<TestInfo>): (r: seq<string>)
    ensures |r| == |infos| && forall j :: 0 <= j < |r| ==> r[j] == infos[j].name
  {
    seq(|infos|, j requires 0 <= j < |infos| => infos[j].name)
  }

  /** What filtering leaves in a suite. */
  datatype Marks = Marks(shouldRun: bool, tests: seq<TestInfo>)

  class TestSuite {
    const name: string
    var testInfoList: seq<TestInfo>
    var testIndices: seq<int>
    var shouldRun: bool

    ghost function State(): SuiteState
      reads this`testInfoList, this`testIndices
    {
      SuiteState(name, TestNames(testInfoList), testIndices)
    }

    constructor (name: string)
      ensures State() == SuiteState(name, [], [])
    {
      this.name := name;
      testInfoList, testIndices, shouldRun := [], [], false;
    }

    method AddTestInfo(testInfo: TestInfo)
      modifies this
      ensures State() == WithTest(old(State()), testInfo.name) && testInfoList == old(testInfoList) + [testInfo]
    {
      testInfoList := testInfoList + [testInfo];
      testIndices := testIndices + [|testIndices|];
    }

    method ShuffleTests(random: Random) returns (ghost draws: seq<nat>)
      modifies this`testIndices, random
      ensures random.drawn == old(random.drawn) + draws && SuiteShuffledBy(State(), old(State()), draws)
    {
      testIndices, draws := ShuffleRange(random, 0, |testIndices|, testIndices);
    }

    method UnshuffleTests()
      modifies this`testIndices
      ensures testIndices == Range(0, |old(testIndices)|)
    {
      for i := 0 to |testIndices|
        invariant |testIndices| == |old(testIndices)|
        invariant forall k :: 0 <= k < i ==> testIndices[k] == k
      {
        testIndices := testIndices[i := i];
      }
    }

    ghost function Row(c: Criteria): (r: seq<bool>)
      reads this`testInfoList
      ensures |r| == |testInfoList|
    {
      RunnableRow(c, name, TestNames(testInfoList))
    }

    ghost function Marked(): Marks
      reads this`shouldRun, this`testInfoList
    {
      Marks(shouldRun, testInfoList)
    }
  }

  /** The suite and its tests, which have these ranks, are marked for the tests that are selected. */
  ghost predicate Show(marks: Marks, suite: string, c: Criteria, shard: Shard, ranks: seq<nat>, selected: seq<bool>)
    requires IsShard(shard)
  {
    && |marks.tests| == |selected| < |ranks|
    && (marks.shouldRun <==> true in selected)
    && forall j :: 0 <= j < |selected| ==>
         && marks.tests[j].shouldRun == selected[j]
         && (marks.tests[j].isInAnotherShard <==> !Takes(shard, ranks[j]))
         && (marks.tests[j].isDisabled <==> IsDisabled(c, suite, marks.tests[j].name))
         && (marks.tests[j].matchesFilter <==> MatchesFilter(c, suite, marks.tests[j].name))
  }

  // ----- Filtering a suite -----

  datatype ReactionToSharding = HonorShardingProtocol | IgnoreShardingProtocol

  ghost function ShardOf(reaction: ReactionToSharding, totalShards: int, shardIndex: int): Shard {
    if reaction.HonorShardingProtocol? then Shard(totalShards, shardIndex) else AllTests
  }

  /** Shards count only where the protocol is honoured. */
  lemma ShardByReaction(totalShards: int, shardIndex: int)
    ensures ShardOf(IgnoreShardingProtocol, totalShards, shardIndex) == AllTests
    ensures ShardOf(HonorShardingProtocol, totalShards, shardIndex) == Shard(totalShards, shardIndex)
  {
  }

  /** The filters answer as the criteria say. */
  ghost predicate AreFilters(gtestFlagFilter: Filters.PositiveAndNegativeUnitTestFilter,
      disableTestFilter: Filters.UnitTestFilter, c: Criteria)
  {
    && (forall name {:trigger gtestFlagFilter.Accepts(name)} :: gtestFlagFilter.Accepts(name) <==> c.selects(name))
    && forall name {:trigger disableTestFilter.Accepts(name)} :: disableTestFilter.Accepts(name) <==> c.disables(name)
  }

  /** The verdict on a test that has `rank` runnable ones before it. */
  ghost predicate IsVerdict(test: TestInfo, suite: string, c: Criteria, shard: Shard, rank: nat)
    requires IsShard(shard)
  {
    && (test.isDisabled <==> IsDisabled(c, suite, test.name))
    && (test.matchesFilter <==> MatchesFilter(c, suite, test.name))
    && (test.isInAnotherShard <==> !Takes(shard, rank))
    && (test.shouldRun <==> IsRunnable(c, suite, test.name) && Takes(shard, rank))
  }

  /** One test; numRunnable runnable ones came before it. */
  method FilterTest(test: TestInfo, suiteName: string, ghost c: Criteria, alsoRunDisabledTests: bool,
      gtestFlagFilter: Filters.PositiveAndNegativeUnitTestFilter, disableTestFilter: Filters.UnitTestFilter,
      shardTests: ReactionToSharding, totalShards: int, shardIndex: int, numRunnable: nat)
    returns (test': TestInfo, isRunnable: bool)
    requires IsShard(ShardOf(shardTests, totalShards, shardIndex))
    requires AreFilters(gtestFlagFilter, disableTestFilter, c) && c.alsoRunDisabledTests == alsoRunDisabledTests
    ensures test'.name == test.name && test'.testSuiteName == test.testSuiteName
    ensures isRunnable <==> IsRunnable(c, suiteName, test.name)
    ensures isRunnable <==> test'.matchesFilter && (alsoRunDisabledTests || !test'.isDisabled)
    ensures test'.shouldRun <==> isRunnable && !test'.isInAnotherShard
    ensures test'.isDisabled <==> c.disables(suiteName) || c.disables(test.name)
    ensures test'.matchesFilter <==> c.selects(suiteName + "." + test.name)
    ensures IsVerdict(test', suiteName, c, ShardOf(shardTests, totalShards, shardIndex), numRunnable)
  {
    var isDisabled := disableTestFilter.MatchesName(suiteName);
    if !isDisabled {
      isDisabled := disableTestFilter.MatchesName(test.name);
    }
    var matchesFilter := gtestFlagFilter.MatchesTest(suiteName, test.name);
    isRunnable := (alsoRunDisabledTests || !isDisabled) && matchesFilter;
    var isInAnotherShard := shardTests != IgnoreShardingProtocol
      && !ShouldRunTestOnShard(totalShards, shardIndex, numRunnable);
    var isSelected := isRunnable && !isInAnotherShard;
    if shardTests == HonorShardingProtocol {
      ResidueIsRemainder(numRunnable, totalShards);
    }
    test' := test.(isDisabled := isDisabled, matchesFilter := matchesFilter,
      isInAnotherShard := isInAnotherShard, shouldRun := isSelected);
  }

  /** The tests bear the verdicts for the ranks. */
  ghost predicate AreVerdicts(infos: seq<TestInfo>, upTo: nat, suite: string, c: Criteria, shard: Shard,
      ranks: seq<nat>)
    requires IsShard(shard)
  {
    upTo <= |infos| < |ranks| && forall j :: 0 <= j < upTo ==> IsVerdict(infos[j], suite, c, shard, ranks[j])
  }

  /** The tests of one suite, with what the two counters are to be before each of them. */
  method FilterSuite(suite: TestSuite, ghost c: Criteria, alsoRunDisabledTests: bool,
      gtestFlagFilter: Filters.PositiveAndNegativeUnitTestFilter, disableTestFilter: Filters.UnitTestFilter,
      shardTests: ReactionToSharding, totalShards: int, shardIndex: int, numRunnable: nat, numSelected: nat,
      ghost ranks: seq<nat>, ghost chosen: seq<nat>)
    returns (numRunnable': nat, numSelected': nat)
    requires IsShard(ShardOf(shardTests, totalShards, shardIndex))
    requires AreFilters(gtestFlagFilter, disableTestFilter, c) && c.alsoRunDisabledTests == alsoRunDisabledTests
    requires AreCounters(suite.Row(c), ShardOf(shardTests, totalShards, shardIndex), ranks, chosen)
    requires numRunnable == ranks[0] && numSelected == chosen[0]
    modifies suite`shouldRun, suite`testInfoList
    ensures suite.State() == old(suite.State())
    ensures AreVerdicts(suite.testInfoList, |suite.testInfoList|, suite.name, c,
      ShardOf(shardTests, totalShards, shardIndex), ranks)
    ensures numRunnable' == ranks[|suite.testInfoList|] && numSelected' == chosen[|suite.testInfoList|]
    ensures suite.shouldRun <==> numSelected < numSelected'
  {
    ghost var shard, names := ShardOf(shardTests, totalShards, shardIndex), TestNames(suite.testInfoList);
    numRunnable', numSelected' := numRunnable, numSelected;
    suite.shouldRun := false;
    var j := 0;
    while j < |suite.testInfoList|
      invariant j <= |suite.testInfoList| && TestNames(suite.testInfoList) == names
      invariant numRunnable' == ranks[j] && numSelected' == chosen[j]
      invariant AreVerdicts(suite.testInfoList, j, suite.name, c, shard, ranks)
      invariant numSelected <= numSelected' && (suite.shouldRun <==> numSelected < numSelected')
    {
      var test, isRunnable := FilterTest(suite.testInfoList[j], suite.name, c, alsoRunDisabledTests,
        gtestFlagFilter, disableTestFilter, shardTests, totalShards, shardIndex, numRunnable');
      suite.testInfoList := suite.testInfoList[j := test];
      numRunnable' := numRunnable' + if isRunnable then 1 else 0;
      numSelected' := numSelected' + if test.shouldRun then 1 else 0;
      suite.shouldRun := suite.shouldRun || test.shouldRun;
      j := j + 1;
    }
  }

  lemma VerdictsShow(infos: seq<TestInfo>, suite: string, c: Criteria, shard: Shard,
      ranks: seq<nat>, chosen: seq<nat>, selected: seq<bool>)
    requires IsShard(shard) && |infos| == |selected|
    requires AreCounters(RunnableRow(c, suite, TestNames(infos)), shard, ranks, chosen)
    requires AreVerdicts(infos, |infos|, suite, c, shard, ranks)
    requires forall j :: 0 <= j < |selected| ==>
      (selected[j] <==> RunnableRow(c, suite, TestNames(infos))[j] && Takes(shard, ranks[j]))
    ensures Show(Marks(chosen[0] < chosen[|infos|], infos), suite, c, shard, ranks, selected)
  {
    SomeSelected(RunnableRow(c, suite, TestNames(infos)), shard, ranks, chosen, selected);
    forall j | 0 <= j < |selected| ensures infos[j].shouldRun == selected[j] {
      assert IsVerdict(infos[j], suite, c, shard, ranks[j]);
    }
  }

  /** Suite i: the counters and marks are those of the whole selection. */
  method FilterNext(suite: TestSuite, ghost i: nat, ghost c: Criteria, alsoRunDisabledTests: bool,
      gtestFlagFilter: Filters.PositiveAndNegativeUnitTestFilter, disableTestFilter: Filters.UnitTestFilter,
      shardTests: ReactionToSharding, totalShards: int, shardIndex: int, numRunnable: nat, numSelected: nat,
      ghost rows: seq<seq<bool>>, ghost selected: seq<seq<bool>>)
    returns (numRunnable': nat, numSelected': nat)
    requires i < |rows| && rows[i] == suite.Row(c)
    requires IsShard(ShardOf(shardTests, totalShards, shardIndex))
    requires AreFilters(gtestFlagFilter, disableTestFilter, c) && c.alsoRunDisabledTests == alsoRunDisabledTests
    requires selected == SelectedRows(rows, ShardOf(shardTests, totalShards, shardIndex))
    requires numRunnable == CountRows(rows, i) && numSelected == CountRows(selected, i)
    modifies suite`shouldRun, suite`testInfoList
    ensures suite.State() == old(suite.State())
    ensures numRunnable' == CountRows(rows, i + 1) && numSelected' == CountRows(selected, i + 1)
    ensures Show(suite.Marked(), suite.name, c, ShardOf(shardTests, totalShards, shardIndex),
      RanksOf(rows, i), selected[i])
  {
    ghost var shard := ShardOf(shardTests, totalShards, shardIndex);
    ghost var ranks, chosen := RowCounters(rows, selected, shard, i);
    numRunnable', numSelected' := FilterSuite(suite, c, alsoRunDisabledTests, gtestFlagFilter, disableTestFilter,
      shardTests, totalShards, shardIndex, numRunnable, numSelected, ranks, chosen);
    VerdictsShow(suite.testInfoList, suite.name, c, shard, ranks, chosen, selected[i]);
  }

  ghost function AllMarked(suites: seq<TestSuite>): (r: seq<Marks>)
    reads suites
    ensures |r| == |suites| && forall k :: 0 <= k < |r| ==> r[k] == suites[k].Marked()
  {
    seq(|suites|, k requires 0 <= k < |suites| reads suites => suites[k].Marked())
  }

  /** As many suites as there are marks show what is selected. */
  ghost predicate AllShow(shown: seq<Marks>, states: seq<SuiteState>, c: Criteria, shard: Shard,
      rows: seq<seq<bool>>, selected: seq<seq<bool>>)
    requires IsShard(shard) && |shown| <= |states| == |rows| == |selected|
  {
    var n := |shown| - 1;
    n >= 0 ==>
      && AllShow(shown[..n], states, c, shard, rows, selected)
      && Show(shown[n], states[n].name, c, shard, RanksOf(rows, n), selected[n])
  }

  lemma AllShowNext(was: seq<Marks>, now: seq<Marks>, i: nat, states: seq<SuiteState>, c: Criteria, shard: Shard,
      rows: seq<seq<bool>>, selected: seq<seq<bool>>)
    requires IsShard(shard)
    requires i < |was| == |now| == |states| == |rows| == |selected| && now == was[i := now[i]]
    requires AllShow(was[..i], states, c, shard, rows, selected)
    requires Show(now[i], states[i].name, c, shard, RanksOf(rows, i), selected[i])
    ensures AllShow(now[..i + 1], states, c, shard, rows, selected)
  {
    assert now[..i + 1][..i] == was[..i];
  }

  /** The first i suites are marked and counted. */
  ghost predicate FilteredUpTo(marks: seq<Marks>, i: nat, numRunnable: nat, numSelected: nat,
      states: seq<SuiteState>, c: Criteria, shard: Shard, rows: seq<seq<bool>>, selected: seq<seq<bool>>)
    requires IsShard(shard)
  {
    && i <= |marks| == |states| == |rows| == |selected|
    && numRunnable == CountRows(rows, i) && numSelected == CountRows(selected, i)
    && AllShow(marks[..i], states, c, shard, rows, selected)
  }

  lemma NoneFiltered(marks: seq<Marks>, states: seq<SuiteState>, c: Criteria, shard: Shard,
      rows: seq<seq<bool>>, selected: seq<seq<bool>>)
    requires IsShard(shard) && |marks| == |states| == |rows| == |selected|
    ensures FilteredUpTo(marks, 0, 0, 0, states, c, shard, rows, selected)
  {
  }

  lemma FilteredNext(was: seq<Marks>, now: seq<Marks>, i: nat, before: nat, chosen: nat,
      numRunnable: nat, numSelected: nat, states: seq<SuiteState>, c: Criteria, shard: Shard,
      rows: seq<seq<bool>>, selected: seq<seq<bool>>)
    requires IsShard(shard)
    requires FilteredUpTo(was, i, before, chosen, states, c, shard, rows, selected)
    requires i < |was| == |now| && now == was[i := now[i]]
    requires numRunnable == CountRows(rows, i + 1) && numSelected == CountRows(selected, i + 1)
    requires Show(now[i], states[i].name, c, shard, RanksOf(rows, i), selected[i])
    ensures FilteredUpTo(now, i + 1, numRunnable, numSelected, states, c, shard, rows, selected)
  {
    AllShowNext(was, now, i, states, c, shard, rows, selected);
  }

  lemma AllFiltered(marks: seq<Marks>, i: nat, numRunnable: nat, numSelected: nat,
      states: seq<SuiteState>, c: Criteria, shard: Shard, rows: seq<seq<bool>>, selected: seq<seq<bool>>)
    requires IsShard(shard)
    requires FilteredUpTo(marks, i, numRunnable, numSelected, states, c, shard, rows, selected) && i == |marks|
    ensures numSelected == CountAll(selected) && AllShow(marks, states, c, shard, rows, selected)
  {
    assert marks[..i] == marks;
  }

  lemma {:induction false} ShowAt(shown: seq<Marks>, states: seq<SuiteState>, c: Criteria, shard: Shard,
      rows: seq<seq<bool>>, selected: seq<seq<bool>>, k: nat)
    requires IsShard(shard) && k < |shown| <= |states| == |rows| == |selected|
    requires AllShow(shown, states, c, shard, rows, selected)
    ensures Show(shown[k], states[k].name, c, shard, RanksOf(rows, k), selected[k])
  {
    if k < |shown| - 1 {
      ShowAt(shown[..|shown| - 1], states, c, shard, rows, selected, k);
    }
  }

  /** Suite i is marked, and no other. */
  method FilterOne(suites: seq<TestSuite>, i: nat, ghost c: Criteria, alsoRunDisabledTests: bool,
      gtestFlagFilter: Filters.PositiveAndNegativeUnitTestFilter, disableTestFilter: Filters.UnitTestFilter,
      shardTests: ReactionToSharding, totalShards: int, shardIndex: int, numRunnable: nat, numSelected: nat,
      ghost rows: seq<seq<bool>>, ghost selected: seq<seq<bool>>)
    returns (numRunnable': nat, numSelected': nat)
    requires i < |suites| == |rows| && NoDuplicates(suites) && rows[i] == suites[i].Row(c)
    requires IsShard(ShardOf(shardTests, totalShards, shardIndex))
    requires AreFilters(gtestFlagFilter, disableTestFilter, c) && c.alsoRunDisabledTests == alsoRunDisabledTests
    requires selected == SelectedRows(rows, ShardOf(shardTests, totalShards, shardIndex))
    requires numRunnable == CountRows(rows, i) && numSelected == CountRows(selected, i)
    modifies suites`shouldRun, suites`testInfoList
    ensures States(suites) == old(States(suites))
    ensures numRunnable' == CountRows(rows, i + 1) && numSelected' == CountRows(selected, i + 1)
    ensures AllMarked(suites) == old(AllMarked(suites))[i := suites[i].Marked()]
    ensures Show(suites[i].Marked(), suites[i].name, c, ShardOf(shardTests, totalShards, shardIndex),
      RanksOf(rows, i), selected[i])
  {
    ghost var states, marks := States(suites), AllMarked(suites);
    assert forall k :: 0 <= k < |suites| && k != i ==> suites[k] != suites[i];
    numRunnable', numSelected' := FilterNext(suites[i], i, c, alsoRunDisabledTests, gtestFlagFilter,
      disableTestFilter, shardTests, totalShards, shardIndex, numRunnable, numSelected, rows, selected);
    assert States(suites) == states;
    assert AllMarked(suites) == marks[i := suites[i].Marked()];
  }

  /** One round of the loop over all suites. */
  method FilterRound(suites: seq<TestSuite>, i: nat, ghost c: Criteria, alsoRunDisabledTests: bool,
      gtestFlagFilter: Filters.PositiveAndNegativeUnitTestFilter, disableTestFilter: Filters.UnitTestFilter,
      shardTests: ReactionToSharding, totalShards: int, shardIndex: int, numRunnable: nat, numSelected: nat,
      ghost states: seq<SuiteState>, ghost rows: seq<seq<bool>>, ghost selected: seq<seq<bool>>)
    returns (numRunnable': nat, numSelected': nat)
    requires i < |suites| && NoDuplicates(suites) && States(suites) == states
    requires IsShard(ShardOf(shardTests, totalShards, shardIndex))
    requires AreFilters(gtestFlagFilter, disableTestFilter, c) && c.alsoRunDisabledTests == alsoRunDisabledTests
    requires rows == RunnableRows(c, states)
    requires selected == SelectedRows(rows, ShardOf(shardTests, totalShards, shardIndex))
    requires FilteredUpTo(AllMarked(suites), i, numRunnable, numSelected, states, c,
      ShardOf(shardTests, totalShards, shardIndex), rows, selected)
    modifies suites`shouldRun, suites`testInfoList
    ensures States(suites) == states
    ensures FilteredUpTo(AllMarked(suites), i + 1, numRunnable', numSelected', states, c,
      ShardOf(shardTests, totalShards, shardIndex), rows, selected)
  {
    RowOf(suites[i], states, rows, i, c);
    ghost var marks := AllMarked(suites);
    numRunnable', numSelected' := FilterOne(suites, i, c, alsoRunDisabledTests, gtestFlagFilter, disableTestFilter,
      shardTests, totalShards, shardIndex, numRunnable, numSelected, rows, selected);
    FilteredNext(marks, AllMarked(suites), i, numRunnable, numSelected, numRunnable', numSelected',
      states, c, ShardOf(shardTests, totalShards, shardIndex), rows, selected);
  }

  /** The loop over all suites. */
  method FilterSuites(suites: seq<TestSuite>, ghost c: Criteria, alsoRunDisabledTests: bool,
      gtestFlagFilter: Filters.PositiveAndNegativeUnitTestFilter, disableTestFilter: Filters.UnitTestFilter,
      shardTests: ReactionToSharding, totalShards: int, shardIndex: int,
      ghost states: seq<SuiteState>, ghost rows: seq<seq<bool>>, ghost selected: seq<seq<bool>>)
    returns (numSelected: nat)
    requires NoDuplicates(suites) && States(suites) == states
    requires IsShard(ShardOf(shardTests, totalShards, shardIndex))
    requires AreFilters(gtestFlagFilter, disableTestFilter, c) && c.alsoRunDisabledTests == alsoRunDisabledTests
    requires rows == RunnableRows(c, states)
    requires selected == SelectedRows(rows, ShardOf(shardTests, totalShards, shardIndex))
    modifies suites`shouldRun, suites`testInfoList
    ensures numSelected == CountAll(selected)
    ensures States(suites) == states
    ensures AllShow(AllMarked(suites), states, c, ShardOf(shardTests, totalShards, shardIndex), rows, selected)
  {
    ghost var shard := ShardOf(shardTests, totalShards, shardIndex);
    numSelected := 0;
    var numRunnable := 0;
    var i := 0;
    NoneFiltered(AllMarked(suites), states, c, shard, rows, selected);
    while i < |suites|
      invariant States(suites) == states
      invariant FilteredUpTo(AllMarked(suites), i, numRunnable, numSelected, states, c, shard, rows, selected)
    {
      numRunnable, numSelected := FilterRound(suites, i, c, alsoRunDisabledTests, gtestFlagFilter, disableTestFilter,
        shardTests, totalShards, shardIndex, numRunnable, numSelected, states, rows, selected);
      i := i + 1;
    }
    AllFiltered(AllMarked(suites), i, numRunnable, numSelected, states, c, shard, rows, selected);
  }

  // ----- The unit test -----

  /** The tests that a shard selects. */
  ghost function SelectionOf(suites: seq<SuiteState>, flags: Flags, shard: Shard): (r: seq<seq<bool>>)
    requires IsShard(shard)
    ensures |r| == |suites|
  {
    SelectedRows(RunnableRows(CriteriaOf(flags), suites), shard)
  }

  /** All marks are those of filtering for the shard. */
  ghost predicate AreMarkedFor(marks: seq<Marks>, suites: seq<SuiteState>, flags: Flags, shard: Shard)
    requires IsShard(shard) && |marks| == |suites|
  {
    && (forall i :: 0 <= i < |marks| ==> TestNames(marks[i].tests) == suites[i].tests)
    && AllShow(marks, suites, CriteriaOf(flags), shard, RunnableRows(CriteriaOf(flags), suites),
         SelectionOf(suites, flags, shard))
  }

  method MatchesDeathTestSuiteFilter(name: string) returns (r: bool)
    ensures r <==> IsDeathSuite(name)
  {
    var deathTestSuiteFilter := new Filters.UnitTestFilter(Filters.DEATH_TEST_SUITE_FILTER);
    r := deathTestSuiteFilter.MatchesName(name);
  }

  class UnitTestImpl {
    var testSuites: seq<TestSuite>
    var testSuiteIndices: seq<int>
    var lastDeathTestSuite: int

    ghost function View(): Schedule
      reads this, testSuites
    {
      Schedule(States(testSuites), testSuiteIndices, lastDeathTestSuite)
    }

    ghost predicate Valid()
      reads this, testSuites
    {
      Sound(View())
    }

    /** The test is in the list of its suite. */
    ghost predicate Holds(testInfo: TestInfo)
      reads this, testSuites
    {
      exists s :: s in testSuites && s.name == testInfo.testSuiteName && testInfo in s.testInfoList
    }

    constructor ()
      ensures Valid() && View() == NOTHING_REGISTERED
    {
      testSuites, testSuiteIndices, lastDeathTestSuite := [], [], -1;
      new;
      NothingIsBuilt();
    }

    /** The suite at place i of the order in which suites run. */
    function GetMutableSuiteCase(i: int): (suite: TestSuite?)
      requires Valid()
      reads this, testSuites
    {
      OrderIsPermutation(testSuiteIndices, |testSuites|);
      var index := GetElementOr(testSuiteIndices, i, -1);
      assert 0 <= i < |testSuiteIndices| ==> testSuiteIndices[i] in testSuiteIndices;
      if index < 0 then null else testSuites[index]
    }

    /** The accessor behind the public one: it looks the index up, but then takes the suite stored at place i. */
    function GetTestSuiteAt(i: int): (suite: TestSuite?)
      requires Valid()
      reads this, testSuites
    {
      OrderIsPermutation(testSuiteIndices, |testSuites|);
      var index := GetElementOr(testSuiteIndices, i, -1);
      if index < 0 then null else testSuites[i]
    }

    /** The tests that the shard selects are marked and counted; the schedule stays as it is. */
    method FilterTests(flags: Flags, shardTests: ReactionToSharding, totalShards: int, shardIndex: int)
      returns (numSelectedTests: nat)
      requires Valid() && IsShard(ShardOf(shardTests, totalShards, shardIndex))
      modifies testSuites`shouldRun, testSuites`testInfoList
      ensures View() == old(View())
      ensures var shard := ShardOf(shardTests, totalShards, shardIndex);
        && numSelectedTests == CountAll(SelectionOf(View().suites, flags, shard))
        && numSelectedTests == CountAll(RunRows(AllMarked(testSuites)))
        && AreMarkedFor(AllMarked(testSuites), View().suites, flags, shard)
    {
      ghost var states := States(testSuites);
      SuitesDiffer(testSuites);
      var gtestFlagFilter := new Filters.PositiveAndNegativeUnitTestFilter(flags.filter);
      var disableTestFilter := new Filters.UnitTestFilter(Filters.DISABLE_TEST_FILTER);
      assert States(testSuites) == states;
      numSelectedTests := FilterSuites(testSuites, CriteriaOf(flags), flags.alsoRunDisabledTests,
        gtestFlagFilter, disableTestFilter, shardTests, totalShards, shardIndex, states,
        RunnableRows(CriteriaOf(flags), states),
        SelectionOf(states, flags, ShardOf(shardTests, totalShards, shardIndex)));
      SelectionIsRun(AllMarked(testSuites), states, flags, ShardOf(shardTests, totalShards, shardIndex));
    }

    /** The search goes backwards. */
    method FindTestSuite(name: string) returns (k: int)
      ensures k == LastNamed(States(testSuites), name)
    {
      k := |testSuites| - 1;
      while k >= 0 && testSuites[k].name != name
        invariant -1 <= k < |testSuites|
        invariant forall i :: k < i < |testSuites| ==> testSuites[i].name != name
      {
        k := k - 1;
      }
      LastNamedAt(States(testSuites), name, k);
    }

    /** The suite of that name, which is created if there is none. */
    method GetTestSuite(name: string) returns (suite: TestSuite)
      requires Valid()
      modifies this
      ensures Valid() && View() == WithSuite(old(View()), name)
      ensures suite == testSuites[LastNamed(View().suites, name)]
      ensures suite.name == name && suite in testSuites
      ensures forall s :: s in testSuites ==> s in old(testSuites) || fresh(s)
    {
      var k := FindTestSuite(name);
      if k >= 0 {
        return testSuites[k];
      }
      NewSuiteIsSound(View(), name);
      suite := AddTestSuite(name);
      var i :| 0 <= i < |testSuites| && testSuites[i] == suite;
      UniqueName(View().suites, i, LastNamed(View().suites, name));
    }

    method AddTestSuite(name: string) returns (suite: TestSuite)
      requires InBounds(View())
      modifies this
      ensures fresh(suite) && suite in testSuites && suite.name == name
      ensures View() == WithNewSuite(old(View()), name)
      ensures forall s :: s in testSuites ==> s in old(testSuites) || s == suite
    {
      ghost var suites, states := testSuites, States(testSuites);
      suite := new TestSuite(name);
      var isDeathSuite := MatchesDeathTestSuiteFilter(name);
      ghost var at := if isDeathSuite then lastDeathTestSuite + 1 else |testSuites|;
      if isDeathSuite {
        lastDeathTestSuite := lastDeathTestSuite + 1;
        testSuites := testSuites[..lastDeathTestSuite] + [suite] + testSuites[lastDeathTestSuite..];
      } else {
        testSuites := testSuites + [suite];
      }
      testSuiteIndices := testSuiteIndices + [|testSuiteIndices|];
      assert testSuites == Inserted(suites, at, suite);
      InsertedMembers(suites, at, suite);
      StatesInserted(suites, at, suite);
      assert States(suites) == states;
    }

    /** A test is added to its suite. */
    method AddTestInfo(testInfo: TestInfo)
      requires Valid()
      modifies this, testSuites
      ensures Valid() && View() == Registered(old(View()), testInfo.testSuiteName, testInfo.name) && Holds(testInfo)
      ensures forall s :: s in testSuites ==> s in old(testSuites) || fresh(s)
    {
      RegistrationIsSound(View(), testInfo.testSuiteName, testInfo.name);
      var suite := GetTestSuite(testInfo.testSuiteName);
      AddTestTo(suite, LastNamed(View().suites, testInfo.testSuiteName), testInfo);
    }

    method AddTestTo(suite: TestSuite, ghost i: nat, testInfo: TestInfo)
      requires NoDuplicates(Names(States(testSuites))) && i < |testSuites| && suite == testSuites[i]
      modifies suite
      ensures States(testSuites) == WithTestAt(old(States(testSuites)), i, testInfo.name)
      ensures testInfo in suite.testInfoList
    {
      ghost var states := States(testSuites);
      OthersDiffer(testSuites, states, i);
      suite.AddTestInfo(testInfo);
      StatesUpdated(testSuites, i, states);
    }

    /** The result is exactly the shuffle for the numbers drawn: first for the death suites, then for the other
        suites, then for the tests of each suite. */
    method ShuffleTests(random: Random)
      returns (ghost death: seq<nat>, ghost others: seq<nat>, ghost each: seq<seq<nat>>)
      requires InBounds(View()) && NoDuplicates(Names(View().suites))
      modifies this`testSuiteIndices, testSuites, random
      ensures IsShuffleBy(View(), old(View()), death, others, each)
      ensures random.drawn == old(random.drawn) + death + others + Joined(each)
    {
      ghost var was := View();
      SuitesDiffer(testSuites);
      death, others := ShuffleIndices(random);
      assert States(testSuites) == was.suites;
      ghost var indices := testSuiteIndices;
      each := ShuffleSuites(testSuites, random, was.suites);
      assert View() == Schedule(States(testSuites), indices, was.lastDeath);
      PartsShuffled(Schedule(States(testSuites), indices, was.lastDeath), was, death, others, each);
    }

    /** The death suites are shuffled among themselves, and so are the others. */
    method ShuffleIndices(random: Random) returns (ghost death: seq<nat>, ghost others: seq<nat>)
      requires -1 <= lastDeathTestSuite < |testSuites| == |testSuiteIndices|
      modifies this`testSuiteIndices, random
      ensures random.drawn == old(random.drawn) + death + others
      ensures IndicesShuffledBy(testSuiteIndices, old(testSuiteIndices), lastDeathTestSuite, death, others)
    {
      testSuiteIndices, death := ShuffleRange(random, 0, lastDeathTestSuite + 1, testSuiteIndices);
      testSuiteIndices, others := ShuffleRange(random, lastDeathTestSuite + 1, |testSuites|, testSuiteIndices);
    }

    method UnshuffleTests()
      requires InBounds(View()) && NoDuplicates(Names(View().suites))
      modifies this`testSuiteIndices, testSuites
      ensures View() == Unshuffled(old(View()))
    {
      ghost var was := States(testSuites);
      SuitesDiffer(testSuites);
      for i := 0 to |testSuites|
        invariant |testSuiteIndices| == |testSuites|
        invariant forall k :: 0 <= k < i ==> testSuiteIndices[k] == k
        invariant forall k :: 0 <= k < i ==> testSuites[k].State() == UnshuffledSuite(was[k])
        invariant forall k :: i <= k < |testSuites| ==> testSuites[k].State() == was[k]
      {
        assert forall k :: 0 <= k < |testSuites| && k != i ==> testSuites[k] != testSuites[i];
        testSuites[i].UnshuffleTests();
        testSuiteIndices := testSuiteIndices[i := i];
      }
      assert States(testSuites) == Unshuffled(old(View())).suites;
    }
  }

  /** Each suite's tests are shuffled among themselves. */
  method ShuffleSuites(suites: seq<TestSuite>, random: Random, ghost was: seq<SuiteState>)
    returns (ghost each: seq<seq<nat>>)
    requires was == States(suites) && NoDuplicates(suites)
    modifies suites, random
    ensures random.drawn == old(random.drawn) + Joined(each) && SuitesShuffledBy(States(suites), was, each)
  {
    each := [];
    NothingShuffledYet(was);
    for i := 0 to |suites|
      invariant |each| == i && random.drawn == old(random.drawn) + Joined(each)
      invariant ShuffledUpTo(States(suites), was, each)
    {
      ghost var now := States(suites);
      ghost var draws := ShuffleOne(suites, i, random);
      JoinedGrows(each, draws);
      NextShuffled(now, States(suites), was, each, draws);
      each := each + [draws];
    }
    AllShuffled(States(suites), was, each);
  }

  /** Suite i is shuffled, and no other. */
  method ShuffleOne(suites: seq<TestSuite>, i: nat, random: Random) returns (ghost draws: seq<nat>)
    requires NoDuplicates(suites) && i < |suites|
    modifies suites`testIndices, random
    ensures random.drawn == old(random.drawn) + draws
    ensures States(suites) == old(States(suites))[i := suites[i].State()]
    ensures SuiteShuffledBy(suites[i].State(), old(suites[i].State()), draws)
  {
    ghost var was := States(suites);
    assert forall k :: 0 <= k < |suites| && k != i ==> suites[k] != suites[i];
    draws := suites[i].ShuffleTests(random);
    assert States(suites) == was[i := suites[i].State()];
  }

  lemma RowOf(suite: TestSuite, states: seq<SuiteState>, rows: seq<seq<bool>>, i: nat, c: Criteria)
    requires rows == RunnableRows(c, states) && i < |states| && suite.State() == states[i]
    ensures suite.Row(c) == rows[i]
  {
    RunnableUpToAt(c, states, |states|, i);
  }

  lemma SuitesDiffer(suites: seq<TestSuite>)
    requires NoDuplicates(Names(States(suites)))
    ensures NoDuplicates(suites)
  {
    assert forall k :: 0 <= k < |suites| ==> suites[k].name == Names(States(suites))[k];
  }

  lemma OthersDiffer(suites: seq<TestSuite>, states: seq<SuiteState>, i: nat)
    requires i < |suites| == |states| && NoDuplicates(Names(states))
    requires forall k :: 0 <= k < |suites| ==> suites[k].name == states[k].name
    ensures forall k :: 0 <= k < |suites| && k != i ==> suites[k] != suites[i]
  {
    assert forall k :: 0 <= k < |suites| ==> suites[k].name == Names(states)[k];
  }

  lemma StatesUpdated(suites: seq<TestSuite>, i: nat, states: seq<SuiteState>)
    requires i < |suites| == |states|
    requires forall k :: 0 <= k < |suites| && k != i ==> suites[k].State() == states[k]
    ensures States(suites) == states[i := suites[i].State()]
  {
  }

  ghost function States(suites: seq<TestSuite>): (r: seq<SuiteState>)
    reads suites
    ensures |r| == |suites| && forall i :: 0 <= i < |r| ==> r[i] == suites[i].State()
  {
    seq(|suites|, i requires 0 <= i < |suites| reads suites => suites[i].State())
  }

  lemma StatesInserted(suites: seq<TestSuite>, at: nat, suite: TestSuite)
    requires at <= |suites|
    ensures States(Inserted(suites, at, suite)) == Inserted(States(suites), at, suite.State())
  {
  }

  /** A test is made and registered. */
  method MakeAndRegisterTestInfo(impl: UnitTestImpl, testSuiteName: string, name: string) returns (testInfo: TestInfo)
    requires impl.Valid()
    modifies impl, impl.testSuites
    ensures testInfo == NewTestInfo(testSuiteName, name)
    ensures impl.Holds(testInfo)
    ensures impl.Valid() && impl.View() == Registered(old(impl.View()), testSuiteName, name)
  {
    testInfo := NewTestInfo(testSuiteName, name);
    impl.AddTestInfo(testInfo);
  }

  // ----- What callers see -----

  /** Through GetMutableSuiteCase every suite is seen at exactly one place, and nothing outside. */
  lemma EverySuiteIsSeenOnce(impl: UnitTestImpl, s: TestSuite)
    requires impl.Valid() && s in impl.testSuites
    ensures exists i :: 0 <= i < |impl.testSuites| && impl.GetMutableSuiteCase(i) == s
    ensures forall i, k :: impl.GetMutableSuiteCase(i) == s && impl.GetMutableSuiteCase(k) == s ==> i == k
    ensures forall i :: (i < 0 || i >= |impl.testSuites|) <==> impl.GetMutableSuiteCase(i) == null
  {
    var indices, suites := impl.testSuiteIndices, impl.testSuites;
    OrderIsPermutation(indices, |suites|);
    SuitesDiffer(suites);
    var at :| 0 <= at < |suites| && suites[at] == s;
    assert at in indices;
    var i :| 0 <= i < |indices| && indices[i] == at;
    assert impl.GetMutableSuiteCase(i) == s;
    forall i | 0 <= i < |indices| ensures 0 <= indices[i] < |suites| {
      assert indices[i] in indices;
    }
  }

  /** Through GetMutableSuiteCase no death suite is seen after another suite. */
  lemma DeathSuitesAreSeenFirst(impl: UnitTestImpl, i: nat, j: nat)
    requires impl.Valid() && DeathFirst(impl.View()) && i < j < |impl.testSuites|
    ensures impl.GetMutableSuiteCase(i) != null && impl.GetMutableSuiteCase(j) != null
    ensures IsDeathSuite(impl.GetMutableSuiteCase(j).name) ==> IsDeathSuite(impl.GetMutableSuiteCase(i).name)
  {
    var indices, n := impl.testSuiteIndices, |impl.testSuites|;
    OrderIsPermutation(indices, n);
    assert indices[i] in indices && indices[j] in indices;
    assert RunsDeathSuite(impl.View(), j) ==> RunsDeathSuite(impl.View(), i);
  }

  /** At one place the two accessors agree exactly if the order there is the stored one. */
  lemma AccessorsAgreeAt(impl: UnitTestImpl, i: int)
    requires impl.Valid()
    ensures impl.GetTestSuiteAt(i) == impl.GetMutableSuiteCase(i) <==>
            (0 <= i < |impl.testSuites| ==> impl.testSuiteIndices[i] == i)
  {
    OrderIsPermutation(impl.testSuiteIndices, |impl.testSuites|);
    SuitesDiffer(impl.testSuites);
    if 0 <= i < |impl.testSuites| {
      assert impl.testSuiteIndices[i] in impl.testSuiteIndices;
    }
  }

  /** GetTestSuiteAt gives the suites in the order in which they run exactly while they are not shuffled. */
  lemma AccessorsAgreeUnshuffled(impl: UnitTestImpl)
    requires impl.Valid()
    ensures (forall i :: impl.GetTestSuiteAt(i) == impl.GetMutableSuiteCase(i)) <==>
            impl.testSuiteIndices == Range(0, |impl.testSuites|)
  {
    var indices, n := impl.testSuiteIndices, |impl.testSuites|;
    OrderIsPermutation(indices, n);
    forall i ensures impl.GetTestSuiteAt(i) == impl.GetMutableSuiteCase(i) <==> (0 <= i < n ==> indices[i] == i) {
      AccessorsAgreeAt(impl, i);
    }
    if forall i :: impl.GetTestSuiteAt(i) == impl.GetMutableSuiteCase(i) {
      forall i | 0 <= i < n ensures indices[i] == i {
        assert impl.GetTestSuiteAt(i) == impl.GetMutableSuiteCase(i);
      }
      assert indices == Range(0, n);
    }
  }

  /** Whatever the order, GetTestSuiteAt still gives every suite at exactly one place: the one where it is stored. */
  lemma GetTestSuiteAtGivesStoredOrder(impl: UnitTestImpl, i: int)
    requires impl.Valid()
    ensures impl.GetTestSuiteAt(i) == if 0 <= i < |impl.testSuites| then impl.testSuites[i] else null
  {
    OrderIsPermutation(impl.testSuiteIndices, |impl.testSuites|);
    if 0 <= i < |impl.testSuites| {
      assert impl.testSuiteIndices[i] in impl.testSuiteIndices;
    }
  }

  /** Two suites run in exchanged places: either accessor gives the suite that the other gives at the other place. */
  lemma AccessorsDiffer(impl: UnitTestImpl)
    requires impl.Valid() && impl.testSuiteIndices == [1, 0]
    ensures impl.GetTestSuiteAt(0) != impl.GetMutableSuiteCase(0)
    ensures impl.GetTestSuiteAt(0) == impl.GetMutableSuiteCase(1)
    ensures impl.GetTestSuiteAt(1) == impl.GetMutableSuiteCase(0)
  {
    OrderIsPermutation(impl.testSuiteIndices, |impl.testSuites|);
    AccessorsAgreeAt(impl, 0);
  }

  // ----- What filtering means -----

  /** The name of a suite or test that is switched off. */
  ghost predicate LooksDisabled(name: string) {
    "DISABLED_" <= name || Filters.Contains(name, "/DISABLED_")
  }

  /** Which tests are to run. */
  ghost function RunRow(tests: seq<TestInfo>): (r: seq<bool>)
    ensures |r| == |tests| && forall j :: 0 <= j < |r| ==> r[j] == tests[j].shouldRun
  {
    seq(|tests|, j requires 0 <= j < |tests| => tests[j].shouldRun)
  }

  ghost function RunRows(marks: seq<Marks>): (r: seq<seq<bool>>)
    ensures |r| == |marks| && forall i :: 0 <= i < |r| ==> r[i] == RunRow(marks[i].tests)
  {
    seq(|marks|, i requires 0 <= i < |marks| => RunRow(marks[i].tests))
  }

  lemma SelectionIsRun(marks: seq<Marks>, suites: seq<SuiteState>, flags: Flags, shard: Shard)
    requires IsShard(shard) && |marks| == |suites|
    requires AllShow(marks, suites, CriteriaOf(flags), shard, RunnableRows(CriteriaOf(flags), suites),
      SelectionOf(suites, flags, shard))
    ensures RunRows(marks) == SelectionOf(suites, flags, shard)
  {
    var selected := SelectionOf(suites, flags, shard);
    forall i | 0 <= i < |marks| ensures RunRow(marks[i].tests) == selected[i] {
      ShowAt(marks, suites, CriteriaOf(flags), shard, RunnableRows(CriteriaOf(flags), suites), selected, i);
    }
  }

  /** Whatever the shard: a test is marked as disabled if its suite's name or its own looks so, and as matching if
      the filter selects its full name. */
  lemma MarkedByName(marks: seq<Marks>, suites: seq<SuiteState>, flags: Flags, shard: Shard, i: nat, j: nat)
    requires IsShard(shard) && i < |marks| == |suites| && AreMarkedFor(marks, suites, flags, shard)
    requires j < |suites[i].tests|
    ensures j < |marks[i].tests| && marks[i].tests[j].name == suites[i].tests[j]
    ensures marks[i].tests[j].isDisabled <==> LooksDisabled(suites[i].name) || LooksDisabled(suites[i].tests[j])
    ensures marks[i].tests[j].matchesFilter <==>
      Filters.Selects(flags.filter, suites[i].name + "." + suites[i].tests[j])
  {
    var c := CriteriaOf(flags);
    ShowAt(marks, suites, c, shard, RunnableRows(c, suites), SelectionOf(suites, flags, shard), i);
    assert TestNames(marks[i].tests)[j] == suites[i].tests[j];
    Filters.DisableFilterMeaning(suites[i].name);
    Filters.DisableFilterMeaning(suites[i].tests[j]);
  }

  /** Without sharding a test is to run if and only if the filter selects its full name, and neither its suite's name
      nor its own looks disabled, unless disabled tests run too. */
  lemma RunsWithoutSharding(marks: seq<Marks>, suites: seq<SuiteState>, flags: Flags, i: nat, j: nat)
    requires i < |marks| == |suites| && AreMarkedFor(marks, suites, flags, AllTests) && j < |suites[i].tests|
    ensures j < |marks[i].tests| && !marks[i].tests[j].isInAnotherShard
    ensures marks[i].tests[j].shouldRun <==>
      && Filters.Selects(flags.filter, suites[i].name + "." + suites[i].tests[j])
      && (flags.alsoRunDisabledTests || !(LooksDisabled(suites[i].name) || LooksDisabled(suites[i].tests[j])))
  {
    var c := CriteriaOf(flags);
    var rows := RunnableRows(c, suites);
    MarkedByName(marks, suites, flags, AllTests, i, j);
    ShowAt(marks, suites, c, AllTests, rows, SelectionOf(suites, flags, AllTests), i);
    RunnableUpToAt(c, suites, |suites|, i);
    SelectedAt(rows, AllTests, i);
  }

  /** On shard s of n a test is to run if and only if it is without sharding, and the number of tests before it that
      are leaves remainder s. */
  lemma RunsOnShard(all: seq<Marks>, marks: seq<Marks>, suites: seq<SuiteState>, flags: Flags, n: int, s: int,
      i: nat, j: nat)
    requires 0 <= s < n && i < |all| == |marks| == |suites|
    requires AreMarkedFor(all, suites, flags, AllTests) && AreMarkedFor(marks, suites, flags, Shard(n, s))
    requires j < |suites[i].tests|
    ensures j < |marks[i].tests| && j < |all[i].tests|
    ensures marks[i].tests[j].isInAnotherShard <==> Rank(RunRows(all), i, j) % n != s
    ensures marks[i].tests[j].shouldRun <==> all[i].tests[j].shouldRun && Rank(RunRows(all), i, j) % n == s
  {
    var c := CriteriaOf(flags);
    var rows := RunnableRows(c, suites);
    MarkedByName(marks, suites, flags, Shard(n, s), i, j);
    MarkedByName(all, suites, flags, AllTests, i, j);
    SelectionIsRun(all, suites, flags, AllTests);
    AllAreSelected(rows);
    MarkedOnHomeShard(marks, suites, flags, n, s, i);
    RunnableUpToAt(c, suites, |suites|, i);
  }

  /** After filtering for shard s of n, a test is in another shard exactly if s is not the remainder of its rank, is
      to run exactly if it is runnable and in this shard; and a suite is to run exactly if it holds such a test. */
  lemma MarkedOnHomeShard(marks: seq<Marks>, suites: seq<SuiteState>, flags: Flags, n: int, s: int, i: nat)
    requires 0 <= s < n && i < |suites| == |marks|
    requires AreMarkedFor(marks, suites, flags, Shard(n, s))
    ensures var c := CriteriaOf(flags);
      var rows := RunnableRows(c, suites);
      && |marks[i].tests| == |suites[i].tests| == |rows[i]|
      && (forall j :: 0 <= j < |suites[i].tests| ==>
            && (marks[i].tests[j].shouldRun <==>
                  IsRunnable(c, suites[i].name, suites[i].tests[j]) && Rank(rows, i, j) % n == s)
            && (marks[i].tests[j].isInAnotherShard <==> Rank(rows, i, j) % n != s))
      && (marks[i].shouldRun <==> exists j :: 0 <= j < |marks[i].tests| && marks[i].tests[j].shouldRun)
  {
    var c := CriteriaOf(flags);
    var rows, selected := RunnableRows(c, suites), SelectionOf(suites, flags, Shard(n, s));
    ShowAt(marks, suites, c, Shard(n, s), rows, selected, i);
    RunnableUpToAt(c, suites, |suites|, i);
    SelectedAt(rows, Shard(n, s), i);
    forall j | 0 <= j < |rows[i]|
      ensures marks[i].tests[j].shouldRun <==> rows[i][j] && Rank(rows, i, j) % n == s
      ensures marks[i].tests[j].isInAnotherShard <==> Rank(rows, i, j) % n != s
    {
      ResidueIsRemainder(Rank(rows, i, j), n);
      OnExactlyOneShard(rows, n, i, j);
      assert IsSelected(rows, Shard(n, s), i, j) <==> rows[i][j] && s == Rank(rows, i, j) % n;
    }
  }
}
