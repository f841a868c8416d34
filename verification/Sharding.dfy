/** Selecting runnable tests for shards: every row holds the tests of one suite. */
module Sharding {
  import opened Division

  // ----- Counting -----

  /** How many of the first n entries are true. */
  ghost function Count(row: seq<bool>, n: nat): nat
    requires n <= |row|
  {
    if n == 0 then 0 else Count(row, n - 1) + if row[n - 1] then 1 else 0
  }

  /** How many entries of the first n rows are true. */
  ghost function CountRows(rows: seq<seq<bool>>, n: nat): nat
    requires n <= |rows|
  {
    if n == 0 then 0 else CountRows(rows, n - 1) + Count(rows[n - 1], |rows[n - 1]|)
  }

  ghost function CountAll(rows: seq<seq<bool>>): nat {
    CountRows(rows, |rows|)
  }

  /** The number of runnable tests before test j of suite i. */
  ghost function Rank(rows: seq<seq<bool>>, i: nat, j: nat): nat
    requires i < |rows| && j <= |rows[i]|
  {
    CountRows(rows, i) + Count(rows[i], j)
  }

  // ----- Selection -----

  /** All tests, or those that one of several shards takes. */
  datatype Shard = AllTests | Shard(total: int, index: int)

  ghost predicate IsShard(shard: Shard) {
    shard.Shard? ==> 0 <= shard.index < shard.total
  }

  predicate ShouldRunTestOnShard(totalShards: int, shardIndex: int, testId: nat)
    requires 0 <= shardIndex < totalShards
  {
    testId % totalShards == shardIndex
  }

  /** The remainder, by repeated subtraction. */
  ghost function Residue(testId: nat, n: int): (r: int)
    requires n >= 1
    ensures 0 <= r < n
  {
    if testId < n then testId else Residue(testId - n, n)
  }

  lemma {:induction false} ResidueIsRemainder(testId: nat, n: int)
    requires n >= 1
    ensures Residue(testId, n) == testId % n
  {
    if testId >= n {
      ResidueIsRemainder(testId - n, n);
      QuotientIsUnique(testId, n, (testId - n) / n + 1, (testId - n) % n);
    }
  }

  ghost predicate Takes(shard: Shard, testId: nat)
    requires IsShard(shard)
  {
    shard.Shard? ==> Residue(testId, shard.total) == shard.index
  }

  ghost function SelectedRow(row: seq<bool>, before: nat, shard: Shard): (r: seq<bool>)
    requires IsShard(shard)
    ensures |r| == |row|
    ensures forall j {:trigger r[j]} :: 0 <= j < |row| ==> (r[j] <==> row[j] && Takes(shard, before + Count(row, j)))
  {
    seq(|row|, j requires 0 <= j < |row| => row[j] && Takes(shard, before + Count(row, j)))
  }

  ghost function SelectedUpTo(rows: seq<seq<bool>>, shard: Shard, n: nat): (r: seq<seq<bool>>)
    requires IsShard(shard) && n <= |rows|
    ensures |r| == n
  {
    if n == 0 then []
    else SelectedUpTo(rows, shard, n - 1) + [SelectedRow(rows[n - 1], CountRows(rows, n - 1), shard)]
  }

  /** The selected tests are the runnable ones whose rank the shard takes. */
  ghost function SelectedRows(rows: seq<seq<bool>>, shard: Shard): (r: seq<seq<bool>>)
    requires IsShard(shard)
    ensures |r| == |rows|
  {
    SelectedUpTo(rows, shard, |rows|)
  }

  lemma {:induction false} SelectedUpToAt(rows: seq<seq<bool>>, shard: Shard, n: nat, i: nat)
    requires IsShard(shard) && i < n <= |rows|
    ensures SelectedUpTo(rows, shard, n)[i] == SelectedRow(rows[i], CountRows(rows, i), shard)
  {
    if i < n - 1 {
      SelectedUpToAt(rows, shard, n - 1, i);
    }
  }

  lemma SelectedAt(rows: seq<seq<bool>>, shard: Shard, i: nat)
    requires IsShard(shard) && i < |rows|
    ensures SelectedRows(rows, shard)[i] == SelectedRow(rows[i], CountRows(rows, i), shard)
  {
    SelectedUpToAt(rows, shard, |rows|, i);
  }

  /** The two counters of a suite, as they go from test to test: runnable tests and selected ones. */
  ghost predicate AreCounters(row: seq<bool>, shard: Shard, ranks: seq<nat>, chosen: seq<nat>)
    requires IsShard(shard)
  {
    && |ranks| == |row| + 1 && |chosen| == |row| + 1
    && forall j {:trigger row[j]} :: 0 <= j < |row| ==>
         && ranks[j + 1] == ranks[j] + (if row[j] then 1 else 0)
         && chosen[j + 1] == chosen[j] + if row[j] && Takes(shard, ranks[j]) then 1 else 0
  }

  lemma {:induction false} SomeChosen(row: seq<bool>, shard: Shard, ranks: seq<nat>, chosen: seq<nat>, j: nat)
    requires IsShard(shard) && AreCounters(row, shard, ranks, chosen) && j <= |row|
    ensures chosen[0] <= chosen[j]
    ensures chosen[0] < chosen[j] <==> exists k :: 0 <= k < j && row[k] && Takes(shard, ranks[k])
  {
    if j > 0 {
      SomeChosen(row, shard, ranks, chosen, j - 1);
      var selected := row[j - 1] && Takes(shard, ranks[j - 1]);
      assert chosen[j] == chosen[j - 1] + if selected then 1 else 0;
    }
  }

  lemma SomeSelected(row: seq<bool>, shard: Shard, ranks: seq<nat>, chosen: seq<nat>, selected: seq<bool>)
    requires IsShard(shard) && AreCounters(row, shard, ranks, chosen) && |selected| == |row|
    requires forall j {:trigger selected[j]} :: 0 <= j < |row| ==> (selected[j] <==> row[j] && Takes(shard, ranks[j]))
    ensures true in selected <==> chosen[0] < chosen[|row|]
  {
    SomeChosen(row, shard, ranks, chosen, |row|);
    if true in selected {
      var j :| 0 <= j < |selected| && selected[j];
      assert row[j] && Takes(shard, ranks[j]);
    }
    if k :| 0 <= k < |row| && row[k] && Takes(shard, ranks[k]) {
      assert selected[k];
    }
  }

  /** Both counters as they go through suite i. */
  lemma RowCounters(rows: seq<seq<bool>>, selected: seq<seq<bool>>, shard: Shard, i: nat)
    returns (ranks: seq<nat>, chosen: seq<nat>)
    requires IsShard(shard) && selected == SelectedRows(rows, shard) && i < |rows|
    ensures AreCounters(rows[i], shard, ranks, chosen)
    ensures ranks[0] == CountRows(rows, i) && ranks[|rows[i]|] == CountRows(rows, i + 1)
    ensures chosen[0] == CountRows(selected, i) && chosen[|rows[i]|] == CountRows(selected, i + 1)
    ensures |selected[i]| == |rows[i]| && ranks == RanksOf(rows, i)
    ensures forall j {:trigger selected[i][j]} :: 0 <= j < |rows[i]| ==>
      (selected[i][j] <==> rows[i][j] && Takes(shard, ranks[j]))
  {
    var row, before, selectedBefore := rows[i], CountRows(rows, i), CountRows(selected, i);
    var selectedRow := SelectedRow(row, before, shard);
    SelectedAt(rows, shard, i);
    ranks, chosen := Counters(row, before), Counters(selectedRow, selectedBefore);
    CountersCount(row, selectedRow, shard, ranks, chosen);
  }

  lemma CountersCount(row: seq<bool>, selectedRow: seq<bool>, shard: Shard, ranks: seq<nat>, chosen: seq<nat>)
    requires IsShard(shard) && |selectedRow| == |row| && |ranks| == |row| + 1 && |chosen| == |row| + 1
    requires forall j {:trigger ranks[j]} :: 0 <= j <= |row| ==> ranks[j] == ranks[0] + Count(row, j)
    requires forall j {:trigger chosen[j]} :: 0 <= j <= |row| ==> chosen[j] == chosen[0] + Count(selectedRow, j)
    requires forall j {:trigger selectedRow[j]} :: 0 <= j < |row| ==>
      (selectedRow[j] <==> row[j] && Takes(shard, ranks[j]))
    ensures AreCounters(row, shard, ranks, chosen)
  {
  }

  ghost function Counters(row: seq<bool>, before: nat): (r: seq<nat>)
    ensures |r| == |row| + 1
    ensures forall j {:trigger r[j]} :: 0 <= j <= |row| ==> r[j] == before + Count(row, j)
  {
    seq(|row| + 1, j requires 0 <= j <= |row| => before + Count(row, j))
  }

  /** The numbers of runnable tests before each test of suite i, and before the next suite. */
  ghost function RanksOf(rows: seq<seq<bool>>, i: nat): (r: seq<nat>)
    requires i < |rows|
    ensures |r| == |rows[i]| + 1
    ensures forall j {:trigger r[j]} :: 0 <= j <= |rows[i]| ==> r[j] == Rank(rows, i, j)
  {
    Counters(rows[i], CountRows(rows, i))
  }

  /** Without shards exactly the runnable tests are selected. */
  lemma AllAreSelected(rows: seq<seq<bool>>)
    ensures SelectedRows(rows, AllTests) == rows
  {
    forall i | 0 <= i < |rows| ensures SelectedRows(rows, AllTests)[i] == rows[i] {
      SelectedAt(rows, AllTests, i);
    }
  }

  // ----- Properties of the shards together -----

  ghost predicate IsSelected(rows: seq<seq<bool>>, shard: Shard, i: nat, j: nat)
    requires IsShard(shard) && i < |rows| && j < |rows[i]|
  {
    var row := SelectedRows(rows, shard)[i];
    j < |row| && row[j]
  }

  /** Every runnable test is selected on exactly one of n shards, and no other test on any. */
  lemma OnExactlyOneShard(rows: seq<seq<bool>>, n: int, i: nat, j: nat)
    requires n >= 1 && i < |rows| && j < |rows[i]|
    ensures var home := Rank(rows, i, j) % n;
      && 0 <= home < n
      && forall s :: 0 <= s < n ==> (IsSelected(rows, Shard(n, s), i, j) <==> rows[i][j] && s == home)
  {
    ResidueIsRemainder(Rank(rows, i, j), n);
    forall s | 0 <= s < n ensures IsSelected(rows, Shard(n, s), i, j) <==> rows[i][j] && s == Rank(rows, i, j) % n {
      SelectedAt(rows, Shard(n, s), i);
    }
  }

  /** How many of the ranks below the total a shard takes. */
  ghost function Share(total: nat, shard: Shard): nat
    requires IsShard(shard)
  {
    if total == 0 then 0 else Share(total - 1, shard) + if Takes(shard, total - 1) then 1 else 0
  }

  lemma {:induction false} SelectedCountInRow(row: seq<bool>, before: nat, shard: Shard, j: nat)
    requires IsShard(shard) && j <= |row|
    ensures Share(before, shard) + Count(SelectedRow(row, before, shard), j) == Share(before + Count(row, j), shard)
  {
    if j > 0 {
      SelectedCountInRow(row, before, shard, j - 1);
    }
  }

  lemma SelectedCountNext(rows: seq<seq<bool>>, selected: seq<seq<bool>>, shard: Shard, i: nat)
    requires IsShard(shard) && i < |rows| == |selected|
    requires selected[i] == SelectedRow(rows[i], CountRows(rows, i), shard)
    requires CountRows(selected, i) == Share(CountRows(rows, i), shard)
    ensures CountRows(selected, i + 1) == Share(CountRows(rows, i + 1), shard)
  {
    SelectedCountInRow(rows[i], CountRows(rows, i), shard, |rows[i]|);
  }

  lemma {:induction false} SelectedCountInRows(rows: seq<seq<bool>>, selected: seq<seq<bool>>, shard: Shard, i: nat)
    requires IsShard(shard) && selected == SelectedRows(rows, shard) && i <= |rows|
    ensures CountRows(selected, i) == Share(CountRows(rows, i), shard)
  {
    if i > 0 {
      SelectedCountInRows(rows, selected, shard, i - 1);
      SelectedAt(rows, shard, i - 1);
      SelectedCountNext(rows, selected, shard, i - 1);
    }
  }

  /** The number of selected tests depends only on the number of runnable ones. */
  lemma SelectedCount(rows: seq<seq<bool>>, shard: Shard)
    requires IsShard(shard)
    ensures CountAll(SelectedRows(rows, shard)) == Share(CountAll(rows), shard)
  {
    SelectedCountInRows(rows, SelectedRows(rows, shard), shard, |rows|);
  }

  lemma {:induction false} ShareIsFair(total: nat, n: int, s: int)
    requires 0 <= s < n
    ensures Share(total, Shard(n, s)) == total / n + if s < total % n then 1 else 0
  {
    if total > 0 {
      ShareIsFair(total - 1, n, s);
      ResidueIsRemainder(total - 1, n);
      NextQuotient(total - 1, n);
    }
  }

  lemma NextQuotient(t: nat, n: int)
    requires n >= 1
    ensures if t % n == n - 1 then (t + 1) / n == t / n + 1 && (t + 1) % n == 0
      else (t + 1) / n == t / n && (t + 1) % n == t % n + 1
  {
    var q, r := t / n, t % n;
    if r == n - 1 {
      QuotientIsUnique(t + 1, n, q + 1, 0);
    } else {
      QuotientIsUnique(t + 1, n, q, r + 1);
    }
  }

  ghost function SelectedBy(rows: seq<seq<bool>>, n: int, s: int): nat
    requires 0 <= s < n
  {
    CountAll(SelectedRows(rows, Shard(n, s)))
  }

  /** The selected tests of the first k of n shards, added up. */
  ghost function SelectedByFirst(rows: seq<seq<bool>>, n: int, k: nat): nat
    requires k <= n
  {
    if k == 0 then 0 else SelectedByFirst(rows, n, k - 1) + SelectedBy(rows, n, k - 1)
  }

  /** q and r are quotient and remainder of the number of runnable tests by that of shards. */
  lemma SelectedByOne(rows: seq<seq<bool>>, n: int, s: int, q: int, r: int)
    requires 0 <= s < n && q == CountAll(rows) / n && r == CountAll(rows) % n
    ensures SelectedBy(rows, n, s) == q + if s < r then 1 else 0
  {
    SelectedCount(rows, Shard(n, s));
    ShareIsFair(CountAll(rows), n, s);
  }

  /** A number of shards take one test more than the others. */
  ghost predicate SharesAre(rows: seq<seq<bool>>, n: int, q: int, r: int) {
    forall s :: 0 <= s < n ==> SelectedBy(rows, n, s) == q + if s < r then 1 else 0
  }

  lemma {:induction false} SumOfShares(rows: seq<seq<bool>>, n: int, k: nat, q: int, r: int)
    requires k <= n && SharesAre(rows, n, q, r) && r >= 0
    ensures SelectedByFirst(rows, n, k) == k * q + if k < r then k else r
  {
    if k > 0 {
      SumOfShares(rows, n, k - 1, q, r);
      assert SelectedBy(rows, n, k - 1) == q + if k - 1 < r then 1 else 0;
      OneMore(k, q);
    }
  }

  lemma OneMore(k: int, q: int)
    ensures k * q == (k - 1) * q + q
  {
  }

  /** The shards together select as many tests as are runnable, and no two differ by more than one. */
  lemma ShardsShareAll(rows: seq<seq<bool>>, n: int)
    requires n >= 1
    ensures SelectedByFirst(rows, n, n) == CountAll(rows)
    ensures forall s, t :: 0 <= s < n && 0 <= t < n ==> SelectedBy(rows, n, s) <= SelectedBy(rows, n, t) + 1
  {
    var total := CountAll(rows);
    var q, r := total / n, total % n;
    forall s | 0 <= s < n ensures SelectedBy(rows, n, s) == q + if s < r then 1 else 0 {
      SelectedByOne(rows, n, s, q, r);
    }
    SumOfShares(rows, n, n, q, r);
    Recomposed(total, n);
  }

  lemma Recomposed(total: nat, n: int)
    requires n >= 1
    ensures n * (total / n) + total % n == total
  {
  }

  // ----- Reading the environment -----

  datatype Decision = Decided(shard: bool) | Fatal

  /** The values are those of the environment variables, -1 for an unset one. */
  function ShouldShard(totalShards: int, shardIndex: int, inSubprocessForDeathTest: bool): (d: Decision)
    ensures d == Decided(true) <==>
      !inSubprocessForDeathTest && IsShard(Shard(totalShards, shardIndex)) && totalShards > 1
    ensures d == Fatal <==> !inSubprocessForDeathTest && !(totalShards == shardIndex == -1)
                            && !IsShard(Shard(totalShards, shardIndex))
  {
    if inSubprocessForDeathTest then Decided(false)
    else if totalShards == -1 && shardIndex == -1 then Decided(false)
    else if totalShards == -1 && shardIndex != -1 then Fatal
    else if totalShards != -1 && shardIndex == -1 then Fatal
    else if shardIndex < 0 || shardIndex >= totalShards then Fatal
    else Decided(totalShards > 1)
  }
}
