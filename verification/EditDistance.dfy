/** Edit scripts between two sequences, by a cost table and back-tracking. Costs are counted in
    hundred-thousandths, so an add or remove costs 100000 and a replace 100001. */
module EditDistance {

  datatype EditType = Match | Add | Remove | Replace

  const UNIT := 100000

  function Weight(edit: EditType): nat {
    match edit
    case Match => 0
    case Add => UNIT
    case Remove => UNIT
    case Replace => UNIT + 1
  }

  // ----- Scripts -----

  /** Reading both sequences from their ends, the script accounts for every element of each. */
  ghost predicate IsScript<T>(edits: seq<EditType>, left: seq<T>, right: seq<T>)
    decreases |edits|
  {
    if edits == [] then
      left == [] && right == []
    else
      var n, i, j := |edits| - 1, |left|, |right|;
      match edits[n]
      case Match =>
        i > 0 && j > 0 && left[i - 1] == right[j - 1] && IsScript(edits[..n], left[..i - 1], right[..j - 1])
      case Replace =>
        i > 0 && j > 0 && left[i - 1] != right[j - 1] && IsScript(edits[..n], left[..i - 1], right[..j - 1])
      case Add => j > 0 && IsScript(edits[..n], left, right[..j - 1])
      case Remove => i > 0 && IsScript(edits[..n], left[..i - 1], right)
  }

  ghost function ScriptCost(edits: seq<EditType>): nat {
    if edits == [] then 0 else ScriptCost(edits[..|edits| - 1]) + Weight(edits[|edits| - 1])
  }

  ghost predicate IsOptimal<T>(edits: seq<EditType>, left: seq<T>, right: seq<T>) {
    && IsScript(edits, left, right)
    && forall other :: IsScript(other, left, right) ==> ScriptCost(edits) <= ScriptCost(other)
  }

  // ----- The table -----

  /** Which move the table prefers for two unequal elements, given the costs of the three neighbours. */
  function Choose(add: int, remove: int, replace: int): EditType {
    if add < remove && add < replace then Add
    else if remove < add && remove < replace then Remove
    else Replace
  }

  ghost function Move<T>(left: seq<T>, right: seq<T>, i: nat, j: nat): EditType
    requires i <= |left| && j <= |right|
    decreases i + j, 0
  {
    if j == 0 then Remove
    else if i == 0 then Add
    else if left[i - 1] == right[j - 1] then Match
    else Choose(Cost(left, right, i, j - 1), Cost(left, right, i - 1, j), Cost(left, right, i - 1, j - 1))
  }

  ghost function Cost<T>(left: seq<T>, right: seq<T>, i: nat, j: nat): nat
    requires i <= |left| && j <= |right|
    decreases i + j, 1
  {
    if i == 0 && j == 0 then 0
    else
      match Move(left, right, i, j)
      case Match => Cost(left, right, i - 1, j - 1)
      case Add => Cost(left, right, i, j - 1) + UNIT
      case Remove => Cost(left, right, i - 1, j) + UNIT
      case Replace => Cost(left, right, i - 1, j - 1) + UNIT + 1
  }

  /** Equal elements are matched at no cost. Of unequal ones the right is added, or the left removed, only where that is
      strictly cheaper than both other moves; on every tie, the left is replaced by the right. */
  lemma CellMeans<T>(left: seq<T>, right: seq<T>, i: nat, j: nat)
    requires 0 < i <= |left| && 0 < j <= |right|
    ensures var add, remove, replace :=
        Cost(left, right, i, j - 1), Cost(left, right, i - 1, j), Cost(left, right, i - 1, j - 1);
      var move, cost := Move(left, right, i, j), Cost(left, right, i, j);
      && (left[i - 1] == right[j - 1] ==> move == Match && cost == replace)
      && (left[i - 1] != right[j - 1] ==>
            && (add < remove && add < replace ==> move == Add && cost == add + 100000)
            && (remove < add && remove < replace ==> move == Remove && cost == remove + 100000)
            && (add == remove || (replace <= add && replace <= remove) ==>
                  move == Replace && cost == replace + 100001))
  {
  }

  /** The script that back-tracking from cell (i, j) recovers. */
  ghost function Path<T>(left: seq<T>, right: seq<T>, i: nat, j: nat): seq<EditType>
    requires i <= |left| && j <= |right|
    decreases i + j
  {
    if i == 0 && j == 0 then []
    else
      var move := Move(left, right, i, j);
      Path(left, right, if move == Add then i else i - 1, if move == Remove then j else j - 1) + [move]
  }

  lemma {:induction false} EdgeCost<T>(left: seq<T>, right: seq<T>, i: nat, j: nat)
    requires i <= |left| && j <= |right| && (i == 0 || j == 0)
    ensures Cost(left, right, i, j) == (i + j) * UNIT
    decreases i + j
  {
    if i > 0 {
      EdgeCost(left, right, i - 1, j);
    } else if j > 0 {
      EdgeCost(left, right, i, j - 1);
    }
  }

  // ----- What the recovered script promises -----

  /** A script for shorter prefixes, followed by a move that fits, is a script for the longer ones. */
  lemma ExtendScript<T>(edits: seq<EditType>, move: EditType, left: seq<T>, right: seq<T>, i: nat, j: nat)
    requires i <= |left| && j <= |right|
    requires (move != Add ==> i > 0) && (move != Remove ==> j > 0)
    requires (move == Match ==> left[i - 1] == right[j - 1]) && (move == Replace ==> left[i - 1] != right[j - 1])
    requires IsScript(edits, left[..if move == Add then i else i - 1], right[..if move == Remove then j else j - 1])
    ensures IsScript(edits + [move], left[..i], right[..j])
    ensures ScriptCost(edits + [move]) == ScriptCost(edits) + Weight(move)
  {
    assert (edits + [move])[..|edits|] == edits;
    assert i > 0 ==> left[..i][..i - 1] == left[..i - 1];
    assert j > 0 ==> right[..j][..j - 1] == right[..j - 1];
  }

  /** The recovered script turns the one prefix into the other, uses Match only on equal and Replace only
      on unequal elements, and costs what its table cell says. */
  lemma {:induction false} PathIsScript<T>(left: seq<T>, right: seq<T>, i: nat, j: nat)
    requires i <= |left| && j <= |right|
    ensures IsScript(Path(left, right, i, j), left[..i], right[..j])
    ensures ScriptCost(Path(left, right, i, j)) == Cost(left, right, i, j)
    decreases i + j
  {
    if i > 0 || j > 0 {
      var move := Move(left, right, i, j);
      var i', j' := if move == Add then i else i - 1, if move == Remove then j else j - 1;
      PathIsScript(left, right, i', j');
      ExtendScript(Path(left, right, i', j'), move, left, right, i, j);
    }
  }

  lemma {:induction false} CostBound<T>(left: seq<T>, right: seq<T>, i: nat, j: nat)
    requires i <= |left| && j <= |right|
    ensures Cost(left, right, i, j) <= (UNIT + 1) * if i > j then i else j
    decreases i + j
  {
    if i == 0 || j == 0 {
      EdgeCost(left, right, i, j);
    } else {
      CostBound(left, right, i - 1, j - 1);
    }
  }

  lemma {:induction false} FreeScriptIsEquality<T>(edits: seq<EditType>, left: seq<T>, right: seq<T>)
    requires IsScript(edits, left, right) && ScriptCost(edits) == 0
    ensures left == right
    decreases |edits|
  {
    if edits != [] {
      FreeScriptIsEquality(edits[..|edits| - 1], left[..|left| - 1], right[..|right| - 1]);
      assert left == left[..|left| - 1] + [left[|left| - 1]];
      assert right == right[..|right| - 1] + [right[|right| - 1]];
    }
  }

  lemma {:induction false} EqualPrefixesAreFree<T>(left: seq<T>, right: seq<T>, i: nat)
    requires i <= |left| && i <= |right| && left[..i] == right[..i]
    ensures Cost(left, right, i, i) == 0
  {
    if i > 0 {
      assert left[i - 1] == left[..i][i - 1] == right[..i][i - 1] == right[i - 1];
      assert left[..i - 1] == left[..i][..i - 1] == right[..i][..i - 1] == right[..i - 1];
      EqualPrefixesAreFree(left, right, i - 1);
    }
  }

  /** The result costs at most a replace per position, and nothing exactly when the sequences are equal. */
  lemma ResultCost<T>(left: seq<T>, right: seq<T>)
    ensures Cost(left, right, |left|, |right|) <= (UNIT + 1) * if |left| > |right| then |left| else |right|
    ensures Cost(left, right, |left|, |right|) == 0 <==> left == right
  {
    CostBound(left, right, |left|, |right|);
    PathIsScript(left, right, |left|, |right|);
    assert left[..|left|] == left && right[..|right|] == right;
    if left == right {
      EqualPrefixesAreFree(left, right, |left|);
    } else if Cost(left, right, |left|, |right|) == 0 {
      FreeScriptIsEquality(Path(left, right, |left|, |right|), left, right);
    }
  }

  // ----- When the result is optimal -----

  /** The branch that loses optimality: a replace is taken although adding or removing is no dearer. */
  ghost predicate FallsThrough<T>(left: seq<T>, right: seq<T>, i: nat, j: nat)
    requires i <= |left| && j <= |right|
  {
    && i > 0 && j > 0 && Move(left, right, i, j) == Replace
    && (Cost(left, right, i, j - 1) <= Cost(left, right, i - 1, j - 1)
        || Cost(left, right, i - 1, j) <= Cost(left, right, i - 1, j - 1))
  }

  ghost predicate NeverFallsThrough<T>(left: seq<T>, right: seq<T>) {
    forall i, j :: 0 <= i <= |left| && 0 <= j <= |right| ==> !FallsThrough(left, right, i, j)
  }

  ghost predicate OptimalEverywhere<T>(left: seq<T>, right: seq<T>) {
    forall i, j :: 0 <= i <= |left| && 0 <= j <= |right| ==>
      IsOptimal(Path(left, right, i, j), left[..i], right[..j])
  }

  /** Neighbouring cells of a table without fall-through differ by at most one unit. */
  lemma {:induction false} NeighboursClose<T>(left: seq<T>, right: seq<T>, i: nat, j: nat)
    requires i <= |left| && j <= |right| && NeverFallsThrough(left, right)
    ensures i > 0 ==> -UNIT <= Cost(left, right, i, j) - Cost(left, right, i - 1, j) <= UNIT
    ensures j > 0 ==> -UNIT <= Cost(left, right, i, j) - Cost(left, right, i, j - 1) <= UNIT
    decreases i + j
  {
    if i == 0 || j == 0 {
      EdgeCost(left, right, i, j);
      if i > 0 {
        EdgeCost(left, right, i - 1, j);
      }
      if j > 0 {
        EdgeCost(left, right, i, j - 1);
      }
    } else {
      NeighboursClose(left, right, i - 1, j);
      NeighboursClose(left, right, i, j - 1);
      assert !FallsThrough(left, right, i, j);
    }
  }

  /** Without fall-through no script is cheaper than the table cell. */
  lemma {:induction false} NoCheaperScript<T>(left: seq<T>, right: seq<T>, i: nat, j: nat, edits: seq<EditType>)
    requires i <= |left| && j <= |right| && NeverFallsThrough(left, right)
    requires IsScript(edits, left[..i], right[..j])
    ensures Cost(left, right, i, j) <= ScriptCost(edits)
    decreases |edits|
  {
    if edits != [] {
      var n := |edits| - 1;
      assert i > 0 ==> left[..i][..i - 1] == left[..i - 1];
      assert j > 0 ==> right[..j][..j - 1] == right[..j - 1];
      NeighboursClose(left, right, i, j);
      assert !FallsThrough(left, right, i, j);
      NoCheaperScript(left, right, if edits[n] == Add then i else i - 1, if edits[n] == Remove then j else j - 1,
                      edits[..n]);
    }
  }

  /** A cell that falls through is beaten by ending with the cheaper add or remove. */
  lemma FallThroughIsBeaten<T>(left: seq<T>, right: seq<T>, i: nat, j: nat)
    requires i <= |left| && j <= |right| && FallsThrough(left, right, i, j)
    ensures !IsOptimal(Path(left, right, i, j), left[..i], right[..j])
  {
    var cost := FallThroughCost(left, right, i, j);
    if Cost(left, right, i, j - 1) <= cost {
      BeatenByPath(left, right, i, j, Add, i, j - 1);
    } else {
      BeatenByPath(left, right, i, j, Remove, i - 1, j);
    }
  }

  lemma FallThroughCost<T>(left: seq<T>, right: seq<T>, i: nat, j: nat) returns (cost: nat)
    requires i <= |left| && j <= |right| && FallsThrough(left, right, i, j)
    ensures i > 0 && j > 0 && Cost(left, right, i, j) == cost + UNIT + 1
    ensures Cost(left, right, i, j - 1) <= cost || Cost(left, right, i - 1, j) <= cost
  {
    cost := Cost(left, right, i - 1, j - 1);
  }

  lemma BeatenByPath<T>(left: seq<T>, right: seq<T>, i: nat, j: nat, move: EditType, i': nat, j': nat)
    requires i <= |left| && j <= |right| && i' <= i && j' <= j
    requires (move == Add && i' == i && j' == j - 1) || (move == Remove && i' == i - 1 && j' == j)
    requires Cost(left, right, i', j') + UNIT < Cost(left, right, i, j)
    ensures !IsOptimal(Path(left, right, i, j), left[..i], right[..j])
  {
    PathIsScript(left, right, i', j');
    BeatenBy(left, right, i, j, move, Path(left, right, i', j'));
  }

  /** A script that is cheaper than the cell's, ending with the given move. */
  lemma BeatenBy<T>(left: seq<T>, right: seq<T>, i: nat, j: nat, move: EditType, shorter: seq<EditType>)
    requires i <= |left| && j <= |right|
    requires (move != Add ==> i > 0) && (move != Remove ==> j > 0)
    requires (move == Match ==> left[i - 1] == right[j - 1]) && (move == Replace ==> left[i - 1] != right[j - 1])
    requires IsScript(shorter, left[..if move == Add then i else i - 1], right[..if move == Remove then j else j - 1])
    requires ScriptCost(shorter) + Weight(move) < Cost(left, right, i, j)
    ensures !IsOptimal(Path(left, right, i, j), left[..i], right[..j])
  {
    PathIsScript(left, right, i, j);
    ExtendScript(shorter, move, left, right, i, j);
  }

  /** The scripts for all pairs of prefixes are optimal exactly when no cell falls through. */
  lemma OptimalIffNeverFallsThrough<T>(left: seq<T>, right: seq<T>)
    ensures OptimalEverywhere(left, right) <==> NeverFallsThrough(left, right)
  {
    if NeverFallsThrough(left, right) {
      forall i, j | 0 <= i <= |left| && 0 <= j <= |right|
        ensures IsOptimal(Path(left, right, i, j), left[..i], right[..j])
      {
        PathIsScript(left, right, i, j);
        forall other | IsScript(other, left[..i], right[..j])
          ensures Cost(left, right, i, j) <= ScriptCost(other)
        {
          NoCheaperScript(left, right, i, j, other);
        }
      }
    } else {
      var i, j :| 0 <= i <= |left| && 0 <= j <= |right| && FallsThrough(left, right, i, j);
      FallThroughIsBeaten(left, right, i, j);
      assert !IsOptimal(Path(left, right, i, j), left[..i], right[..j]);
    }
  }

  /** Back-tracking from (n, m) passes through the cell (i, j). */
  ghost predicate OnPath<T>(left: seq<T>, right: seq<T>, n: nat, m: nat, i: nat, j: nat)
    requires n <= |left| && m <= |right|
    decreases n + m
  {
    (n == i && m == j) ||
    ((n > 0 || m > 0) &&
     var move := Move(left, right, n, m);
     OnPath(left, right, if move == Add then n else n - 1, if move == Remove then m else m - 1, i, j))
  }

  lemma {:induction false} FallThroughOnPath<T>(left: seq<T>, right: seq<T>, n: nat, m: nat, i: nat, j: nat)
    requires n <= |left| && m <= |right| && i <= |left| && j <= |right|
    requires OnPath(left, right, n, m, i, j) && FallsThrough(left, right, i, j)
    ensures !IsOptimal(Path(left, right, n, m), left[..n], right[..m])
    decreases n + m
  {
    if n == i && m == j {
      FallThroughIsBeaten(left, right, i, j);
    } else {
      var move := Move(left, right, n, m);
      var n', m' := if move == Add then n else n - 1, if move == Remove then m else m - 1;
      FallThroughOnPath(left, right, n', m', i, j);
      PathIsScript(left, right, n', m');
      var better :| IsScript(better, left[..n'], right[..m']) && ScriptCost(better) < Cost(left, right, n', m');
      BetterExtends(left, right, n, m, n', m', better);
    }
  }

  /** A cheaper script for the cell before makes a cheaper one for this cell. */
  lemma BetterExtends<T>(left: seq<T>, right: seq<T>, n: nat, m: nat, n': nat, m': nat, better: seq<EditType>)
    requires n <= |left| && m <= |right| && (n > 0 || m > 0)
    requires var move := Move(left, right, n, m);
      n' == (if move == Add then n else n - 1) && m' == if move == Remove then m else m - 1
    requires IsScript(better, left[..n'], right[..m']) && ScriptCost(better) < Cost(left, right, n', m')
    ensures !IsOptimal(Path(left, right, n, m), left[..n], right[..m])
  {
    BeatenBy(left, right, n, m, Move(left, right, n, m), better);
  }

  /** The result itself is optimal if no cell falls through, and not optimal if one on its path does. */
  lemma ResultOptimality<T>(left: seq<T>, right: seq<T>)
    ensures NeverFallsThrough(left, right) ==> IsOptimal(Path(left, right, |left|, |right|), left, right)
    ensures forall i, j ::
              && 0 <= i <= |left| && 0 <= j <= |right|
              && OnPath(left, right, |left|, |right|, i, j) && FallsThrough(left, right, i, j) ==>
                !IsOptimal(Path(left, right, |left|, |right|), left, right)
  {
    assert left[..|left|] == left && right[..|right|] == right;
    OptimalIffNeverFallsThrough(left, right);
    assert OptimalEverywhere(left, right) ==>
        IsOptimal(Path(left, right, |left|, |right|), left[..|left|], right[..|right|]);
    forall i, j | && 0 <= i <= |left| && 0 <= j <= |right|
                  && OnPath(left, right, |left|, |right|, i, j) && FallsThrough(left, right, i, j)
      ensures !IsOptimal(Path(left, right, |left|, |right|), left, right)
    {
      FallThroughOnPath(left, right, |left|, |right|, i, j);
    }
  }

  lemma NotAlwaysOptimalTable()
    ensures FallsThrough("aba", "bab", 3, 3)
    ensures Path("aba", "bab", 3, 3) == [Replace, Replace, Replace]
  {
    var l, r := "aba", "bab";
    assert Cost(l, r, 1, 1) == UNIT + 1 && Cost(l, r, 1, 2) == UNIT && Cost(l, r, 2, 1) == UNIT;
    assert Move(l, r, 2, 2) == Replace && Cost(l, r, 2, 2) == 2 * UNIT + 2;
    assert Cost(l, r, 2, 3) == UNIT && Cost(l, r, 3, 2) == UNIT;
    assert Move(l, r, 3, 3) == Replace;
    assert Path(l, r, 1, 1) == [Replace] && Path(l, r, 2, 2) == [Replace, Replace];
  }

  /** A concrete loss: three replaces for two strings where remove, match, match, add would do. */
  lemma NotAlwaysOptimal()
    ensures Path("aba", "bab", 3, 3) == [Replace, Replace, Replace]
    ensures !IsOptimal(Path("aba", "bab", 3, 3), "aba", "bab")
  {
    NotAlwaysOptimalTable();
    FallThroughIsBeaten("aba", "bab", 3, 3);
    assert "aba"[..3] == "aba" && "bab"[..3] == "bab";
  }

  // ----- The least cost, for comparison -----

  function Min(a: nat, b: nat): nat {
    if a < b then a else b
  }

  /** The least cost of a script, by the plain recurrence: the cheapest of all moves that fit. */
  ghost function Distance<T>(left: seq<T>, right: seq<T>, i: nat, j: nat): nat
    requires i <= |left| && j <= |right|
    decreases i + j
  {
    if i == 0 then j * UNIT
    else if j == 0 then i * UNIT
    else
      var skip := Min(Distance(left, right, i, j - 1), Distance(left, right, i - 1, j)) + UNIT;
      var both := Distance(left, right, i - 1, j - 1) + if left[i - 1] == right[j - 1] then 0 else UNIT + 1;
      Min(skip, both)
  }

  lemma {:induction false} DistanceIsLeast<T>(left: seq<T>, right: seq<T>, i: nat, j: nat, edits: seq<EditType>)
    requires i <= |left| && j <= |right| && IsScript(edits, left[..i], right[..j])
    ensures Distance(left, right, i, j) <= ScriptCost(edits)
    decreases |edits|
  {
    if edits != [] {
      var n := |edits| - 1;
      assert i > 0 ==> left[..i][..i - 1] == left[..i - 1];
      assert j > 0 ==> right[..j][..j - 1] == right[..j - 1];
      DistanceIsLeast(left, right, if edits[n] == Add then i else i - 1, if edits[n] == Remove then j else j - 1,
                      edits[..n]);
    }
  }

  /** The cheapest last move, as the recurrence takes it. */
  ghost function BestMove<T>(left: seq<T>, right: seq<T>, i: nat, j: nat): EditType
    requires i <= |left| && j <= |right|
  {
    if j == 0 then Remove
    else if i == 0 then Add
    else if Distance(left, right, i, j) == Distance(left, right, i, j - 1) + UNIT then Add
    else if Distance(left, right, i, j) == Distance(left, right, i - 1, j) + UNIT then Remove
    else if left[i - 1] == right[j - 1] then Match
    else Replace
  }

  lemma {:induction false} DistanceIsReached<T>(left: seq<T>, right: seq<T>, i: nat, j: nat)
    returns (edits: seq<EditType>)
    requires i <= |left| && j <= |right|
    ensures IsScript(edits, left[..i], right[..j]) && ScriptCost(edits) == Distance(left, right, i, j)
    decreases i + j
  {
    edits := [];
    if i > 0 || j > 0 {
      var move := BestMove(left, right, i, j);
      var i', j' := if move == Add then i else i - 1, if move == Remove then j else j - 1;
      edits := DistanceIsReached(left, right, i', j');
      ExtendScript(edits, move, left, right, i, j);
      edits := edits + [move];
    }
  }

  /** The result is optimal exactly when its cost is that of the plain recurrence. */
  lemma ResultOptimalByDistance<T>(left: seq<T>, right: seq<T>)
    ensures IsOptimal(Path(left, right, |left|, |right|), left, right) <==>
            Cost(left, right, |left|, |right|) == Distance(left, right, |left|, |right|)
  {
    var n, m := |left|, |right|;
    assert left[..n] == left && right[..m] == right;
    PathIsScript(left, right, n, m);
    DistanceIsLeast(left, right, n, m, Path(left, right, n, m));
    var best := DistanceIsReached(left, right, n, m);
    if Cost(left, right, n, m) == Distance(left, right, n, m) {
      forall other | IsScript(other, left, right)
        ensures ScriptCost(Path(left, right, n, m)) <= ScriptCost(other)
      {
        DistanceIsLeast(left, right, n, m, other);
      }
    }
  }

  /** No cell on the way back falls through. */
  ghost predicate NoneOnPath<T>(left: seq<T>, right: seq<T>) {
    forall i, j :: 0 <= i <= |left| && 0 <= j <= |right| && OnPath(left, right, |left|, |right|, i, j) ==>
      !FallsThrough(left, right, i, j)
  }

  lemma CellsOfHarmless()
    ensures var l, r := "ab", "baa";
      Cost(l, r, 1, 1) == UNIT + 1 && Cost(l, r, 1, 2) == UNIT && Cost(l, r, 1, 3) == 2 * UNIT &&
      Cost(l, r, 2, 1) == UNIT && Cost(l, r, 2, 2) == 2 * UNIT + 2
  {
  }

  /** A cell off the way back may fall through and do no harm. */
  lemma OffPathCanBeHarmless()
    ensures FallsThrough("ab", "baa", 2, 2) && NoneOnPath("ab", "baa")
    ensures IsOptimal(Path("ab", "baa", 2, 3), "ab", "baa")
  {
    CellsOfHarmless();
    ResultOptimalByDistance("ab", "baa");
  }

  lemma CellsOfHarmful()
    ensures var l, r := "aba", "baac";
      Cost(l, r, 1, 1) == UNIT + 1 && Cost(l, r, 1, 2) == UNIT && Cost(l, r, 1, 3) == 2 * UNIT &&
      Cost(l, r, 2, 1) == UNIT && Cost(l, r, 2, 2) == 2 * UNIT + 2 && Cost(l, r, 2, 3) == 2 * UNIT + 1 &&
      Cost(l, r, 2, 4) == 3 * UNIT + 1 && Cost(l, r, 3, 3) == 2 * UNIT + 2 && Cost(l, r, 3, 4) == 3 * UNIT + 2
  {
    var l, r := "aba", "baac";
    assert Cost(l, r, 1, 1) == UNIT + 1 && Cost(l, r, 1, 2) == UNIT && Cost(l, r, 2, 1) == UNIT;
    assert Cost(l, r, 1, 3) == 2 * UNIT && Cost(l, r, 1, 4) == 3 * UNIT;
    assert Cost(l, r, 2, 2) == 2 * UNIT + 2 && Cost(l, r, 2, 3) == 2 * UNIT + 1 && Cost(l, r, 2, 4) == 3 * UNIT + 1;
    assert Cost(l, r, 3, 3) == 2 * UNIT + 2;
  }

  lemma DistanceOfHarmful()
    ensures Distance("aba", "baac", 3, 4) <= 3 * UNIT
  {
    var l, r := "aba", "baac";
    assert Distance(l, r, 1, 0) == UNIT && Distance(l, r, 2, 1) <= UNIT;
    assert Distance(l, r, 3, 2) <= UNIT && Distance(l, r, 3, 3) <= 2 * UNIT;
  }

  lemma WayBackOfHarmful(i: nat, j: nat)
    requires i <= 3 && j <= 4 && OnPath("aba", "baac", 3, 4, i, j)
    ensures (i == 3 && j == 4) || (i == 2 && j == 3) || (i == 1 && j == 2) || i == 0
  {
    var l, r := "aba", "baac";
    CellsOfHarmful();
    assert Move(l, r, 3, 4) == Replace && Move(l, r, 2, 3) == Replace && Move(l, r, 1, 2) == Match;
    assert OnPath(l, r, 2, 3, i, j) ==> (i == 2 && j == 3) || OnPath(l, r, 1, 2, i, j);
    assert OnPath(l, r, 1, 2, i, j) ==> (i == 1 && j == 2) || OnPath(l, r, 0, 1, i, j);
  }

  /** Or it may do harm, although no cell on the way back falls through. */
  lemma OffPathCanHarm()
    ensures FallsThrough("aba", "baac", 2, 2) && NoneOnPath("aba", "baac")
    ensures !IsOptimal(Path("aba", "baac", 3, 4), "aba", "baac")
  {
    var l, r := "aba", "baac";
    CellsOfHarmful();
    DistanceOfHarmful();
    ResultOptimalByDistance(l, r);
    forall i, j | 0 <= i <= 3 && 0 <= j <= 4 && OnPath(l, r, 3, 4, i, j)
      ensures !FallsThrough(l, r, i, j)
    {
      WayBackOfHarmful(i, j);
    }
  }

  // ----- Computing the table and the script -----

  ghost function Reversed<T>(s: seq<T>): seq<T> {
    seq(|s|, k requires 0 <= k < |s| => s[|s| - 1 - k])
  }

  /** The edges, the given number of further rows, and of the next row the given number of cells are filled in. */
  ghost predicate Filled<T>(left: seq<T>, right: seq<T>, costs: array2<int>, bestMove: array2<EditType>,
                            rows: nat, cells: nat)
    requires costs.Length0 == bestMove.Length0 == |left| + 1
    requires costs.Length1 == bestMove.Length1 == |right| + 1
    reads costs, bestMove
  {
    forall a, b {:trigger costs[a, b]} {:trigger bestMove[a, b]} ::
      0 <= a <= |left| && 0 <= b <= |right| && (a <= rows || b == 0 || (a == rows + 1 && b <= cells)) ==>
        costs[a, b] == Cost(left, right, a, b) && bestMove[a, b] == Move(left, right, a, b)
  }

  /** The first row and column: only adds or only removes. */
  method PopulateEdges<T>(left: seq<T>, right: seq<T>, costs: array2<int>, bestMove: array2<EditType>)
    requires costs.Length0 == bestMove.Length0 == |left| + 1
    requires costs.Length1 == bestMove.Length1 == |right| + 1
    modifies costs, bestMove
    ensures Filled(left, right, costs, bestMove, 0, 0)
  {
    for i := 0 to |left| + 1
      invariant forall a :: 0 <= a < i ==> costs[a, 0] == a * UNIT && bestMove[a, 0] == Remove
    {
      costs[i, 0] := i * UNIT;
      bestMove[i, 0] := Remove;
    }
    for j := 1 to |right| + 1
      invariant forall a :: 0 <= a <= |left| ==> costs[a, 0] == a * UNIT && bestMove[a, 0] == Remove
      invariant forall b :: 1 <= b < j ==> costs[0, b] == b * UNIT && bestMove[0, b] == Add
    {
      costs[0, j] := j * UNIT;
      bestMove[0, j] := Add;
    }
    forall a, b | 0 <= a <= |left| && 0 <= b <= |right| && (a == 0 || b == 0)
      ensures costs[a, b] == Cost(left, right, a, b) && bestMove[a, b] == Move(left, right, a, b)
    {
      EdgeCost(left, right, a, b);
    }
  }

  /** One cell from its three neighbours; nothing else changes. */
  method PopulateCell<T(==)>(left: seq<T>, right: seq<T>, costs: array2<int>, bestMove: array2<EditType>,
                             i: nat, j: nat)
    requires i < |left| && j < |right|
    requires costs.Length0 == bestMove.Length0 == |left| + 1
    requires costs.Length1 == bestMove.Length1 == |right| + 1
    requires costs[i, j] == Cost(left, right, i, j)
    requires costs[i + 1, j] == Cost(left, right, i + 1, j)
    requires costs[i, j + 1] == Cost(left, right, i, j + 1)
    modifies costs, bestMove
    ensures costs[i + 1, j + 1] == Cost(left, right, i + 1, j + 1)
    ensures bestMove[i + 1, j + 1] == Move(left, right, i + 1, j + 1)
    ensures forall a, b :: 0 <= a <= |left| && 0 <= b <= |right| && (a != i + 1 || b != j + 1) ==>
              costs[a, b] == old(costs[a, b]) && bestMove[a, b] == old(bestMove[a, b])
  {
    if left[i] == right[j] {
      costs[i + 1, j + 1] := costs[i, j];
      bestMove[i + 1, j + 1] := Match;
      return;
    }
    var add, remove, replace := costs[i + 1, j], costs[i, j + 1], costs[i, j];
    if add < remove && add < replace {
      costs[i + 1, j + 1] := add + UNIT;
      bestMove[i + 1, j + 1] := Add;
    } else if remove < add && remove < replace {
      costs[i + 1, j + 1] := remove + UNIT;
      bestMove[i + 1, j + 1] := Remove;
    } else {
      costs[i + 1, j + 1] := replace + UNIT + 1;
      bestMove[i + 1, j + 1] := Replace;
    }
  }

  method PopulateTable<T(==)>(left: seq<T>, right: seq<T>) returns (bestMove: array2<EditType>)
    ensures bestMove.Length0 == |left| + 1 && bestMove.Length1 == |right| + 1
    ensures forall a, b :: 0 <= a <= |left| && 0 <= b <= |right| ==> bestMove[a, b] == Move(left, right, a, b)
  {
    var costs := new int[|left| + 1, |right| + 1];
    bestMove := new EditType[|left| + 1, |right| + 1];
    PopulateEdges(left, right, costs, bestMove);
    for i := 0 to |left|
      invariant Filled(left, right, costs, bestMove, i, 0)
    {
      for j := 0 to |right|
        invariant Filled(left, right, costs, bestMove, i, j)
      {
        PopulateCell(left, right, costs, bestMove, i, j);
      }
    }
  }

  method CalculateOptimalEdits<T(==)>(left: seq<T>, right: seq<T>) returns (bestPath: seq<EditType>)
    ensures bestPath == Path(left, right, |left|, |right|)
    ensures IsScript(bestPath, left, right)
  {
    var bestMove := PopulateTable(left, right);
    var i, j := |left|, |right|;
    bestPath := [];
    while i > 0 || j > 0
      invariant 0 <= i <= |left| && 0 <= j <= |right|
      invariant Path(left, right, i, j) + Reversed(bestPath) == Path(left, right, |left|, |right|)
      decreases i + j
    {
      var move := bestMove[i, j];
      assert move == Move(left, right, i, j);
      assert Reversed(bestPath + [move]) == [move] + Reversed(bestPath);
      bestPath := bestPath + [move];
      i := if move != Add then i - 1 else i;
      j := if move != Remove then j - 1 else j;
    }
    bestPath := seq(|bestPath|, k requires 0 <= k < |bestPath| => bestPath[|bestPath| - 1 - k]);
    PathIsScript(left, right, |left|, |right|);
    assert left[..|left|] == left && right[..|right|] == right;
  }

  // ----- Interning strings -----

  /** All old strings keep their ids. */
  ghost predicate Extends(now: map<string, nat>, before: map<string, nat>) {
    forall s :: s in before ==> s in now && now[s] == before[s]
  }

  class InternalStrings {
    var ids: map<string, nat>

    /** Ids are given out in order and never shared. */
    ghost predicate Valid()
      reads this
    {
      && (forall s :: s in ids ==> ids[s] < |ids|)
      && (forall s, t :: s in ids && t in ids && ids[s] == ids[t] ==> s == t)
    }

    constructor ()
      ensures Valid() && ids == map[]
    {
      ids := map[];
    }

    method GetId(s: string) returns (id: nat)
      requires Valid()
      modifies this
      ensures Valid() && s in ids && ids[s] == id
      ensures Extends(ids, old(ids))
    {
      if s in ids {
        return ids[s];
      }
      id := |ids|;
      ids := ids[s := id];
    }
  }

  ghost predicate Interned(s: seq<string>, ids: map<string, nat>, interned: seq<nat>) {
    |interned| == |s| && forall i :: 0 <= i < |s| ==> s[i] in ids && ids[s[i]] == interned[i]
  }

  lemma InternedNext(s: seq<string>, i: nat, before: map<string, nat>, ids: map<string, nat>,
                     interned: seq<nat>, id: nat)
    requires i < |s| && Interned(s[..i], before, interned) && s[i] in ids && ids[s[i]] == id && Extends(ids, before)
    ensures Interned(s[..i + 1], ids, interned + [id])
  {
    assert s[..i + 1] == s[..i] + [s[i]];
  }

  lemma ExtendsOn(now: map<string, nat>, before: map<string, nat>, first: map<string, nat>)
    requires Extends(now, before) && Extends(before, first)
    ensures Extends(now, first)
  {
  }

  method Intern(table: InternalStrings, s: seq<string>) returns (interned: seq<nat>)
    requires table.Valid()
    modifies table
    ensures table.Valid() && Interned(s, table.ids, interned)
    ensures Extends(table.ids, old(table.ids))
  {
    interned := [];
    for i := 0 to |s|
      invariant table.Valid() && Interned(s[..i], table.ids, interned)
      invariant Extends(table.ids, old(table.ids))
    {
      ghost var before := table.ids;
      var id := table.GetId(s[i]);
      InternedNext(s, i, before, table.ids, interned, id);
      ExtendsOn(table.ids, before, old(table.ids));
      interned := interned + [id];
    }
    assert s[..|s|] == s;
  }

  /** The table depends only on which elements are equal. */
  lemma {:induction false} SameEqualitiesSameTable<A, B>(l1: seq<A>, r1: seq<A>, l2: seq<B>, r2: seq<B>, i: nat, j: nat)
    requires |l1| == |l2| && |r1| == |r2| && i <= |l1| && j <= |r1|
    requires forall a, b :: 0 <= a < |l1| && 0 <= b < |r1| ==> (l1[a] == r1[b] <==> l2[a] == r2[b])
    ensures Cost(l1, r1, i, j) == Cost(l2, r2, i, j)
    ensures Move(l1, r1, i, j) == Move(l2, r2, i, j)
    decreases i + j
  {
    if i == 0 || j == 0 {
      EdgeCost(l1, r1, i, j);
      EdgeCost(l2, r2, i, j);
    } else {
      SameEqualitiesSameTable(l1, r1, l2, r2, i - 1, j);
      SameEqualitiesSameTable(l1, r1, l2, r2, i, j - 1);
      SameEqualitiesSameTable(l1, r1, l2, r2, i - 1, j - 1);
      assert l1[i - 1] == r1[j - 1] <==> l2[i - 1] == r2[j - 1];
    }
  }

  lemma {:induction false} SameEqualitiesSamePath<A, B>(l1: seq<A>, r1: seq<A>, l2: seq<B>, r2: seq<B>, i: nat, j: nat)
    requires |l1| == |l2| && |r1| == |r2| && i <= |l1| && j <= |r1|
    requires forall a, b :: 0 <= a < |l1| && 0 <= b < |r1| ==> (l1[a] == r1[b] <==> l2[a] == r2[b])
    ensures Path(l1, r1, i, j) == Path(l2, r2, i, j)
    decreases i + j
  {
    SameEqualitiesSameTable(l1, r1, l2, r2, i, j);
    if i > 0 || j > 0 {
      var move := Move(l1, r1, i, j);
      SameEqualitiesSamePath(l1, r1, l2, r2, if move == Add then i else i - 1, if move == Remove then j else j - 1);
    }
  }

  /** The string version: the script over the ids is the script over the strings themselves. */
  method CalculateOptimalStringEdits(left: seq<string>, right: seq<string>) returns (edits: seq<EditType>)
    ensures edits == Path(left, right, |left|, |right|)
    ensures IsScript(edits, left, right)
  {
    var table := new InternalStrings();
    var leftIds := Intern(table, left);
    var rightIds := Intern(table, right);
    edits := CalculateOptimalEdits(leftIds, rightIds);
    SameEqualitiesSamePath(leftIds, rightIds, left, right, |left|, |right|);
    PathIsScript(left, right, |left|, |right|);
    assert left[..|left|] == left && right[..|right|] == right;
  }
}
