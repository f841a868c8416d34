/** Wildcard patterns and the filters that select tests by name. */
module Glob {

  // ----- The meaning of a pattern -----

  /** '?' stands for any one character, '*' for any string, and every other character for itself. */
  ghost predicate Matches(pattern: string, name: string) {
    if pattern == "" then
      name == ""
    else if pattern[0] == '*' then
      exists k :: 0 <= k <= |name| && Matches(pattern[1..], name[k..])
    else
      name != "" && (pattern[0] == '?' || pattern[0] == name[0]) && Matches(pattern[1..], name[1..])
  }

  ghost predicate StarFree(pattern: string) {
    '*' !in pattern
  }

  /** The languages of the patterns of one symbol. */
  lemma SymbolsMean(c: char, name: string)
    ensures Matches(['?'], name) <==> |name| == 1
    ensures Matches(['*'], name)
    ensures c != '?' && c != '*' ==> (Matches([c], name) <==> name == [c])
  {
    OneSymbol('?', name);
    if c != '*' {
      OneSymbol(c, name);
    }
    StarMatchesAll(name);
    assert ['*'] == "*";
  }

  lemma StarMatchesAll(name: string)
    ensures Matches("*", name)
  {
    assert name[|name|..] == "" && "*"[1..] == "";
  }

  lemma OneSymbol(c: char, name: string)
    requires c != '*'
    ensures Matches([c], name) <==> |name| == 1 && (c == '?' || name[0] == c)
  {
    assert [c][1..] == "";
    assert name != "" ==> |name[1..]| == |name| - 1;
  }

  /** A star either matches nothing or takes one more character. */
  lemma StarStep(pattern: string, name: string)
    requires pattern != "" && pattern[0] == '*'
    ensures Matches(pattern, name) <==>
            Matches(pattern[1..], name) || (name != "" && Matches(pattern, name[1..]))
  {
    if Matches(pattern, name) {
      var k :| 0 <= k <= |name| && Matches(pattern[1..], name[k..]);
      if k == 0 {
        assert name[0..] == name;
      } else {
        assert name[1..][k - 1..] == name[k..];
      }
    }
    if Matches(pattern[1..], name) {
      assert name[0..] == name;
    }
    if name != "" && Matches(pattern, name[1..]) {
      var k :| 0 <= k <= |name[1..]| && Matches(pattern[1..], name[1..][k..]);
      assert name[1..][k..] == name[k + 1..];
    }
  }

  /** A star absorbs any skipped characters. */
  lemma StarAbsorbs(pattern: string, name: string, k: nat)
    requires pattern != "" && pattern[0] == '*' && k <= |name|
    requires Matches(pattern, name[k..])
    ensures Matches(pattern, name)
  {
    var j :| 0 <= j <= |name[k..]| && Matches(pattern[1..], name[k..][j..]);
    assert name[k..][j..] == name[k + j..];
  }

  /** A star-free segment consumes exactly its own length. */
  lemma {:induction false} SegmentConsumes(segment: string, rest: string, name: string)
    requires StarFree(segment) && Matches(segment + rest, name)
    ensures |segment| <= |name| && Matches(rest, name[|segment|..])
  {
    if segment == "" {
      assert segment + rest == rest && name[0..] == name;
    } else {
      assert (segment + rest)[1..] == segment[1..] + rest;
      SegmentConsumes(segment[1..], rest, name[1..]);
      assert name[1..][|segment| - 1..] == name[|segment|..];
    }
  }

  lemma AfterStar(pattern: string, name: string) returns (k: nat)
    requires pattern != "" && pattern[0] == '*' && Matches(pattern, name)
    ensures k <= |name| && Matches(pattern[1..], name[k..])
  {
    k :| 0 <= k <= |name| && Matches(pattern[1..], name[k..]);
  }

  lemma TailOfTail(s: string, a: nat, b: nat)
    requires a + b <= |s|
    ensures s[a..][b..] == s[a + b..]
  {
  }

  /** When a later star is reached, going back to the earlier one can be forgotten. */
  lemma LastStarSuffices(pattern: string, name: string, star: nat, from: nat, p: nat, n: nat)
    requires star < p < |pattern| && pattern[star] == '*' && pattern[p] == '*'
    requires StarFree(pattern[star + 1..p])
    requires 1 <= from <= |name| && n <= |name| && p - star - 1 == n - from + 1
    requires Matches(pattern[star..], name[from..])
    ensures Matches(pattern[p..], name[n..])
  {
    assert pattern[star..][1..] == pattern[star + 1..p] + pattern[p..];
    var k := AfterStar(pattern[star..], name[from..]);
    SegmentConsumes(pattern[star + 1..p], pattern[p..], name[from..][k..]);
    TailOfTail(name, from, k);
    TailOfTail(name, from + k, p - star - 1);
    TailOfTail(name, n, k + 1);
    StarAbsorbs(pattern[p..], name[n..], k + 1);
  }

  // ----- The matcher -----

  /** The state after some star was read: either just sent back to it, or past it by a star-free segment
      that consumed one name character per pattern character. */
  ghost predicate PastStar(pattern: string, p: nat, n: nat, star: nat, from: nat) {
    && star < |pattern| && pattern[star] == '*' && star <= p <= |pattern|
    && ((p == star && n == from)
        || (star < p && p - star - 1 == n - from + 1 && StarFree(pattern[star + 1..p])))
  }

  ghost predicate MatchesFrom(pattern: string, name: string, p: nat, n: nat) {
    p <= |pattern| && n <= |name| && Matches(pattern[p..], name[n..])
  }

  lemma StarRead(pattern: string, name: string, p: nat, n: nat)
    requires p < |pattern| && n <= |name| && pattern[p] == '*'
    ensures MatchesFrom(pattern, name, p, n) <==>
            MatchesFrom(pattern, name, p + 1, n) || MatchesFrom(pattern, name, p, n + 1)
  {
    StarStep(pattern[p..], name[n..]);
    assert pattern[p..][1..] == pattern[p + 1..];
    if n < |name| {
      assert name[n..][1..] == name[n + 1..];
    }
  }

  lemma CharacterRead(pattern: string, name: string, p: nat, n: nat)
    requires p < |pattern| && n < |name|
    requires pattern[p] != '*' && (pattern[p] == '?' || pattern[p] == name[n])
    ensures MatchesFrom(pattern, name, p, n) <==> MatchesFrom(pattern, name, p + 1, n + 1)
  {
    assert pattern[p..][1..] == pattern[p + 1..];
    assert name[n..][1..] == name[n + 1..];
  }

  lemma Mismatch(pattern: string, name: string, p: nat, n: nat)
    requires p <= |pattern| && n <= |name| && (p < |pattern| || n < |name|)
    requires p < |pattern| ==> pattern[p] != '*' &&
                               (n < |name| ==> pattern[p] != '?' && pattern[p] != name[n])
    ensures !MatchesFrom(pattern, name, p, n)
  {
  }

  /** Decides the meaning although only the last star is remembered. The ghost result counts the loop
      iterations. */
  method PatternMatchesString(name: string, pattern: string) returns (ok: bool, ghost steps: nat)
    ensures ok <==> Matches(pattern, name)
    ensures steps <= (|name| + 1) * (|pattern| + 1)
  {
    steps := 0;
    var p, n := 0, 0;
    var patternNext, nameNext := 0, 0;
    ghost var restarts: nat, spent := 0, 0;
    ghost var width := |pattern| + 1;
    assert pattern[0..] == pattern && name[0..] == name;
    ghost var matches := Matches(pattern, name);
    while p < |pattern| || n < |name|
      invariant 0 <= p <= |pattern| && 0 <= n <= |name|
      invariant 0 <= patternNext <= p && 0 <= nameNext <= n + 1
      invariant nameNext > 0 ==> PastStar(pattern, p, n, patternNext, nameNext)
      invariant matches <==>
                MatchesFrom(pattern, name, p, n)
                || (0 < nameNext && MatchesFrom(pattern, name, patternNext, nameNext))
      invariant restarts <= (if nameNext == 0 then 0 else if p == patternNext then nameNext else nameNext - 1)
      invariant restarts <= |name|
      invariant spent == restarts * width && steps <= spent + p
      decreases |name| - restarts, width - p
    {
      steps := steps + 1;
      StepBound(|name|, restarts, width);
      if p < |pattern| {
        if pattern[p] == '*' {
          StarRead(pattern, name, p, n);
          if 0 < nameNext && p != patternNext && MatchesFrom(pattern, name, patternNext, nameNext) {
            LastStarSuffices(pattern, name, patternNext, nameNext, p, n);
          }
          patternNext := p;
          nameNext := n + 1;
          p := p + 1;
          continue;
        } else if n < |name| && (pattern[p] == '?' || name[n] == pattern[p]) {
          CharacterRead(pattern, name, p, n);
          p := p + 1;
          n := n + 1;
          continue;
        }
      }
      Mismatch(pattern, name, p, n);
      if 0 < nameNext <= |name| {
        p := patternNext;
        n := nameNext;
        restarts := restarts + 1;
        spent := spent + width;
        continue;
      }
      return false, steps;
    }
    StepBound(|name|, restarts, width);
    return true, steps;
  }

  lemma StepBound(n: nat, restarts: nat, width: nat)
    requires restarts <= n
    ensures restarts * width + width <= (n + 1) * width
    ensures (restarts + 1) * width == restarts * width + width
  {
    assert (restarts + 1) * width <= (n + 1) * width;
  }
}
