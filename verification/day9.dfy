/**
 * The sliding-window checks on a list of numbers. The first part looks for the first
 * number, past the preamble, that is not the sum of two different values among the
 * `preamble` numbers just before it. The second part looks for a contiguous run of the
 * list that sums to a target and reports the run's smallest plus largest number.
 *
 * The numbers are mathematical integers: sums that would overflow 64 bits are not
 * modelled. The target of the second part is a parameter.
 */
module Day9 {
  import opened Wrappers

  // ---------------------------------------------------------------------------
  // The first part

  /** The `p` numbers just before position `idx` (`&entries[idx - p..idx]`). */
  function Window(entries: seq<int>, p: nat, idx: nat): (w: seq<int>)
    requires p <= idx <= |entries|
    ensures |w| == p && forall k :: 0 <= k < p ==> w[k] == entries[idx - p + k]
  {
    entries[idx - p..idx]
  }

  /**
   * `n` is the sum of two numbers of the window whose VALUES differ: two positions
   * holding the same value never count, even when they are different positions.
   */
  predicate PairSum(window: seq<int>, n: int) {
    exists a, b :: 0 <= a < |window| && 0 <= b < |window| && window[a] + window[b] == n && window[a] != window[b]
  }

  /** The number at `idx`, past the preamble, is the sum of a pair of its window. */
  predicate Checked(entries: seq<int>, p: nat, idx: nat)
    requires p <= idx < |entries|
  {
    PairSum(Window(entries, p, idx), entries[idx])
  }

  /** Every number at a position in `[p, n)` passes the check. */
  predicate CheckedBelow(entries: seq<int>, p: nat, n: nat) {
    forall i :: p <= i < n && i < |entries| ==> Checked(entries, p, i)
  }

  /** Position `idx` is the first one, past the preamble, whose number fails the check. */
  predicate FirstUnchecked(entries: seq<int>, p: nat, idx: nat) {
    p <= idx < |entries| && !Checked(entries, p, idx) && CheckedBelow(entries, p, idx)
  }

  /**
   * What the first part reports: the number at the first position that fails the
   * check, or nothing (the source's `unreachable!`) when every number passes.
   */
  ghost predicate IsPartOneResult(entries: seq<int>, p: nat, r: Option<int>) {
    match r
    case Some(n) => exists idx: nat :: FirstUnchecked(entries, p, idx) && n == entries[idx]
    case None => CheckedBelow(entries, p, |entries|)
  }

  lemma FirstUncheckedUnique(entries: seq<int>, p: nat, i: nat, j: nat)
    requires FirstUnchecked(entries, p, i) && FirstUnchecked(entries, p, j)
    ensures i == j
  {
    if i < j {
      assert false;
    } else if j < i {
      assert false;
    }
  }

  /** The first part has exactly one possible result for each input. */
  lemma PartOneResultUnique(entries: seq<int>, p: nat, r1: Option<int>, r2: Option<int>)
    requires IsPartOneResult(entries, p, r1) && IsPartOneResult(entries, p, r2)
    ensures r1 == r2
  {
    if r1.Some? && r2.Some? {
      var i: nat :| FirstUnchecked(entries, p, i) && r1.value == entries[i];
      var j: nat :| FirstUnchecked(entries, p, j) && r2.value == entries[j];
      FirstUncheckedUnique(entries, p, i, j);
    } else if r1.Some? || r2.Some? {
      assert false;
    }
  }

  /**
   * `part_one`: skip the preamble; for each later number try every pair `(j, k)` of its
   * window, moving on to the next number as soon as `j + k` is the number with `j != k`;
   * the first number for which no pair works is the answer.
   */
  method PartOne(entries: seq<int>, preamble: nat) returns (r: Option<int>)
    ensures IsPartOneResult(entries, preamble, r)
  {
    label numbers: for idx := 0 to |entries|
      invariant CheckedBelow(entries, preamble, idx)
    {
      if idx < preamble {
        continue;
      }
      var number := entries[idx];
      var window := entries[idx - preamble..idx];
      for a := 0 to |window|
        invariant forall a', b' :: 0 <= a' < a && 0 <= b' < |window| ==> !(window[a'] + window[b'] == number && window[a'] != window[b'])
      {
        for b := 0 to |window|
          invariant forall b' :: 0 <= b' < b ==> !(window[a] + window[b'] == number && window[a] != window[b'])
        {
          if window[a] + window[b] == number && window[a] != window[b] {
            assert Checked(entries, preamble, idx);
            continue numbers;
          }
        }
      }
      assert FirstUnchecked(entries, preamble, idx);
      return Some(number);
    }
    return None;
  }

  /** With an empty preamble nothing passes the check, so the first number is the answer. */
  lemma EmptyPreamble(entries: seq<int>)
    requires |entries| > 0
    ensures IsPartOneResult(entries, 0, Some(entries[0]))
  {
    assert FirstUnchecked(entries, 0, 0);
  }

  /**
   * The check compares values, not positions: a number passes iff two different values
   * of its window add up to it. Two equal values never form a pair, wherever they stand,
   * so a window holding one value repeated passes nothing; `[x, x + 1]` does pass
   * `2x + 1`.
   */
  lemma PairSumByValues(window: seq<int>, n: int)
    ensures PairSum(window, n) <==> exists u, v :: u in window && v in window && u != v && u + v == n
    ensures (forall i :: 0 <= i < |window| ==> window[i] == window[0]) ==> !PairSum(window, n)
    ensures forall x :: !PairSum([x, x], 2 * x) && PairSum([x, x + 1], 2 * x + 1)
  {
    if PairSum(window, n) {
      var a, b :| 0 <= a < |window| && 0 <= b < |window| && window[a] + window[b] == n && window[a] != window[b];
      assert window[a] in window && window[b] in window;
    }
    if exists u, v :: u in window && v in window && u != v && u + v == n {
      var u, v :| u in window && v in window && u != v && u + v == n;
      var a :| 0 <= a < |window| && window[a] == u;
      var b :| 0 <= b < |window| && window[b] == v;
      assert window[a] + window[b] == n && window[a] != window[b];
    }
    forall x
      ensures !PairSum([x, x], 2 * x) && PairSum([x, x + 1], 2 * x + 1)
    {
      var w := [x, x + 1];
      assert w[0] + w[1] == 2 * x + 1 && w[0] != w[1];
    }
  }

  // ---------------------------------------------------------------------------
  // The second part

  /** `xs.fold(0, |acc, n| acc + n)`: the sum, added front to back. */
  function Sum(xs: seq<int>): int
    decreases |xs|
  {
    if |xs| == 0 then 0 else Sum(xs[..|xs| - 1]) + xs[|xs| - 1]
  }

  /** No number of the list is negative. */
  predicate AllNonNegative(xs: seq<int>) {
    forall i :: 0 <= i < |xs| ==> xs[i] >= 0
  }

  /** Over numbers that are not negative, the sum is not negative and is at least each number. */
  lemma {:induction false} SumOfNonNegative(xs: seq<int>)
    requires AllNonNegative(xs)
    ensures Sum(xs) >= 0 && forall i :: 0 <= i < |xs| ==> xs[i] <= Sum(xs)
    decreases |xs|
  {
    if |xs| > 0 {
      var init := xs[..|xs| - 1];
      assert forall i :: 0 <= i < |init| ==> init[i] == xs[i];
      SumOfNonNegative(init);
    }
  }

  /** The largest number of a non-empty list (`max().unwrap()`). */
  function Max(xs: seq<int>): (m: int)
    requires |xs| > 0
    ensures m in xs && forall k :: 0 <= k < |xs| ==> xs[k] <= m
    decreases |xs|
  {
    if |xs| == 1 then xs[0]
    else
      var rest := Max(xs[1..]);
      assert rest in xs;
      if xs[0] >= rest then xs[0] else rest
  }

  /** The smallest number of a non-empty list (`min().unwrap()`). */
  function Min(xs: seq<int>): (m: int)
    requires |xs| > 0
    ensures m in xs && forall k :: 0 <= k < |xs| ==> m <= xs[k]
    decreases |xs|
  {
    if |xs| == 1 then xs[0]
    else
      var rest := Min(xs[1..]);
      assert rest in xs;
      if xs[0] <= rest then xs[0] else rest
  }

  /**
   * `entries.iter().skip(i).take(j)`: at most `j` numbers from position `i` on, fewer
   * when the list ends first.
   */
  function Run(entries: seq<int>, i: nat, j: nat): (run: seq<int>)
    requires i <= |entries|
    ensures |run| == (if i + j <= |entries| then j else |entries| - i)
    ensures forall k :: 0 <= k < |run| ==> run[k] == entries[i + k]
  {
    entries[i..if i + j <= |entries| then i + j else |entries|]
  }

  /**
   * The start `i` finds its run of length `j`: the run sums to the target and every
   * shorter run from `i` sums to less (a larger sum makes the search leave the start).
   */
  predicate Hit(entries: seq<int>, target: int, i: nat, j: nat)
    requires i <= |entries|
  {
    Sum(Run(entries, i, j)) == target && forall j' :: 0 <= j' < j ==> Sum(Run(entries, i, j')) < target
  }

  /** No start below `n` finds a run of a length below `|entries|`. */
  predicate NoHitBelow(entries: seq<int>, target: int, n: nat) {
    forall i, j :: 0 <= i < n && i < |entries| && 0 <= j < |entries| ==> !Hit(entries, target, i, j)
  }

  /** `(i, j)` is the first start, and that start's first length, that finds a run. */
  predicate FirstHit(entries: seq<int>, target: int, i: nat, j: nat) {
    i < |entries| && j < |entries| && Hit(entries, target, i, j) && NoHitBelow(entries, target, i)
  }

  /** The failures of the second part, both panics of the source. */
  datatype RunError =
    | NoRun     // `unreachable!`: no start finds a run
    | EmptyRun  // `max().unwrap()` on the empty run, which sums to a target of 0

  /**
   * What the second part reports: the smallest plus the largest number of the first
   * run found, `EmptyRun` when that run is empty, `NoRun` when no start finds one.
   */
  ghost predicate IsPartTwoResult(entries: seq<int>, target: int, r: Result<int, RunError>) {
    match r
    case Ok(v) =>
      exists i: nat, j: nat :: FirstHit(entries, target, i, j) && |Run(entries, i, j)| > 0
        && v == Max(Run(entries, i, j)) + Min(Run(entries, i, j))
    case Err(EmptyRun) => exists i: nat, j: nat :: FirstHit(entries, target, i, j) && |Run(entries, i, j)| == 0
    case Err(NoRun) => NoHitBelow(entries, target, |entries|)
  }

  lemma FirstHitUnique(entries: seq<int>, target: int, i1: nat, j1: nat, i2: nat, j2: nat)
    requires FirstHit(entries, target, i1, j1) && FirstHit(entries, target, i2, j2)
    ensures i1 == i2 && j1 == j2
  {
    if i1 != i2 {
      assert false;
    } else if j1 < j2 {
      assert false;
    } else if j2 < j1 {
      assert false;
    }
  }

  /** Once the first run found is known, it decides the result. */
  lemma ResultAtFirstHit(entries: seq<int>, target: int, i: nat, j: nat, r: Result<int, RunError>)
    requires FirstHit(entries, target, i, j) && IsPartTwoResult(entries, target, r)
    ensures var run := Run(entries, i, j);
      r == if |run| == 0 then Err(EmptyRun) else Ok(Max(run) + Min(run))
  {
    if r.Err? && r.error == NoRun {
      assert false;
    } else {
      var i2: nat, j2: nat :| FirstHit(entries, target, i2, j2)
        && (r.Ok? <==> |Run(entries, i2, j2)| > 0)
        && (r.Ok? ==> r.value == Max(Run(entries, i2, j2)) + Min(Run(entries, i2, j2)));
      FirstHitUnique(entries, target, i, j, i2, j2);
    }
  }

  /** The second part has exactly one possible result for each input. */
  lemma PartTwoResultUnique(entries: seq<int>, target: int, r1: Result<int, RunError>, r2: Result<int, RunError>)
    requires IsPartTwoResult(entries, target, r1) && IsPartTwoResult(entries, target, r2)
    ensures r1 == r2
  {
    if i: nat, j: nat :| FirstHit(entries, target, i, j) {
      ResultAtFirstHit(entries, target, i, j, r1);
      ResultAtFirstHit(entries, target, i, j, r2);
    }
  }

  /**
   * `part_two`: for each start `i` and each length `j` below the list's length, sum the
   * run; a sum equal to the target ends the search with the run's max plus min, a sum
   * above it abandons the start.
   */
  method PartTwo(entries: seq<int>, target: int) returns (r: Result<int, RunError>)
    ensures IsPartTwoResult(entries, target, r)
  {
    label starts: for i := 0 to |entries|
      invariant NoHitBelow(entries, target, i)
    {
      for j := 0 to |entries|
        invariant forall j' :: 0 <= j' < j ==> Sum(Run(entries, i, j')) < target
      {
        var numbers := entries[i..if i + j <= |entries| then i + j else |entries|];
        assert numbers == Run(entries, i, j);
        var sum := Sum(numbers);
        if sum == target {
          assert FirstHit(entries, target, i, j);
          if |numbers| == 0 {
            return Err(EmptyRun);
          }
          return Ok(Max(numbers) + Min(numbers));
        } else if sum > target {
          forall j' | 0 <= j' < |entries|
            ensures !Hit(entries, target, i, j')
          {
            if j' > j {
              assert !(Sum(Run(entries, i, j)) < target);
            }
          }
          continue starts;
        }
      }
    }
    return Err(NoRun);
  }

  /** A target of 0 is met by the empty run at the first start, where the source panics. */
  lemma ZeroTarget(entries: seq<int>)
    requires |entries| > 0
    ensures IsPartTwoResult(entries, 0, Err(EmptyRun))
  {
    assert Run(entries, 0, 0) == [];
    assert FirstHit(entries, 0, 0, 0);
  }

  /** Extending a run by the next number adds that number to its sum. */
  lemma RunStep(entries: seq<int>, i: nat, j: nat)
    requires i + j < |entries|
    ensures Run(entries, i, j + 1) == Run(entries, i, j) + [entries[i + j]]
    ensures Sum(Run(entries, i, j + 1)) == Sum(Run(entries, i, j)) + entries[i + j]
  {
    var longer := Run(entries, i, j + 1);
    assert longer[..|longer| - 1] == Run(entries, i, j);
  }

  /** Over numbers that are not negative, a longer run from the same start sums to no less. */
  lemma {:induction false} RunSumGrows(entries: seq<int>, i: nat, j: nat, j': nat)
    requires i <= |entries| && j <= j'
    requires forall k :: 0 <= k < |entries| ==> entries[k] >= 0
    ensures Sum(Run(entries, i, j)) <= Sum(Run(entries, i, j'))
    decreases j' - j
  {
    if j < j' {
      RunSumGrows(entries, i, j, j' - 1);
      if i + j' - 1 < |entries| {
        RunStep(entries, i, j' - 1);
      } else {
        assert Run(entries, i, j') == Run(entries, i, j' - 1);
      }
    }
  }

  /**
   * Abandoning a start once its sum is too large loses nothing when no number is
   * negative: whenever some run the search considers sums to the target, the search
   * finds a run and does not report `NoRun`.
   */
  lemma NonNegativeFindsRun(entries: seq<int>, target: int, i: nat, j: nat)
    requires forall k :: 0 <= k < |entries| ==> entries[k] >= 0
    requires i < |entries| && j < |entries| && Sum(Run(entries, i, j)) == target
    ensures !NoHitBelow(entries, target, |entries|)
  {
    var m := FirstReaching(entries, target, i, j, 0);
    RunSumGrows(entries, i, m, j);
    assert Hit(entries, target, i, m);
  }

  /** The shortest length from `from` up to `j` whose run from `i` sums to at least the target. */
  lemma {:induction false} FirstReaching(entries: seq<int>, target: int, i: nat, j: nat, from: nat) returns (m: nat)
    requires i <= |entries| && from <= j && Sum(Run(entries, i, j)) >= target
    requires forall j' :: 0 <= j' < from ==> Sum(Run(entries, i, j')) < target
    ensures m <= j && Sum(Run(entries, i, m)) >= target
    ensures forall j' :: 0 <= j' < m ==> Sum(Run(entries, i, j')) < target
    decreases j - from
  {
    if Sum(Run(entries, i, from)) >= target {
      m := from;
    } else {
      m := FirstReaching(entries, target, i, j, from + 1);
    }
  }

  // ---------------------------------------------------------------------------
  // The published example

  /** The twenty numbers of the puzzle statement's example. */
  function Sample(): seq<int> {
    [35, 20, 15, 25, 47, 40, 62, 55, 65, 95, 102, 117, 150, 182, 127, 219, 299, 277, 309, 576]
  }

  /** The number at `idx` is the sum of the window's numbers at `a` and `b`. */
  lemma CheckedBy(entries: seq<int>, p: nat, idx: nat, a: nat, b: nat)
    requires p <= idx < |entries| && a < p && b < p
    requires entries[idx - p + a] + entries[idx - p + b] == entries[idx]
    requires entries[idx - p + a] != entries[idx - p + b]
    ensures Checked(entries, p, idx)
  {
    var w := Window(entries, p, idx);
    assert w[a] + w[b] == entries[idx] && w[a] != w[b];
  }

  /** With a preamble of 5 the example's first number that fails the check is 127. */
  lemma SamplePartOne(entries: seq<int>)
    requires entries == Sample()
    ensures IsPartOneResult(entries, 5, Some(127))
  {
    SampleChecked(entries);
    assert !Checked(entries, 5, 14) by {
      var w := Window(entries, 5, 14);
      assert w == [95, 102, 117, 150, 182];
    }
    assert FirstUnchecked(entries, 5, 14);
  }

  /** Each of the example's numbers from position 5 to 13 is a pair sum of its window. */
  lemma SampleChecked(entries: seq<int>)
    requires entries == Sample()
    ensures CheckedBelow(entries, 5, 14)
  {
    var head := entries[..15];
    assert head == [35, 20, 15, 25, 47, 40, 62, 55, 65, 95, 102, 117, 150, 182, 127];
    SampleCheckedFrom(head);
    forall i | 5 <= i < 14
      ensures Checked(entries, 5, i)
    {
      CheckedPrefix(entries, 15, 5, i);
    }
  }

  /** Whether a number passes the check depends only on the list up to that number. */
  lemma CheckedPrefix(entries: seq<int>, n: nat, p: nat, idx: nat)
    requires p <= idx < n <= |entries|
    ensures Checked(entries[..n], p, idx) == Checked(entries, p, idx)
  {
    assert Window(entries[..n], p, idx) == Window(entries, p, idx);
  }

  lemma SampleCheckedFrom(head: seq<int>)
    requires head == [35, 20, 15, 25, 47, 40, 62, 55, 65, 95, 102, 117, 150, 182, 127]
    ensures CheckedBelow(head, 5, 14)
  {
    forall i | 5 <= i < 14
      ensures Checked(head, 5, i)
    {
      if i < 8 {
        SampleCheckedFirst(head);
      } else if i < 11 {
        SampleCheckedSecond(head);
      } else {
        SampleCheckedThird(head);
      }
    }
  }

  lemma SampleCheckedFirst(head: seq<int>)
    requires head == [35, 20, 15, 25, 47, 40, 62, 55, 65, 95, 102, 117, 150, 182, 127]
    ensures Checked(head, 5, 5) && Checked(head, 5, 6) && Checked(head, 5, 7)
  {
    CheckedBy(head, 5, 5, 2, 3);
    CheckedBy(head, 5, 6, 1, 3);
    CheckedBy(head, 5, 7, 0, 3);
  }

  lemma SampleCheckedSecond(head: seq<int>)
    requires head == [35, 20, 15, 25, 47, 40, 62, 55, 65, 95, 102, 117, 150, 182, 127]
    ensures Checked(head, 5, 8) && Checked(head, 5, 9) && Checked(head, 5, 10)
  {
    CheckedBy(head, 5, 8, 0, 2);
    CheckedBy(head, 5, 9, 1, 3);
    CheckedBy(head, 5, 10, 0, 1);
  }

  lemma SampleCheckedThird(head: seq<int>)
    requires head == [35, 20, 15, 25, 47, 40, 62, 55, 65, 95, 102, 117, 150, 182, 127]
    ensures Checked(head, 5, 11) && Checked(head, 5, 12) && Checked(head, 5, 13)
  {
    CheckedBy(head, 5, 11, 0, 1);
    CheckedBy(head, 5, 12, 0, 2);
    CheckedBy(head, 5, 13, 0, 3);
  }

  /**
   * A start whose runs of length below `m` all miss the target and whose run of length
   * `m` exceeds it finds nothing: the search leaves it at `m`.
   */
  lemma LeavesStart(entries: seq<int>, target: int, i: nat, m: nat)
    requires i <= |entries|
    requires forall j :: 0 <= j < m ==> Sum(Run(entries, i, j)) != target
    requires Sum(Run(entries, i, m)) > target
    ensures forall j :: !Hit(entries, target, i, j)
  {
    forall j: nat
      ensures !Hit(entries, target, i, j)
    {
      if j > m {
        assert !(Sum(Run(entries, i, m)) < target);
      }
    }
  }

  /** With a target of 127 the example's run is 15, 25, 47, 40, and the answer 15 + 47. */
  lemma SamplePartTwo(entries: seq<int>)
    requires entries == Sample()
    ensures IsPartTwoResult(entries, 127, Ok(62))
  {
    assert SampleHead(entries);
    SampleFirstHit(entries);
    SampleRunBounds();
  }

  /** The third start, at length four, is the first to find the target 127. */
  lemma SampleFirstHit(entries: seq<int>)
    requires SampleHead(entries)
    ensures FirstHit(entries, 127, 2, 4) && Run(entries, 2, 4) == [15, 25, 47, 40]
  {
    SampleFromFirst(entries);
    SampleFromSecond(entries);
    SampleFromThird(entries);
  }

  lemma SampleRunBounds()
    ensures Max([15, 25, 47, 40]) == 47 && Min([15, 25, 47, 40]) == 15
  {
  }

  /** The example's first six numbers, on a list of any length beyond them. */
  predicate SampleHead(entries: seq<int>) {
    |entries| > 6 && entries[0] == 35 && entries[1] == 20 && entries[2] == 15
    && entries[3] == 25 && entries[4] == 47 && entries[5] == 40
  }

  /** The runs from the first number sum to 0, 35, 55, 70, 95, then 142. */
  lemma SampleFromFirst(entries: seq<int>)
    requires SampleHead(entries)
    ensures forall j: nat :: !Hit(entries, 127, 0, j)
  {
    assert Run(entries, 0, 0) == [];
    RunStep(entries, 0, 0);
    RunStep(entries, 0, 1);
    RunStep(entries, 0, 2);
    RunStep(entries, 0, 3);
    RunStep(entries, 0, 4);
    LeavesStart(entries, 127, 0, 5);
  }

  /** The runs from the second number sum to 0, 20, 35, 60, 107, then 147. */
  lemma SampleFromSecond(entries: seq<int>)
    requires SampleHead(entries)
    ensures forall j: nat :: !Hit(entries, 127, 1, j)
  {
    assert Run(entries, 1, 0) == [];
    RunStep(entries, 1, 0);
    RunStep(entries, 1, 1);
    RunStep(entries, 1, 2);
    RunStep(entries, 1, 3);
    RunStep(entries, 1, 4);
    LeavesStart(entries, 127, 1, 5);
  }

  /** The runs from the third number sum to 0, 15, 40, 87, then 127. */
  lemma SampleFromThird(entries: seq<int>)
    requires SampleHead(entries)
    ensures Hit(entries, 127, 2, 4) && Run(entries, 2, 4) == [15, 25, 47, 40]
  {
    assert Run(entries, 2, 0) == [];
    RunStep(entries, 2, 0);
    RunStep(entries, 2, 1);
    RunStep(entries, 2, 2);
    RunStep(entries, 2, 3);
  }
}
