/**
 * Customs declarations: each line holds the questions one person answered "yes" to,
 * and blank lines separate the groups. The first part counts the questions anyone in a
 * group answered, the second those everyone in the group answered.
 */
module Day6 {
  import opened Text

  /** The answer lines of one group, one per person. */
  datatype Group = Group(answers: seq<string>)

  // ---------------------------------------------------------------------------
  // Grouping

  /**
   * The grouping loop of `parse_input`: a non-empty line is one more person of the
   * current group; an empty line closes the group and starts an empty one; the group
   * in progress is closed after the last line. The groups are the blank-line blocks.
   */
  method ParseGroups(lines: seq<string>) returns (groups: seq<Group>)
    ensures |groups| == |Paragraphs(lines)|
    ensures forall i :: 0 <= i < |groups| ==> groups[i].answers == Paragraphs(lines)[i]
  {
    groups := [];
    var group := Group([]);
    for i := 0 to |lines|
      invariant |groups| + 1 == |Paragraphs(lines[..i])|
      invariant forall k :: 0 <= k < |groups| ==> groups[k].answers == Paragraphs(lines[..i])[k]
      invariant group.answers == Paragraphs(lines[..i])[|groups|]
    {
      assert lines[..i + 1][..i] == lines[..i];
      if lines[i] == "" {
        groups := groups + [group];
        group := Group([]);
      } else {
        group := Group(group.answers + [lines[i]]);
      }
    }
    groups := groups + [group];
    assert lines[..|lines|] == lines;
  }

  /**
   * What the grouping guarantees: one group more than there are blank lines, no person
   * with an empty line, every non-empty line kept in order, and the groups split exactly
   * at the blank lines, so that writing them back out gives the lines.
   */
  lemma GroupsShape(lines: seq<string>)
    ensures |Paragraphs(lines)| == CountEmpty(lines) + 1
    ensures Concat(Paragraphs(lines)) == NonEmptyLines(lines)
    ensures NoEmptyLine(Paragraphs(lines))
    ensures JoinBlocks(Paragraphs(lines)) == lines
  {
    ParagraphsShape(lines);
  }

  // ---------------------------------------------------------------------------
  // Answer sets

  /** The distinct characters of one answer line: exactly the characters it holds. */
  function CharSet(s: string): (r: set<char>)
    ensures forall c :: c in r <==> c in s
    decreases |s|
  {
    if |s| == 0 then {}
    else
      assert s == [s[0]] + s[1..];
      {s[0]} + CharSet(s[1..])
  }

  /** The questions anyone answered: the union of the answer lines (`flatten().collect()`). */
  function Anyone(answers: seq<string>): (r: set<char>)
    ensures forall i :: 0 <= i < |answers| ==> CharSet(answers[i]) <= r
    decreases |answers|
  {
    if |answers| == 0 then {}
    else
      var init := answers[..|answers| - 1];
      assert forall i :: 0 <= i < |init| ==> init[i] == answers[i];
      Anyone(init) + CharSet(answers[|answers| - 1])
  }

  /**
   * The questions everyone answered: a fold over the lines in order that starts from the
   * first line's set and intersects each further line's set into it; no lines, no questions.
   */
  function Everyone(answers: seq<string>): (r: set<char>)
    ensures forall i :: 0 <= i < |answers| ==> r <= CharSet(answers[i])
    decreases |answers|
  {
    if |answers| == 0 then {}
    else if |answers| == 1 then CharSet(answers[0])
    else
      var init := answers[..|answers| - 1];
      assert forall i :: 0 <= i < |init| ==> init[i] == answers[i];
      CharSet(answers[|answers| - 1]) * Everyone(init)
  }

  /** Anyone answered a question exactly when some person's line holds it. */
  lemma {:induction false} AnyoneMembers(answers: seq<string>)
    ensures forall c :: c in Anyone(answers) <==> exists i :: 0 <= i < |answers| && c in answers[i]
    decreases |answers|
  {
    if |answers| > 0 {
      var n := |answers| - 1;
      var init := answers[..n];
      AnyoneMembers(init);
      assert Anyone(answers) == Anyone(init) + CharSet(answers[n]);
      forall c
        ensures c in Anyone(answers) <==> exists i :: 0 <= i < |answers| && c in answers[i]
      {
        if c in Anyone(init) {
          var i :| 0 <= i < n && c in init[i];
          assert init[i] == answers[i];
        }
        if exists i :: 0 <= i < |answers| && c in answers[i] {
          var i :| 0 <= i < |answers| && c in answers[i];
          if i < n {
            assert init[i] == answers[i];
          }
        }
      }
    }
  }

  /**
   * Everyone answered a question exactly when every person's line holds it; a group
   * without people has no such questions.
   */
  lemma {:induction false} EveryoneMembers(answers: seq<string>)
    ensures |answers| == 0 ==> Everyone(answers) == {}
    ensures |answers| > 0 ==> forall c :: c in Everyone(answers) <==> forall i :: 0 <= i < |answers| ==> c in answers[i]
    decreases |answers|
  {
    if |answers| == 1 {
    } else if |answers| > 1 {
      var n := |answers| - 1;
      var init := answers[..n];
      EveryoneMembers(init);
      assert forall i :: 0 <= i < n ==> init[i] == answers[i];
    }
  }

  /** A one-person group: everyone answered exactly that person's questions. */
  lemma EveryoneSingle(answer: string)
    ensures Everyone([answer]) == CharSet(answer) == Anyone([answer])
  {
    assert [answer][..0] == [];
  }

  /** What everyone answered, someone answered. */
  lemma EveryoneWithinAnyone(answers: seq<string>)
    ensures Everyone(answers) <= Anyone(answers)
  {
    EveryoneMembers(answers);
    AnyoneMembers(answers);
    if |answers| > 0 {
      forall c | c in Everyone(answers)
        ensures c in Anyone(answers)
      {
        assert c in answers[0];
      }
    }
  }

  // ---------------------------------------------------------------------------
  // The two parts

  /** How many questions anyone in the group answered. */
  function AnyoneCount(group: Group): nat {
    |Anyone(group.answers)|
  }

  /** How many questions everyone in the group answered. */
  function EveryoneCount(group: Group): nat {
    |Everyone(group.answers)|
  }

  /** The first part: the sum over groups of how many questions anyone answered; no group counts more than the sum. */
  function PartOne(groups: seq<Group>): (n: nat)
    ensures forall i :: 0 <= i < |groups| ==> AnyoneCount(groups[i]) <= n
    decreases |groups|
  {
    if |groups| == 0 then 0
    else
      var init, last := groups[..|groups| - 1], |Anyone(groups[|groups| - 1].answers)|;
      assert forall i :: 0 <= i < |init| ==> init[i] == groups[i];
      PartOne(init) + last
  }

  /** The second part: the sum over groups of how many questions everyone answered; no group counts more than the sum. */
  function PartTwo(groups: seq<Group>): (n: nat)
    ensures forall i :: 0 <= i < |groups| ==> EveryoneCount(groups[i]) <= n
    decreases |groups|
  {
    if |groups| == 0 then 0
    else
      var init, last := groups[..|groups| - 1], |Everyone(groups[|groups| - 1].answers)|;
      assert forall i :: 0 <= i < |init| ==> init[i] == groups[i];
      PartTwo(init) + last
  }

  /** An empty group adds nothing to either part. */
  lemma EmptyGroupAddsNothing(groups: seq<Group>)
    ensures PartOne(groups + [Group([])]) == PartOne(groups)
    ensures PartTwo(groups + [Group([])]) == PartTwo(groups)
  {
    assert (groups + [Group([])])[..|groups|] == groups;
  }

  /** A subset is no larger than its superset. */
  lemma {:induction false} SubsetCard(a: set<char>, b: set<char>)
    requires a <= b
    ensures |a| <= |b|
    decreases |a|
  {
    if a != {} {
      var c :| c in a;
      SubsetCard(a - {c}, b - {c});
    }
  }

  /** Counting unanimous answers never exceeds counting any answers. */
  lemma {:induction false} PartTwoAtMostPartOne(groups: seq<Group>)
    ensures PartTwo(groups) <= PartOne(groups)
    decreases |groups|
  {
    if |groups| > 0 {
      var last := groups[|groups| - 1].answers;
      PartTwoAtMostPartOne(groups[..|groups| - 1]);
      EveryoneWithinAnyone(last);
      SubsetCard(Everyone(last), Anyone(last));
    }
  }

  // ---------------------------------------------------------------------------
  // The example of the puzzle statement

  function Example(): seq<Group> {
    [Group(["abc"]), Group(["a", "b", "c"]), Group(["ab", "ac"]), Group(["a", "a", "a", "a"]), Group(["b"])]
  }

  /** Anyone in the example's groups answered 3 + 3 + 3 + 1 + 1 questions. */
  lemma ExamplePartOne(groups: seq<Group>)
    requires groups == Example()
    ensures PartOne(groups) == 11
  {
    PartOneOfFive(groups);
    ExampleFirst('a', 'b', 'c');
    ExampleSecond('a', 'b', 'c');
    ExampleThird('a', 'b', 'c');
    ExampleFourth('a');
    ExampleFifth('b');
  }

  /** Everyone in the example's groups answered 3 + 0 + 1 + 1 + 1 questions. */
  lemma ExamplePartTwo(groups: seq<Group>)
    requires groups == Example()
    ensures PartTwo(groups) == 6
  {
    PartTwoOfFive(groups);
    ExampleFirst('a', 'b', 'c');
    ExampleSecond('a', 'b', 'c');
    ExampleThird('a', 'b', 'c');
    ExampleFourth('a');
    ExampleFifth('b');
  }

  /** The first part of five groups, spelled out group by group. */
  lemma PartOneOfFive(g: seq<Group>)
    requires |g| == 5
    ensures PartOne(g) == |Anyone(g[0].answers)| + |Anyone(g[1].answers)| + |Anyone(g[2].answers)|
      + |Anyone(g[3].answers)| + |Anyone(g[4].answers)|
  {
    assert g[..0] == [] && g[..5] == g;
    PartOnePrefix(g, 0);
    assert PartOne(g[..1]) == |Anyone(g[0].answers)|;
    PartOnePrefix(g, 1);
    PartOnePrefix(g, 2);
    assert PartOne(g[..3]) == |Anyone(g[0].answers)| + |Anyone(g[1].answers)| + |Anyone(g[2].answers)|;
    PartOnePrefix(g, 3);
    PartOnePrefix(g, 4);
  }

  /** The second part of five groups, spelled out group by group. */
  lemma PartTwoOfFive(g: seq<Group>)
    requires |g| == 5
    ensures PartTwo(g) == |Everyone(g[0].answers)| + |Everyone(g[1].answers)| + |Everyone(g[2].answers)|
      + |Everyone(g[3].answers)| + |Everyone(g[4].answers)|
  {
    assert g[..0] == [] && g[..5] == g;
    PartTwoPrefix(g, 0);
    assert PartTwo(g[..1]) == |Everyone(g[0].answers)|;
    PartTwoPrefix(g, 1);
    PartTwoPrefix(g, 2);
    assert PartTwo(g[..3]) == |Everyone(g[0].answers)| + |Everyone(g[1].answers)| + |Everyone(g[2].answers)|;
    PartTwoPrefix(g, 3);
    PartTwoPrefix(g, 4);
  }

  /** Each further group adds the questions anyone in it answered. */
  lemma PartOnePrefix(groups: seq<Group>, k: nat)
    requires k < |groups|
    ensures PartOne(groups[..k + 1]) == PartOne(groups[..k]) + |Anyone(groups[k].answers)|
  {
    assert groups[..k + 1][..k] == groups[..k];
  }

  /** Each further group adds the questions everyone in it answered. */
  lemma PartTwoPrefix(groups: seq<Group>, k: nat)
    requires k < |groups|
    ensures PartTwo(groups[..k + 1]) == PartTwo(groups[..k]) + |Everyone(groups[k].answers)|
  {
    assert groups[..k + 1][..k] == groups[..k];
  }

  /** A group of one person: that person's distinct questions, for anyone and for everyone. */
  lemma ExampleFirst(a: char, b: char, c: char)
    requires a != b && b != c && a != c
    ensures |Anyone([[a, b, c]])| == 3 && |Everyone([[a, b, c]])| == 3
  {
    CharSetOfThree(a, b, c);
    EveryoneSingle([a, b, c]);
  }

  /** Three people with one distinct question each: three for anyone, none for everyone. */
  lemma ExampleSecond(a: char, b: char, c: char)
    requires a != b && b != c && a != c
    ensures |Anyone([[a], [b], [c]])| == 3 && |Everyone([[a], [b], [c]])| == 0
  {
    var xs := [[a], [b], [c]];
    assert xs[..2] == [[a], [b]];
    assert [[a], [b]][..1] == [[a]];
    CharSetOfOne(a);
    CharSetOfOne(b);
    CharSetOfOne(c);
    EveryoneSingle([a]);
    assert Anyone([[a], [b]]) == {a, b};
    assert Anyone(xs) == {a, b, c};
    assert Everyone([[a], [b]]) == {};
    assert Everyone(xs) == {};
  }

  /** Two people sharing one question: three for anyone, one for everyone. */
  lemma ExampleThird(a: char, b: char, c: char)
    requires a != b && b != c && a != c
    ensures |Anyone([[a, b], [a, c]])| == 3 && |Everyone([[a, b], [a, c]])| == 1
  {
    CharSetOfTwo(a, b);
    CharSetOfTwo(a, c);
    assert [[a, b], [a, c]][..1] == [[a, b]];
    EveryoneSingle([a, b]);
    assert Anyone([[a, b], [a, c]]) == {a, b, c};
    assert Everyone([[a, b], [a, c]]) == {a};
  }

  /** Four people with the same single question: one for anyone and for everyone. */
  lemma ExampleFourth(a: char)
    ensures |Anyone([[a], [a], [a], [a]])| == 1 && |Everyone([[a], [a], [a], [a]])| == 1
  {
    var xs := [[a], [a], [a], [a]];
    assert xs[..3] == [[a], [a], [a]];
    assert [[a], [a], [a]][..2] == [[a], [a]];
    assert [[a], [a]][..1] == [[a]];
    CharSetOfOne(a);
    EveryoneSingle([a]);
    assert Anyone([[a], [a]]) == {a} && Everyone([[a], [a]]) == {a};
    assert Anyone([[a], [a], [a]]) == {a} && Everyone([[a], [a], [a]]) == {a};
    assert Anyone(xs) == {a} && Everyone(xs) == {a};
  }

  /** One person with one question. */
  lemma ExampleFifth(a: char)
    ensures |Anyone([[a]])| == 1 && |Everyone([[a]])| == 1
  {
    CharSetOfOne(a);
    EveryoneSingle([a]);
  }

  lemma CharSetOfOne(a: char)
    ensures CharSet([a]) == {a}
  {
    assert [a][1..] == [];
  }

  lemma CharSetOfTwo(a: char, b: char)
    ensures CharSet([a, b]) == {a, b}
  {
    assert [a, b][1..] == [b];
    CharSetOfOne(b);
  }

  lemma CharSetOfThree(a: char, b: char, c: char)
    ensures CharSet([a, b, c]) == {a, b, c}
  {
    assert [a, b, c][1..] == [b, c];
    CharSetOfTwo(b, c);
  }
}
