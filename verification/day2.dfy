/**
 * Password policies: an entry `a-b c: password` names two numbers, a character and a
 * password. The first policy bounds how often the character occurs; the second asks
 * that it sits at exactly one of the two 1-based positions.
 */
module Day2 {
  import opened Wrappers
  import opened Text
  import opened Counting

  datatype Entry = Entry(numLeft: nat, numRight: nat, ch: char, password: string)

  // ---------------------------------------------------------------------------
  // Policies

  /** How many times `c` occurs in `s` (Rust's `matches(c).count()`). */
  function Occurrences(s: string, c: char): (n: nat)
    ensures n <= |s|
    decreases |s|
  {
    if |s| == 0 then 0 else (if s[0] == c then 1 else 0) + Occurrences(s[1..], c)
  }

  /** The count is the multiplicity of `c` in the password's multiset of characters. */
  lemma {:induction false} OccurrencesMultiplicity(s: string, c: char)
    ensures Occurrences(s, c) == multiset(s)[c]
    decreases |s|
  {
    if |s| > 0 {
      OccurrencesMultiplicity(s[1..], c);
      assert s == [s[0]] + s[1..];
    }
  }

  /** The first policy: the character occurs between `numLeft` and `numRight` times, inclusive. */
  function ValidPartOne(e: Entry): (b: bool)
    ensures b <==> e.numLeft <= multiset(e.password)[e.ch] <= e.numRight
  {
    OccurrencesMultiplicity(e.password, e.ch);
    e.numLeft <= Occurrences(e.password, e.ch) <= e.numRight
  }

  /** Rust's `Vec::get`: the character at position `i`, if there is one. */
  function CharAt(s: string, i: int): (r: Option<char>)
    ensures r.Some? <==> 0 <= i < |s|
    ensures r.Some? ==> r.value == s[i]
  {
    if 0 <= i < |s| then Some(s[i]) else None
  }

  /**
   * The second policy: the character is found at position `numLeft` or `numRight`
   * (1-based, a position past the end finds nothing), and the two lookups differ.
   * Both positions are at least 1: position 0 underflows in the source and panics.
   */
  function ValidPartTwo(e: Entry): (b: bool)
    requires e.numLeft >= 1 && e.numRight >= 1
    ensures b ==> e.ch in e.password && e.numLeft != e.numRight
  {
    var first := CharAt(e.password, e.numLeft - 1);
    var second := CharAt(e.password, e.numRight - 1);
    (first == Some(e.ch) || second == Some(e.ch)) && first != second
  }

  /** The password holds `c` at 0-based position `i`. */
  predicate HasAt(s: string, i: int, c: char) {
    0 <= i < |s| && s[i] == c
  }

  /**
   * The second policy means "exactly one of the two positions holds the character";
   * in particular it never holds when both positions are the same.
   */
  lemma ValidPartTwoExactlyOne(e: Entry)
    requires e.numLeft >= 1 && e.numRight >= 1
    ensures ValidPartTwo(e) <==> (HasAt(e.password, e.numLeft - 1, e.ch) != HasAt(e.password, e.numRight - 1, e.ch))
    ensures e.numLeft == e.numRight ==> !ValidPartTwo(e)
  {
  }

  // ---------------------------------------------------------------------------
  // Decoding

  /**
   * `From<String> for Entry`: the whitespace-separated words are the range `a-b`, the
   * character (the first one of the second word; the colon after it is dropped), and
   * the password. `a` and `b` are the first two pieces of the range split at `-`.
   * Every `unwrap` of the source that can fail yields `None`.
   */
  function ParseEntry(line: string): (r: Option<Entry>)
    ensures r.Some? ==> |r.value.password| > 0 && NoWhitespace(r.value.password) && !IsWhitespace(r.value.ch)
  {
    var words := Words(line);
    if |words| < 3 then None
    else
      var minmax := SplitOn(words[0], "-");
      if |minmax| < 2 then None
      else
        match (ParseUnsigned(minmax[0]), ParseUnsigned(minmax[1]))
        case (Some(left), Some(right)) => Some(Entry(left, right, words[1][0], words[2]))
        case _ => None
  }

  /** The text form of an entry, as the puzzle input writes it. */
  function FormatEntry(e: Entry): string {
    NatToString(e.numLeft) + "-" + NatToString(e.numRight) + " " + [e.ch] + ": " + e.password
  }

  /** An entry the text form can carry: the character and the password contain no whitespace. */
  predicate Printable(e: Entry) {
    !IsWhitespace(e.ch) && |e.password| > 0 && NoWhitespace(e.password)
  }

  /** Decoding inverts formatting for every printable entry. */
  lemma ParseFormatEntry(e: Entry)
    requires Printable(e)
    ensures ParseEntry(FormatEntry(e)) == Some(e)
  {
    var left, right := NatToString(e.numLeft), NatToString(e.numRight);
    FormatEntryWords(e);
    RangeSplit(left, right);
    ParseUnsignedOfNatToString(e.numLeft);
    ParseUnsignedOfNatToString(e.numRight);
  }

  /** The range `a-b` splits at its dash into the two numbers. */
  lemma RangeSplit(left: string, right: string)
    requires AllDigits(left) && AllDigits(right)
    ensures SplitOn(left + "-" + right, "-") == [left, right]
  {
    assert '-' !in left && '-' !in right;
    assert Join([left, right], "-") == left + "-" + right;
    SplitOnJoin([left, right], '-');
  }

  /** A formatted entry has three words: the range, the character with its colon, the password. */
  lemma FormatEntryWords(e: Entry)
    requires Printable(e)
    ensures Words(FormatEntry(e)) == [NatToString(e.numLeft) + "-" + NatToString(e.numRight), [e.ch] + ":", e.password]
  {
    var left, right := NatToString(e.numLeft), NatToString(e.numRight);
    var range := left + "-" + right;
    var mark := [e.ch] + ":";
    var words := [range, mark, e.password];
    assert NoWhitespace(range) by {
      assert forall i :: 0 <= i < |range| ==> range[i] == '-' || IsDigit(range[i]);
    }
    assert FormatEntry(e) == Join(words, " ") by {
      JoinCons(mark, [e.password], " ");
      JoinCons(range, [mark, e.password], " ");
    }
    assert forall i :: 0 <= i < |words| ==> |words[i]| > 0 && NoWhitespace(words[i]);
    WordsOfJoin(words);
  }

  // ---------------------------------------------------------------------------
  // Counting

  /** Both policy positions are at least 1 in every entry. */
  predicate PositionsFromOne(entries: seq<Entry>) {
    forall i :: 0 <= i < |entries| ==> entries[i].numLeft >= 1 && entries[i].numRight >= 1
  }

  function PolicyTwo(e: Entry): bool {
    e.numLeft >= 1 && e.numRight >= 1 && ValidPartTwo(e)
  }

  /** The first part: how many entries satisfy the first policy. */
  function PartOne(entries: seq<Entry>): (n: nat)
    ensures n <= |entries|
  {
    CountIf(entries, ValidPartOne)
  }

  /** The second part: how many entries satisfy the second policy. */
  function PartTwo(entries: seq<Entry>): (n: nat)
    requires PositionsFromOne(entries)
    ensures n <= |entries|
  {
    CountIf(entries, PolicyTwo)
  }

  /** The first part counts exactly the positions of entries valid under the first policy. */
  lemma PartOneCounts(entries: seq<Entry>)
    ensures PartOne(entries) == |set i: nat | i < |entries| && ValidPartOne(entries[i])|
  {
    CountIfMatching(entries, ValidPartOne);
    assert Matching(entries, ValidPartOne) == set i: nat | i < |entries| && ValidPartOne(entries[i]);
  }

  /** The second part counts exactly the positions of entries valid under the second policy. */
  lemma PartTwoCounts(entries: seq<Entry>)
    requires PositionsFromOne(entries)
    ensures PartTwo(entries) == |set i: nat | i < |entries| && ValidPartTwo(entries[i])|
  {
    CountIfMatching(entries, PolicyTwo);
    assert Matching(entries, PolicyTwo) == set i: nat | i < |entries| && ValidPartTwo(entries[i]);
  }

  // ---------------------------------------------------------------------------
  // The published example

  /** The entries of the puzzle statement's example. */
  function SampleEntries(): seq<Entry> {
    [Entry(1, 3, 'a', "abcde"), Entry(1, 3, 'b', "cdefg"), Entry(2, 9, 'c', "ccccccccc")]
  }

  /** The three sample lines decode to the three sample entries. */
  lemma SampleDecodes()
    ensures ParseEntry("1-3 a: abcde") == Some(Entry(1, 3, 'a', "abcde"))
    ensures ParseEntry("1-3 b: cdefg") == Some(Entry(1, 3, 'b', "cdefg"))
    ensures ParseEntry("2-9 c: ccccccccc") == Some(Entry(2, 9, 'c', "ccccccccc"))
  {
    SampleDecodesFirst();
    SampleDecodesSecond();
    SampleDecodesThird();
  }

  lemma SampleDecodesFirst()
    ensures ParseEntry("1-3 a: abcde") == Some(Entry(1, 3, 'a', "abcde"))
  {
    assert DigitChar(1) == '1' && DigitChar(3) == '3';
    assert "1-3 a: abcde" == ['1', '-', '3', ' ', 'a', ':', ' '] + "abcde";
    SampleLine(1, 3, 'a', "abcde");
  }

  lemma SampleDecodesSecond()
    ensures ParseEntry("1-3 b: cdefg") == Some(Entry(1, 3, 'b', "cdefg"))
  {
    assert DigitChar(1) == '1' && DigitChar(3) == '3';
    assert "1-3 b: cdefg" == ['1', '-', '3', ' ', 'b', ':', ' '] + "cdefg";
    SampleLine(1, 3, 'b', "cdefg");
  }

  lemma SampleDecodesThird()
    ensures ParseEntry("2-9 c: ccccccccc") == Some(Entry(2, 9, 'c', "ccccccccc"))
  {
    assert DigitChar(2) == '2' && DigitChar(9) == '9';
    assert "2-9 c: ccccccccc" == ['2', '-', '9', ' ', 'c', ':', ' '] + "ccccccccc";
    SampleLine(2, 9, 'c', "ccccccccc");
  }

  lemma SampleLine(left: nat, right: nat, ch: char, password: string)
    requires left < 10 && right < 10 && 'a' <= ch <= 'z'
    requires |password| > 0 && forall i :: 0 <= i < |password| ==> 'a' <= password[i] <= 'z'
    ensures ParseEntry([DigitChar(left), '-', DigitChar(right), ' ', ch, ':', ' '] + password)
      == Some(Entry(left, right, ch, password))
  {
    var e := Entry(left, right, ch, password);
    assert FormatEntry(e) == [DigitChar(left), '-', DigitChar(right), ' ', ch, ':', ' '] + password;
    ParseFormatEntry(e);
  }

  /** Two sample entries meet the first policy. */
  lemma SamplePartOne()
    ensures PartOne(SampleEntries()) == 2
  {
    var a, b, c := Entry(1, 3, 'a', "abcde"), Entry(1, 3, 'b', "cdefg"), Entry(2, 9, 'c', "ccccccccc");
    assert ValidPartOne(a) && !ValidPartOne(b) && ValidPartOne(c);
    CountIfOfThree(a, b, c, ValidPartOne);
  }

  /** One sample entry meets the second policy. */
  lemma SamplePartTwo()
    ensures PartTwo(SampleEntries()) == 1
  {
    var a, b, c := Entry(1, 3, 'a', "abcde"), Entry(1, 3, 'b', "cdefg"), Entry(2, 9, 'c', "ccccccccc");
    assert PolicyTwo(a) && !PolicyTwo(b) && !PolicyTwo(c);
    CountIfOfThree(a, b, c, PolicyTwo);
  }
}
