/**
 * Luggage rules: each rule names a bag colour and the bags (a count and a colour)
 * such a bag must directly contain. The first part counts the rules whose colour can
 * eventually hold a shiny gold bag; the second counts the bags inside a shiny gold bag.
 */
module Day7 {
  import opened Arith
  import opened Wrappers
  import opened Text

  /** `count` bags of colour `color`, as one entry of a rule's list. */
  datatype Bag = Bag(count: nat, color: string)

  /** A bag colour and the bags it must directly contain. */
  datatype Rule = Rule(color: string, bags: seq<Bag>)

  /** The colour both parts ask about. */
  const ShinyGold: string := "shiny gold"

  /** The phrase between a rule's colour and its list. */
  const Contain: string := "bags contain"

  // ---------------------------------------------------------------------------
  // Decoding

  /**
   * One comma-separated item of a rule, such as ` 2 muted yellow bags.`: trimmed, cut
   * at its first space into the count and the rest; the colour is what precedes the
   * first ` bag` of the rest. An item without a space, or whose count is not a number,
   * is a panic in the source and `None` here.
   */
  function ParseItem(item: string): (r: Option<Bag>)
    ensures ' ' !in Trim(item) ==> r.None?
    ensures r.Some? ==> NoMatchBefore(r.value.color, " bag", |r.value.color|)
  {
    var t := Trim(item);
    if ' ' !in t then None
    else
      var k := FirstIndex(t, ' ');
      match ParseUnsigned(Trim(t[..k]))
      case None => None
      case Some(n) =>
        SplitOnFirstPiece(t[k + 1..], " bag");
        Some(Bag(n, SplitOn(t[k + 1..], " bag")[0]))
  }

  /**
   * Every element decoded by `f`, or `None` as soon as one of them fails: a `map` whose
   * closure may panic, collected into a vector.
   */
  function DecodeAll<T>(xs: seq<string>, f: string -> Option<T>): (r: Option<seq<T>>)
    ensures r.None? ==> exists i :: 0 <= i < |xs| && f(xs[i]).None?
    ensures r.Some? ==> |r.value| == |xs| && forall i :: 0 <= i < |xs| ==> f(xs[i]) == Some(r.value[i])
    decreases |xs|
  {
    if |xs| == 0 then Some([])
    else
      var head := f(xs[0]);
      if head.None? then None
      else
        var tail := DecodeAll(xs[1..], f);
        if tail.None? then
          assert exists i :: 1 <= i < |xs| && f(xs[i]).None? by {
            var i :| 0 <= i < |xs[1..]| && f(xs[1..][i]).None?;
            assert xs[1..][i] == xs[i + 1];
          }
          None
        else
          assert forall i :: 1 <= i < |xs| ==> xs[i] == xs[1..][i - 1];
          Some([head.value] + tail.value)
  }

  /**
   * `From<String> for Rule`: the line splits at `bags contain` into exactly two parts
   * (any other number is a panic in the source and `None` here); the colour is the
   * trimmed first part; a second part reading `no other bags.` gives an empty list,
   * and otherwise its comma-separated items are decoded one by one.
   */
  function ParseRule(line: string): (r: Option<Rule>)
    ensures |SplitOn(line, Contain)| != 2 ==> r.None?
    ensures r.Some? && Trim(SplitOn(line, Contain)[1]) == "no other bags." ==> r.value.bags == []
    ensures r.Some? ==> forall b :: b in r.value.bags ==> NoMatchBefore(b.color, " bag", |b.color|)
  {
    var parts := SplitOn(line, Contain);
    if |parts| != 2 then None
    else
      var color := Trim(parts[0]);
      if Trim(parts[1]) == "no other bags." then Some(Rule(color, []))
      else
        match DecodeAll(SplitOn(parts[1], ","), ParseItem)
        case None => None
        case Some(bags) => Some(Rule(color, bags))
  }

  /** An item as the puzzle writes it: ` <count> <colour> bag<suffix>`. */
  function ItemText(count: nat, color: string, suffix: string): string {
    " " + NatToString(count) + " " + color + " bag" + suffix
  }

  /**
   * An item written as the puzzle writes it decodes to its count and colour when
   * ` bag` does not start inside the colour and the suffix (`s`, `.`, `s.` or nothing)
   * holds no whitespace.
   */
  lemma ParseItemOf(count: nat, name: string, suffix: string)
    requires NoMatchBefore(name + " bag" + suffix, " bag", |name|)
    requires NoWhitespace(suffix)
    ensures ParseItem(ItemText(count, name, suffix)) == Some(Bag(count, name))
  {
    var item := ItemText(count, name, suffix);
    var digits, rest := NatToString(count), name + " bag" + suffix;
    ItemTrim(count, name, suffix);
    var t := Trim(item);
    assert t == digits + " " + rest;
    assert t[..|digits|] == digits && t[|digits|] == ' ' && t[|digits| + 1..] == rest;
    assert ' ' !in digits by {
      assert forall i :: 0 <= i < |digits| ==> IsDigit(digits[i]);
    }
    assert ParseUnsigned(Trim(digits)) == Some(count) by {
      TrimPadded("", digits, "");
      assert "" + digits + "" == digits;
      ParseUnsignedOfNatToString(count);
    }
    SplitOnAt(name, " bag", suffix);
    ParseItemFrom(item, |digits|, count, name);
  }

  /** The item's padding is its leading space. */
  lemma ItemTrim(count: nat, name: string, suffix: string)
    requires NoWhitespace(suffix)
    ensures Trim(" " + NatToString(count) + " " + name + " bag" + suffix) == NatToString(count) + " " + name + " bag" + suffix
  {
    var t := NatToString(count) + " " + name + " bag" + suffix;
    assert " " + NatToString(count) + " " + name + " bag" + suffix == " " + t + "";
    assert !IsWhitespace(t[|t| - 1]) by {
      if |suffix| > 0 {
        assert t[|t| - 1] == suffix[|suffix| - 1];
      } else {
        assert t[|t| - 1] == 'g';
      }
    }
    assert IsDigit(t[0]);
    TrimPadded(" ", t, "");
  }

  /** An item decodes to what its trimmed text, cut at the first space, reads as. */
  lemma ParseItemFrom(item: string, k: nat, n: nat, name: string)
    requires k < |Trim(item)| && Trim(item)[k] == ' ' && ' ' !in Trim(item)[..k]
    requires ParseUnsigned(Trim(Trim(item)[..k])) == Some(n)
    requires SplitOn(Trim(item)[k + 1..], " bag")[0] == name
    ensures ParseItem(item) == Some(Bag(n, name))
  {
    var t := Trim(item);
    var i := FirstIndex(t, ' ');
    assert i == k;
  }

  /**
   * A rule listing two entries, written as the puzzle writes it, decodes to that rule.
   * The conditions on the characters are a simple sufficient reason for the separators
   * to be found where they were written: no `b` before `bags contain`, no `c` after
   * it, and no `a` (hence no ` bag`) nor `,` inside a listed colour.
   */
  lemma ParseRuleOfTwo(color: string, n1: nat, c1: string, n2: nat, c2: string)
    requires |color| > 0 && !IsWhitespace(color[0]) && !IsWhitespace(color[|color| - 1])
    requires 'b' !in color
    requires 'a' !in c1 && 'c' !in c1 && ',' !in c1
    requires 'a' !in c2 && 'c' !in c2 && ',' !in c2
    ensures ParseRule(color + " " + Contain + ItemText(n1, c1, "") + "," + ItemText(n2, c2, "s."))
      == Some(Rule(color, [Bag(n1, c1), Bag(n2, c2)]))
  {
    var first, second := ItemText(n1, c1, ""), ItemText(n2, c2, "s.");
    var head, tail := color + " ", first + "," + second;
    assert color + " " + Contain + first + "," + second == head + Contain + tail;
    assert SplitOn(head + Contain + tail, Contain) == [head, tail] by {
      ItemAvoids(n1, c1, "", 'c');
      ItemAvoids(n2, c2, "s.", 'c');
      RuleHalves(head, first, second);
    }
    assert Trim(head) == color by {
      TrimPadded("", color, " ");
      assert "" + color + " " == head;
    }
    RuleList(n1, c1, n2, c2);
    ParseRuleFrom(head + Contain + tail, head, tail, [first, second], [Bag(n1, c1), Bag(n2, c2)]);
  }

  /** The list part of a two-entry rule: not the empty list, two items, both decoding. */
  lemma RuleList(n1: nat, c1: string, n2: nat, c2: string)
    requires 'a' !in c1 && ',' !in c1
    requires 'a' !in c2 && ',' !in c2
    ensures var first, second := ItemText(n1, c1, ""), ItemText(n2, c2, "s.");
      && Trim(first + "," + second) != "no other bags."
      && SplitOn(first + "," + second, ",") == [first, second]
      && DecodeAll([first, second], ParseItem) == Some([Bag(n1, c1), Bag(n2, c2)])
  {
    var first, second := ItemText(n1, c1, ""), ItemText(n2, c2, "s.");
    ItemListTrim(n1, c1, second);
    assert SplitOn(first + "," + second, ",") == [first, second] by {
      ItemAvoids(n1, c1, "", ',');
      ItemAvoids(n2, c2, "s.", ',');
      TwoItems(first, second);
    }
    assert DecodeAll([first, second], ParseItem) == Some([Bag(n1, c1), Bag(n2, c2)]) by {
      ItemDecodes(n1, c1, "");
      ItemDecodes(n2, c2, "s.");
      DecodeTwo(first, second, ParseItem);
    }
  }

  /** A character that is no digit, none of ` bag`, and not in the colour or the suffix is not in the item. */
  lemma ItemAvoids(count: nat, color: string, suffix: string, c: char)
    requires !IsDigit(c) && c !in " bag" && c !in color && c !in suffix
    ensures c !in ItemText(count, color, suffix)
  {
    DigitsHaveNoLetter(NatToString(count), c);
  }

  /** The line splits at `bags contain` after the colour when no `b` precedes it and no `c` follows. */
  lemma RuleHalves(head: string, first: string, second: string)
    requires 'b' !in head && 'c' !in first && 'c' !in second
    ensures SplitOn(head + Contain + (first + "," + second), Contain) == [head, first + "," + second]
  {
    var tail := first + "," + second;
    NoMatchBeforeByChar(head, Contain, tail, 0);
    SplitOnAt(head, Contain, tail);
    SplitOnWithout(tail, Contain, 5);
  }

  /** A list of items is not the empty list's text. */
  lemma ItemListTrim(n1: nat, c1: string, second: string)
    requires |second| > 0 && second[|second| - 1] == '.'
    ensures Trim(ItemText(n1, c1, "") + "," + second) != "no other bags."
  {
    var list := NatToString(n1) + " " + c1 + " bag" + "," + second;
    assert IsDigit(list[0]) && list[|list| - 1] == '.';
    TrimPadded(" ", list, "");
    assert " " + list + "" == ItemText(n1, c1, "") + "," + second;
    assert Trim(" " + list + "")[0] != 'n';
  }

  /** Two items without commas split apart at the comma between them. */
  lemma TwoItems(first: string, second: string)
    requires ',' !in first && ',' !in second
    ensures SplitOn(first + "," + second, ",") == [first, second]
  {
    assert Join([first, second], ",") == first + "," + second;
    SplitOnJoin([first, second], ',');
  }

  /** An item whose colour has no `a` decodes. */
  lemma ItemDecodes(count: nat, color: string, suffix: string)
    requires 'a' !in color && NoWhitespace(suffix)
    ensures ParseItem(ItemText(count, color, suffix)) == Some(Bag(count, color))
  {
    assert 'a' !in " b";
    NoMatchBeforeByChar(color, " bag", suffix, 2);
    ParseItemOf(count, color, suffix);
  }

  /** A string of digits holds no character outside `0`-`9`. */
  lemma DigitsHaveNoLetter(digits: string, c: char)
    requires AllDigits(digits) && !IsDigit(c)
    ensures c !in digits
  {
  }

  /** The rule decoded in the source's unit test. */
  lemma ParseRuleExample(line: string)
    requires line == "light red bags contain 1 bright white bag, 2 muted yellow bags."
    ensures ParseRule(line) == Some(Rule("light red", [Bag(1, "bright white"), Bag(2, "muted yellow")]))
  {
    ExampleLine(line);
    ParseRuleOfTwo("light red", 1, "bright white", 2, "muted yellow");
  }

  /** The unit test's line, in the pieces `ParseRuleOfTwo` speaks about. */
  lemma ExampleLine(line: string)
    requires line == "light red bags contain 1 bright white bag, 2 muted yellow bags."
    ensures line == "light red" + " " + Contain + ItemText(1, "bright white", "") + "," + ItemText(2, "muted yellow", "s.")
  {
    ExampleItemTexts();
    ExampleLineStart();
    ExampleLineEnd(line);
  }

  lemma ExampleLineStart()
    ensures "light red" + " " + Contain == "light red bags contain"
  {
    assert "light red" + " " == "light red ";
  }

  lemma ExampleLineEnd(line: string)
    requires line == "light red bags contain 1 bright white bag, 2 muted yellow bags."
    ensures "light red bags contain" + " 1 bright white bag" + "," + " 2 muted yellow bags." == line
  {
    ExampleLineFirstItem();
    ExampleLineComma();
    ExampleLineSecondItem();
  }

  lemma ExampleLineFirstItem()
    ensures "light red bags contain" + " 1 bright white bag" == "light red bags contain 1 bright white bag"
  {
  }

  lemma ExampleLineComma()
    ensures "light red bags contain 1 bright white bag" + "," == "light red bags contain 1 bright white bag,"
  {
  }

  lemma ExampleLineSecondItem()
    ensures "light red bags contain 1 bright white bag," + " 2 muted yellow bags."
      == "light red bags contain 1 bright white bag, 2 muted yellow bags."
  {
  }

  lemma ExampleItemTexts()
    ensures ItemText(1, "bright white", "") == " 1 bright white bag"
    ensures ItemText(2, "muted yellow", "s.") == " 2 muted yellow bags."
  {
    ExampleFirstItem();
    ExampleSecondItem();
  }

  lemma ExampleFirstItem()
    ensures ItemText(1, "bright white", "") == " 1 bright white bag"
  {
    assert NatToString(1) == "1";
    assert " " + "1" + " " == " 1 ";
    assert " 1 " + "bright white" == " 1 bright white";
    assert " 1 bright white" + " bag" + "" == " 1 bright white bag";
  }

  lemma ExampleSecondItem()
    ensures ItemText(2, "muted yellow", "s.") == " 2 muted yellow bags."
  {
    assert NatToString(2) == "2";
    assert " " + "2" + " " == " 2 ";
    assert " 2 " + "muted yellow" == " 2 muted yellow";
    assert " 2 muted yellow" + " bag" + "s." == " 2 muted yellow bags.";
  }

  /** Decoding a list of two. */
  lemma DecodeTwo<T>(a: string, b: string, f: string -> Option<T>)
    requires f(a).Some? && f(b).Some?
    ensures DecodeAll([a, b], f) == Some([f(a).value, f(b).value])
  {
    assert [b][1..] == [];
    assert [f(b).value] + [] == [f(b).value];
    assert DecodeAll([b], f) == Some([f(b).value]);
    assert [a, b][1..] == [b];
    assert [f(a).value] + [f(b).value] == [f(a).value, f(b).value];
  }

  /** A line decodes to what its two halves and its list of items read as. */
  lemma ParseRuleFrom(line: string, head: string, tail: string, items: seq<string>, bags: seq<Bag>)
    requires SplitOn(line, Contain) == [head, tail]
    requires Trim(tail) != "no other bags."
    requires SplitOn(tail, ",") == items && DecodeAll(items, ParseItem) == Some(bags)
    ensures ParseRule(line) == Some(Rule(Trim(head), bags))
  {
  }

  // ---------------------------------------------------------------------------
  // Writing rules

  /** The ending of an entry's `bag`: none for a count of one, `s` otherwise. */
  function Plural(count: nat): string {
    if count == 1 then "" else "s"
  }

  /** The entries of a list as the puzzle writes them, the last one closed by a full stop. */
  function ItemTexts(bags: seq<Bag>): (items: seq<string>)
    ensures |items| == |bags|
  {
    seq(|bags|, i requires 0 <= i < |bags| =>
      ItemText(bags[i].count, bags[i].color, Plural(bags[i].count) + if i == |bags| - 1 then "." else ""))
  }

  /** A rule's list as the puzzle writes it. */
  function ListText(bags: seq<Bag>): string {
    if |bags| == 0 then " no other bags." else Join(ItemTexts(bags), ",")
  }

  /** A rule as one line of the puzzle's input. */
  function FormatRule(r: Rule): string {
    r.color + " " + Contain + ListText(r.bags)
  }

  /**
   * The colours of a rule can be written out and read back: its own colour has no
   * blank ends and no `bags contain`; a listed colour has no `,`, no ` bag` and no
   * `bags contain`.
   */
  predicate Writable(r: Rule) {
    && |r.color| > 0 && !IsWhitespace(r.color[0]) && !IsWhitespace(r.color[|r.color| - 1])
    && NoMatchBefore(r.color, Contain, |r.color|)
    && forall b :: b in r.bags ==>
         && ',' !in b.color
         && NoMatchBefore(b.color, " bag", |b.color|)
         && NoMatchBefore(b.color, Contain, |b.color|)
  }

  /** Decoding a written rule gives the rule back. */
  lemma ParseFormatRule(r: Rule)
    requires Writable(r)
    ensures ParseRule(FormatRule(r)) == Some(r)
  {
    var head, tail := r.color + " ", ListText(r.bags);
    RuleSplits(r);
    assert Trim(head) == r.color by {
      TrimPadded("", r.color, " ");
      assert "" + r.color + " " == head;
    }
    if |r.bags| == 0 {
      EmptyListTrim();
      assert r == Rule(r.color, []);
    } else {
      var items := ItemTexts(r.bags);
      ListTrim(r.bags);
      ListDecodes(r.bags);
      ParseRuleFrom(FormatRule(r), head, tail, items, r.bags);
    }
  }

  /** The empty list's text trims to what the decoder looks for. */
  lemma EmptyListTrim()
    ensures Trim(ListText([])) == "no other bags."
  {
    TrimPadded(" ", "no other bags.", "");
    assert " " + "no other bags." + "" == ListText([]);
  }

  /** A written non-empty list splits at its commas into entries that decode to the list. */
  lemma ListDecodes(bags: seq<Bag>)
    requires |bags| > 0
    requires forall b :: b in bags ==> ',' !in b.color && NoMatchBefore(b.color, " bag", |b.color|)
    ensures SplitOn(ListText(bags), ",") == ItemTexts(bags)
    ensures DecodeAll(ItemTexts(bags), ParseItem) == Some(bags)
  {
    var items := ItemTexts(bags);
    ItemsDecode(bags);
    SplitOnJoin(items, ',');
    var r := DecodeAll(items, ParseItem);
    assert r.Some? && |r.value| == |bags|;
    assert r.value == bags;
  }

  /** A written rule splits at its `bags contain` into the colour with its space and the list. */
  lemma RuleSplits(r: Rule)
    requires Writable(r)
    ensures SplitOn(FormatRule(r), Contain) == [r.color + " ", ListText(r.bags)]
  {
    var head, tail := r.color + " ", ListText(r.bags);
    assert FormatRule(r) == head + Contain + tail;
    ListAvoidsContain(r.bags);
    HeadAvoidsContain(r.color, tail);
    SplitOnAt(head, Contain, tail);
    SplitOnNone(tail, Contain);
  }

  /** Every written entry is free of commas and decodes to its bag. */
  lemma ItemsDecode(bags: seq<Bag>)
    requires forall b :: b in bags ==> ',' !in b.color && NoMatchBefore(b.color, " bag", |b.color|)
    ensures var items := ItemTexts(bags);
      forall i :: 0 <= i < |items| ==> ',' !in items[i] && ParseItem(items[i]) == Some(bags[i])
  {
    var items := ItemTexts(bags);
    forall i | 0 <= i < |items|
      ensures ',' !in items[i] && ParseItem(items[i]) == Some(bags[i])
    {
      var b, suffix := bags[i], Plural(bags[i].count) + if i == |items| - 1 then "." else "";
      assert b in bags;
      assert NoWhitespace(suffix) && ',' !in suffix by {
        assert forall j :: 0 <= j < |suffix| ==> suffix[j] == 's' || suffix[j] == '.';
      }
      ItemAvoids(b.count, b.color, suffix, ',');
      BagAfterColor(b.color, suffix);
      ParseItemOf(b.count, b.color, suffix);
    }
  }

  /** Only the `bags contain` that was written follows a colour without one. */
  lemma HeadAvoidsContain(color: string, tail: string)
    requires NoMatchBefore(color, Contain, |color|)
    ensures NoMatchBefore(color + " " + Contain + tail, Contain, |color| + 1)
  {
    var s := color + " " + Contain + tail;
    forall k | 0 <= k < |color| + 1
      ensures !StartsWith(s[k..], Contain)
    {
      if k + |Contain| <= |color| {
        assert s[k..][..|Contain|] == color[k..][..|Contain|];
      } else {
        SpaceThenB(s, |color|, k);
      }
    }
  }

  /** No `bags contain` covers a space followed by `b`. */
  lemma SpaceThenB(s: string, p: nat, k: nat)
    requires k <= p < k + |Contain| && p + 1 < |s| && s[p] == ' ' && s[p + 1] == 'b'
    ensures !StartsWith(s[k..], Contain)
  {
    if |Contain| <= |s| - k {
      if p - k == 4 {
        assert s[k..][..|Contain|][5] == 'b';
      } else {
        assert s[k..][..|Contain|][p - k] == ' ';
      }
    }
  }

  /** A written entry holds no `bags contain` when its colour holds none. */
  lemma ItemAvoidsContain(count: nat, color: string, suffix: string)
    requires NoMatchBefore(color, Contain, |color|) && |suffix| <= 2
    ensures var item := ItemText(count, color, suffix); NoMatchBefore(item, Contain, |item|)
  {
    var item, digits := ItemText(count, color, suffix), NatToString(count);
    var left := " " + digits + " ";
    var p := |left| + |color|;
    assert item == left + color + " bag" + suffix;
    forall k | 0 <= k < |item|
      ensures !StartsWith(item[k..], Contain)
    {
      if k < |left| {
        assert item[k] == ' ' || IsDigit(item[k]);
        assert item[k..][0] == item[k];
      } else if k + |Contain| <= p {
        assert item[k..][..|Contain|] == color[k - |left|..][..|Contain|];
      } else if k <= p {
        assert item[p] == ' ' && item[p + 1] == 'b';
        SpaceThenB(item, p, k);
      }
    }
  }

  /** A written list holds no `bags contain` when no listed colour does. */
  lemma ListAvoidsContain(bags: seq<Bag>)
    requires forall b :: b in bags ==> NoMatchBefore(b.color, Contain, |b.color|)
    ensures NoMatchBefore(ListText(bags), Contain, |ListText(bags)|)
  {
    if |bags| == 0 {
      AvoidsByChar(ListText(bags), Contain, 5);
    } else {
      var items := ItemTexts(bags);
      forall i | 0 <= i < |items|
        ensures NoMatchBefore(items[i], Contain, |items[i]|)
      {
        assert bags[i] in bags;
        ItemAvoidsContain(bags[i].count, bags[i].color, Plural(bags[i].count) + if i == |items| - 1 then "." else "");
      }
      JoinAvoids(items, ',', Contain);
    }
  }

  /** A written list of entries does not trim to the empty list's text: it starts with a digit. */
  lemma ListTrim(bags: seq<Bag>)
    requires |bags| > 0
    ensures Trim(ListText(bags)) != "no other bags."
  {
    var items := ItemTexts(bags);
    var tail := ListText(bags);
    assert items[0][0] == ' ' && IsDigit(items[0][1]);
    if |items| > 1 {
      assert tail == items[0] + "," + Join(items[1..], ",");
    }
    assert tail[0] == ' ' && IsDigit(tail[1]);
    TrimLeadingSpace(tail);
  }

  /** Trimming a string that starts with one space and then a non-blank character. */
  lemma TrimLeadingSpace(s: string)
    requires |s| >= 2 && s[0] == ' ' && !IsWhitespace(s[1])
    ensures |Trim(s)| > 0 && Trim(s)[0] == s[1]
  {
    var k := LeadingWhitespace(s);
    assert k == 1;
    var t := TrimStart(s);
    assert t[0] == s[1];
    var m := TrailingWhitespace(t);
    assert m < |t|;
  }

  /** ` bag` written after a colour without one starts nowhere inside the colour. */
  lemma BagAfterColor(color: string, suffix: string)
    requires NoMatchBefore(color, " bag", |color|)
    ensures NoMatchBefore(color + " bag" + suffix, " bag", |color|)
  {
    var s := color + " bag" + suffix;
    forall k | 0 <= k < |color|
      ensures !StartsWith(s[k..], " bag")
    {
      if k + 4 <= |color| {
        assert s[k..][..4] == color[k..][..4];
      } else {
        assert s[k..][..4][|color| - k] == ' ';
      }
    }
  }

  // ---------------------------------------------------------------------------
  // Looking rules up

  /** `entries.iter().find(|f| f.color == color)`: the first rule for the colour, if any. */
  function Lookup(rules: seq<Rule>, color: string): (r: Option<Rule>)
    ensures r.None? <==> forall i :: 0 <= i < |rules| ==> rules[i].color != color
    ensures r.Some? ==> r.value in rules && r.value.color == color
    decreases |rules|
  {
    if |rules| == 0 then None
    else if rules[0].color == color then Some(rules[0])
    else Lookup(rules[1..], color)
  }

  /** The rule found is the one at the first position holding the colour. */
  lemma {:induction false} LookupFirst(rules: seq<Rule>, i: nat)
    requires i < |rules|
    requires forall j :: 0 <= j < i ==> rules[j].color != rules[i].color
    ensures Lookup(rules, rules[i].color) == Some(rules[i])
    decreases i
  {
    if i > 0 {
      assert rules[1..][i - 1] == rules[i];
      LookupFirst(rules[1..], i - 1);
    }
  }

  /** Every colour has at most one rule (as in the puzzle's input). */
  predicate UniqueColors(rules: seq<Rule>) {
    forall i, j :: 0 <= i < j < |rules| ==> rules[i].color != rules[j].color
  }

  // ---------------------------------------------------------------------------
  // Acyclicity

  /** Every colour the rule lists is ranked strictly below the rule's own colour. */
  ghost predicate Descends(rule: Rule, rank: string -> nat) {
    forall b :: b in rule.bags ==> rank(b.color) < rank(rule.color)
  }

  /**
   * The rules found by `Lookup` form no cycle, witnessed by a ranking of the colours.
   * Both recursions of the source go on forever along a cycle, so this is what they
   * ask of their input.
   */
  ghost predicate Ranked(rules: seq<Rule>, rank: string -> nat) {
    forall c :: Lookup(rules, c).Some? ==> Descends(Lookup(rules, c).value, rank)
  }

  /** A ranking under which every rule descends makes the lookups acyclic. */
  lemma RankedByRules(rules: seq<Rule>, rank: string -> nat)
    requires forall i :: 0 <= i < |rules| ==> Descends(rules[i], rank)
    ensures Ranked(rules, rank)
  {
    forall c | Lookup(rules, c).Some?
      ensures Descends(Lookup(rules, c).value, rank)
    {
      var i :| 0 <= i < |rules| && rules[i] == Lookup(rules, c).value;
    }
  }

  // ---------------------------------------------------------------------------
  // The first part

  /** The rule lists a shiny gold bag directly (`bags.iter().any(..)`). */
  predicate HoldsGold(rule: Rule) {
    exists j :: 0 <= j < |rule.bags| && rule.bags[j].color == ShinyGold
  }

  /** Some rule of the colour lists a shiny gold bag directly. */
  ghost predicate DirectHolder(rules: seq<Rule>, color: string) {
    exists i :: 0 <= i < |rules| && rules[i].color == color && HoldsGold(rules[i])
  }

  /**
   * `can_contain`: true for a colour already known, false for a colour without a rule,
   * and otherwise true when some colour its rule lists can contain (tried in order).
   */
  function CanContain(known: set<string>, rules: seq<Rule>, color: string, ghost rank: string -> nat): bool
    requires Ranked(rules, rank)
    decreases rank(color), 1, 0
  {
    if color in known then true
    else
      match Lookup(rules, color)
      case None => false
      case Some(rule) => AnyCanContain(known, rules, rule.bags, rank, rank(color))
  }

  /** The loop of `can_contain` over a rule's bags, returning at the first success. */
  function AnyCanContain(known: set<string>, rules: seq<Rule>, bags: seq<Bag>, ghost rank: string -> nat, ghost bound: nat): bool
    requires Ranked(rules, rank)
    requires forall b :: b in bags ==> rank(b.color) < bound
    decreases bound, 0, |bags|
  {
    if |bags| == 0 then false
    else CanContain(known, rules, bags[0].color, rank) || AnyCanContain(known, rules, bags[1..], rank, bound)
  }

  /**
   * What the first part computes for a colour: some rule of the colour lists a shiny
   * gold bag, or the colour's first rule lists a colour for which this holds.
   */
  ghost predicate Eventually(rules: seq<Rule>, color: string, rank: string -> nat)
    requires Ranked(rules, rank)
    decreases rank(color)
  {
    DirectHolder(rules, color)
    || match Lookup(rules, color)
       case None => false
       case Some(rule) => exists j :: 0 <= j < |rule.bags| && Eventually(rules, rule.bags[j].color, rank)
  }

  /**
   * The puzzle's question for a colour: its rule lists a shiny gold bag, or a colour
   * that can eventually contain one.
   */
  ghost predicate ReachesGold(rules: seq<Rule>, color: string, rank: string -> nat)
    requires Ranked(rules, rank)
    decreases rank(color)
  {
    match Lookup(rules, color)
    case None => false
    case Some(rule) =>
      exists j :: 0 <= j < |rule.bags| && (rule.bags[j].color == ShinyGold || ReachesGold(rules, rule.bags[j].color, rank))
  }

  /** With one rule per colour, the first part's notion is the puzzle's. */
  lemma {:induction false} EventuallyReachesGold(rules: seq<Rule>, color: string, rank: string -> nat)
    requires Ranked(rules, rank) && UniqueColors(rules)
    ensures Eventually(rules, color, rank) == ReachesGold(rules, color, rank)
    decreases rank(color)
  {
    match Lookup(rules, color)
    case None =>
    case Some(rule) =>
      assert DirectHolder(rules, color) == HoldsGold(rule) by {
        if DirectHolder(rules, color) {
          var i :| 0 <= i < |rules| && rules[i].color == color && HoldsGold(rules[i]);
          LookupFirst(rules, i);
        }
      }
      forall j | 0 <= j < |rule.bags|
        ensures Eventually(rules, rule.bags[j].color, rank) == ReachesGold(rules, rule.bags[j].color, rank)
      {
        EventuallyReachesGold(rules, rule.bags[j].color, rank);
      }
  }

  /** Every colour in `known` satisfies `Eventually`. */
  ghost predicate KnownSound(known: set<string>, rules: seq<Rule>, rank: string -> nat)
    requires Ranked(rules, rank)
  {
    forall c :: c in known ==> Eventually(rules, c, rank)
  }

  /** Every colour of a rule listing a shiny gold bag is in `known`. */
  predicate KnownComplete(known: set<string>, rules: seq<Rule>) {
    forall i :: 0 <= i < |rules| && HoldsGold(rules[i]) ==> rules[i].color in known
  }

  /**
   * Once `known` holds every direct holder and only colours satisfying `Eventually`,
   * `can_contain` decides `Eventually`.
   */
  lemma {:induction false} CanContainAgrees(known: set<string>, rules: seq<Rule>, color: string, rank: string -> nat)
    requires Ranked(rules, rank)
    requires KnownSound(known, rules, rank) && KnownComplete(known, rules)
    ensures CanContain(known, rules, color, rank) == Eventually(rules, color, rank)
    decreases rank(color), 1, 0
  {
    if color !in known {
      match Lookup(rules, color)
      case None =>
      case Some(rule) =>
        AnyCanContainAgrees(known, rules, rule.bags, rank, rank(color));
    }
  }

  lemma {:induction false} AnyCanContainAgrees(known: set<string>, rules: seq<Rule>, bags: seq<Bag>, rank: string -> nat, bound: nat)
    requires Ranked(rules, rank)
    requires KnownSound(known, rules, rank) && KnownComplete(known, rules)
    requires forall b :: b in bags ==> rank(b.color) < bound
    ensures AnyCanContain(known, rules, bags, rank, bound) <==> exists j :: 0 <= j < |bags| && Eventually(rules, bags[j].color, rank)
    decreases bound, 0, |bags|
  {
    if |bags| > 0 {
      CanContainAgrees(known, rules, bags[0].color, rank);
      AnyCanContainAgrees(known, rules, bags[1..], rank, bound);
      assert forall j :: 1 <= j < |bags| ==> bags[j] == bags[1..][j - 1];
    }
  }

  /** The positions below `n` whose rule's colour satisfies `Eventually`. */
  ghost function HoldersBelow(rules: seq<Rule>, rank: string -> nat, n: nat): set<nat>
    requires Ranked(rules, rank) && n <= |rules|
  {
    set i: nat | i < n && Eventually(rules, rules[i].color, rank)
  }

  lemma HoldersStep(rules: seq<Rule>, rank: string -> nat, n: nat)
    requires Ranked(rules, rank) && n < |rules|
    ensures |HoldersBelow(rules, rank, n + 1)| == |HoldersBelow(rules, rank, n)| + (if Eventually(rules, rules[n].color, rank) then 1 else 0)
  {
    var after, before := HoldersBelow(rules, rank, n + 1), HoldersBelow(rules, rank, n);
    var holds := Eventually(rules, rules[n].color, rank);
    forall i: nat
      ensures i in after <==> i in before || (holds && i == n)
    {
    }
    CardinalityStep(before, after, n, holds);
  }

  /** A set that gains at most the one element `n`, which it lacked, grows by that element. */
  lemma CardinalityStep(before: set<nat>, after: set<nat>, n: nat, holds: bool)
    requires forall i :: i in after <==> i in before || (holds && i == n)
    requires n !in before
    ensures |after| == |before| + (if holds then 1 else 0)
  {
    assert after == before + (if holds then {n} else {});
  }

  /**
   * `part_one`: first collect the colours of the rules that list a shiny gold bag, then
   * walk the rules in order, counting (and adding to the set) those whose colour
   * `can_contain` accepts. The count is the number of rules whose colour satisfies
   * `Eventually`.
   */
  method PartOne(rules: seq<Rule>, ghost rank: string -> nat) returns (count: nat)
    requires Ranked(rules, rank)
    ensures count == |HoldersBelow(rules, rank, |rules|)|
    ensures count <= |rules|
  {
    var known: set<string> := {};
    for i := 0 to |rules|
      invariant KnownSound(known, rules, rank)
      invariant forall j :: 0 <= j < i && HoldsGold(rules[j]) ==> rules[j].color in known
    {
      if HoldsGold(rules[i]) {
        assert DirectHolder(rules, rules[i].color);
        known := known + {rules[i].color};
      }
    }
    count := 0;
    for i := 0 to |rules|
      invariant KnownSound(known, rules, rank) && KnownComplete(known, rules)
      invariant count == |HoldersBelow(rules, rank, i)| && count <= i
    {
      CanContainAgrees(known, rules, rules[i].color, rank);
      HoldersStep(rules, rank, i);
      if CanContain(known, rules, rules[i].color, rank) {
        known := known + {rules[i].color};
        count := count + 1;
      }
    }
  }

  // ---------------------------------------------------------------------------
  // The second part

  /**
   * The number of bags inside one bag of the colour: for each entry `(n, inner)` of its
   * first rule, the `n` bags themselves and `n` times what each holds. A colour without
   * a rule holds nothing.
   */
  function Total(rules: seq<Rule>, color: string, ghost rank: string -> nat): (n: nat)
    requires Ranked(rules, rank)
    ensures Lookup(rules, color).None? ==> n == 0
    decreases rank(color), 1, 0
  {
    match Lookup(rules, color)
    case None => 0
    case Some(rule) => BagsTotal(rules, rule.bags, rank, rank(color))
  }

  /** The bags inside a list of entries, summed in list order. */
  function BagsTotal(rules: seq<Rule>, bags: seq<Bag>, ghost rank: string -> nat, ghost bound: nat): (n: nat)
    requires Ranked(rules, rank)
    requires forall b :: b in bags ==> rank(b.color) < bound
    decreases bound, 0, |bags|
  {
    if |bags| == 0 then 0
    else
      var last := bags[|bags| - 1];
      BagsTotal(rules, bags[..|bags| - 1], rank, bound) + last.count * (1 + Total(rules, last.color, rank))
  }

  /** With one rule per colour, a rule with no entries has nothing inside. */
  lemma TotalOfEmpty(rules: seq<Rule>, rank: string -> nat, i: nat)
    requires Ranked(rules, rank) && UniqueColors(rules) && i < |rules|
    requires rules[i].bags == []
    ensures Total(rules, rules[i].color, rank) == 0
  {
    LookupFirst(rules, i);
  }

  /** With one rule per colour, the total of a two-entry rule sums over its two entries. */
  lemma TotalOfTwo(rules: seq<Rule>, rank: string -> nat, i: nat, n1: nat, c1: string, n2: nat, c2: string)
    requires Ranked(rules, rank) && UniqueColors(rules) && i < |rules|
    requires rules[i].bags == [Bag(n1, c1), Bag(n2, c2)]
    ensures Total(rules, rules[i].color, rank) == n1 * (1 + Total(rules, c1, rank)) + n2 * (1 + Total(rules, c2, rank))
  {
    var rule := rules[i];
    LookupFirst(rules, i);
    assert Lookup(rules, rule.color) == Some(rule);
    assert Bag(n1, c1) in rule.bags && Bag(n2, c2) in rule.bags;
    BagsTotalOfTwo(rules, rank, rank(rule.color), Bag(n1, c1), Bag(n2, c2));
    assert Total(rules, rule.color, rank) == BagsTotal(rules, rule.bags, rank, rank(rule.color));
  }

  lemma BagsTotalOfTwo(rules: seq<Rule>, rank: string -> nat, bound: nat, first: Bag, second: Bag)
    requires Ranked(rules, rank) && rank(first.color) < bound && rank(second.color) < bound
    ensures BagsTotal(rules, [first, second], rank, bound)
      == first.count * (1 + Total(rules, first.color, rank)) + second.count * (1 + Total(rules, second.color, rank))
  {
    var pair := [first, second];
    assert pair[..1] == [first] && [first][..0] == [];
    assert BagsTotal(rules, [first], rank, bound) == first.count * (1 + Total(rules, first.color, rank));
    assert pair[|pair| - 1] == second;
  }

  /** Summing one more entry of a list adds that entry's bags. */
  lemma BagsTotalStep(rules: seq<Rule>, bags: seq<Bag>, i: nat, rank: string -> nat, bound: nat)
    requires Ranked(rules, rank) && i < |bags|
    requires forall b :: b in bags ==> rank(b.color) < bound
    ensures BagsTotal(rules, bags[..i + 1], rank, bound)
      == BagsTotal(rules, bags[..i], rank, bound) + bags[i].count * (1 + Total(rules, bags[i].color, rank))
  {
    assert bags[..i + 1][..i] == bags[..i];
    assert bags[i] in bags;
  }

  /**
   * `add_bags`: add each entry's count to the running `bag_count`, then descend once
   * per bag of that entry. It adds exactly `Total` to the count it is given.
   */
  method AddBags(rules: seq<Rule>, bagCount: nat, color: string, ghost rank: string -> nat) returns (newCount: nat)
    requires Ranked(rules, rank)
    ensures newCount == bagCount + Total(rules, color, rank)
    decreases rank(color)
  {
    newCount := bagCount;
    match Lookup(rules, color) {
      case None =>
      case Some(rule) =>
        ghost var bound := rank(color);
        assert Descends(rule, rank);
        for i := 0 to |rule.bags|
          invariant newCount == bagCount + BagsTotal(rules, rule.bags[..i], rank, bound)
        {
          var bag := rule.bags[i];
          BagsTotalStep(rules, rule.bags, i, rank, bound);
          ghost var before, inner := newCount, Total(rules, bag.color, rank);
          newCount := newCount + bag.count;
          for k := 0 to bag.count
            invariant newCount == before + bag.count + k * inner
          {
            newCount := AddBags(rules, newCount, bag.color, rank);
            MulSucc(inner, k);
          }
          MulSucc(bag.count, inner);
        }
        assert rule.bags[..|rule.bags|] == rule.bags;
    }
  }

  /** `part_two`: the bags inside one shiny gold bag. */
  method PartTwo(rules: seq<Rule>, ghost rank: string -> nat) returns (count: nat)
    requires Ranked(rules, rank)
    ensures count == Total(rules, ShinyGold, rank)
  {
    count := AddBags(rules, 0, ShinyGold, rank);
  }

  /** `n` copies of `xs`, one after the other. */
  ghost function Repeat(n: nat, xs: seq<string>): (r: seq<string>)
    ensures |r| == n * |xs|
  {
    if n == 0 then [] else Repeat(n - 1, xs) + xs
  }

  /**
   * The colours of all the bags inside one bag of the colour, one element per physical
   * bag: for each entry `(n, inner)`, `n` times the inner bag followed by its contents.
   */
  ghost function Inside(rules: seq<Rule>, color: string, rank: string -> nat): seq<string>
    requires Ranked(rules, rank)
    decreases rank(color), 1, 0
  {
    match Lookup(rules, color)
    case None => []
    case Some(rule) => InsideAll(rules, rule.bags, rank, rank(color))
  }

  ghost function InsideAll(rules: seq<Rule>, bags: seq<Bag>, rank: string -> nat, bound: nat): seq<string>
    requires Ranked(rules, rank)
    requires forall b :: b in bags ==> rank(b.color) < bound
    decreases bound, 0, |bags|
  {
    if |bags| == 0 then []
    else
      var last := bags[|bags| - 1];
      InsideAll(rules, bags[..|bags| - 1], rank, bound) + Repeat(last.count, [last.color] + Inside(rules, last.color, rank))
  }

  /** The count of the second part is the number of bags listed by `Inside`. */
  lemma {:induction false} TotalCountsInside(rules: seq<Rule>, color: string, rank: string -> nat)
    requires Ranked(rules, rank)
    ensures Total(rules, color, rank) == |Inside(rules, color, rank)|
    decreases rank(color), 1, 0
  {
    match Lookup(rules, color)
    case None =>
    case Some(rule) => BagsTotalCountsInside(rules, rule.bags, rank, rank(color));
  }

  lemma {:induction false} BagsTotalCountsInside(rules: seq<Rule>, bags: seq<Bag>, rank: string -> nat, bound: nat)
    requires Ranked(rules, rank)
    requires forall b :: b in bags ==> rank(b.color) < bound
    ensures BagsTotal(rules, bags, rank, bound) == |InsideAll(rules, bags, rank, bound)|
    decreases bound, 0, |bags|
  {
    if |bags| > 0 {
      var last := bags[|bags| - 1];
      BagsTotalCountsInside(rules, bags[..|bags| - 1], rank, bound);
      TotalCountsInside(rules, last.color, rank);
    }
  }

  // ---------------------------------------------------------------------------
  // The published example

  /** The rules of the puzzle statement's first example. */
  function SampleRules(): seq<Rule> {
    [ Rule("light red", [Bag(1, "bright white"), Bag(2, "muted yellow")]),
      Rule("dark orange", [Bag(3, "bright white"), Bag(4, "muted yellow")]),
      Rule("bright white", [Bag(1, "shiny gold")]),
      Rule("muted yellow", [Bag(2, "shiny gold"), Bag(9, "faded blue")]),
      Rule("shiny gold", [Bag(1, "dark olive"), Bag(2, "vibrant plum")]),
      Rule("dark olive", [Bag(3, "faded blue"), Bag(4, "dotted black")]),
      Rule("vibrant plum", [Bag(5, "faded blue"), Bag(6, "dotted black")]),
      Rule("faded blue", []),
      Rule("dotted black", []) ]
  }

  /** Each colour of the example ranked by the depth of the bags it holds. */
  function SampleRank(color: string): nat {
    if color == "light red" || color == "dark orange" then 4
    else if color == "bright white" || color == "muted yellow" then 3
    else if color == "shiny gold" then 2
    else if color == "dark olive" || color == "vibrant plum" then 1
    else 0
  }

  /** The example's rules, one at a time, descend in the sample ranking. */
  lemma SampleDescends(k: nat)
    requires k < |SampleRules()|
    ensures Descends(SampleRules()[k], SampleRank)
  {
    if k == 0 {
      SampleDescends0();
    } else if k == 1 {
      SampleDescends1();
    } else if k == 2 {
      SampleDescends2();
    } else if k == 3 {
      SampleDescends3();
    } else if k == 4 {
      SampleDescends4();
    } else if k == 5 {
      SampleDescends5();
    } else if k == 6 {
      SampleDescends6();
    } else if k == 7 {
      SampleDescends7();
    } else {
      SampleDescends8();
    }
  }

  lemma SampleDescends0()
    ensures Descends(SampleRules()[0], SampleRank)
  {
    assert SampleRules()[0] == Rule("light red", [Bag(1, "bright white"), Bag(2, "muted yellow")]);
  }

  lemma SampleDescends1()
    ensures Descends(SampleRules()[1], SampleRank)
  {
    assert SampleRules()[1] == Rule("dark orange", [Bag(3, "bright white"), Bag(4, "muted yellow")]);
  }

  lemma SampleDescends2()
    ensures Descends(SampleRules()[2], SampleRank)
  {
    assert SampleRules()[2] == Rule("bright white", [Bag(1, "shiny gold")]);
  }

  lemma SampleDescends3()
    ensures Descends(SampleRules()[3], SampleRank)
  {
    assert SampleRules()[3] == Rule("muted yellow", [Bag(2, "shiny gold"), Bag(9, "faded blue")]);
  }

  lemma SampleDescends4()
    ensures Descends(SampleRules()[4], SampleRank)
  {
    assert SampleRules()[4] == Rule("shiny gold", [Bag(1, "dark olive"), Bag(2, "vibrant plum")]);
  }

  lemma SampleDescends5()
    ensures Descends(SampleRules()[5], SampleRank)
  {
    assert SampleRules()[5] == Rule("dark olive", [Bag(3, "faded blue"), Bag(4, "dotted black")]);
  }

  lemma SampleDescends6()
    ensures Descends(SampleRules()[6], SampleRank)
  {
    assert SampleRules()[6] == Rule("vibrant plum", [Bag(5, "faded blue"), Bag(6, "dotted black")]);
  }

  lemma SampleDescends7()
    ensures Descends(SampleRules()[7], SampleRank)
  {
    assert SampleRules()[7] == Rule("faded blue", []);
  }

  lemma SampleDescends8()
    ensures Descends(SampleRules()[8], SampleRank)
  {
    assert SampleRules()[8] == Rule("dotted black", []);
  }

  /** The sample ranking witnesses that the example's rules have no cycle. */
  lemma SampleRanked()
    ensures Ranked(SampleRules(), SampleRank)
  {
    forall k | 0 <= k < |SampleRules()|
      ensures Descends(SampleRules()[k], SampleRank)
    {
      SampleDescends(k);
    }
    RankedByRules(SampleRules(), SampleRank);
  }

  /** Every colour of the example has exactly one rule. */
  lemma SampleUnique()
    ensures UniqueColors(SampleRules())
  {
    var rules := SampleRules();
    assert forall i :: 0 <= i < |rules| ==> rules[i].color == [
      "light red", "dark orange", "bright white", "muted yellow", "shiny gold",
      "dark olive", "vibrant plum", "faded blue", "dotted black"][i];
  }

  /** A shiny gold bag holds 32 bags in the example. */
  lemma SamplePartTwo(rules: seq<Rule>, rank: string -> nat)
    requires rules == SampleRules() && rank == SampleRank
    ensures Ranked(rules, rank)
    ensures Total(rules, ShinyGold, rank) == 32
  {
    SampleRanked();
    SampleUnique();
    assert rules[4].color == ShinyGold;
    assert SampleShape(rules);
    SampleTotals(rules, rank);
  }

  /** The example's rules, by the shape that fixes their totals. */
  predicate SampleShape(rules: seq<Rule>) {
    && |rules| == 9
    && rules[4].bags == [Bag(1, rules[5].color), Bag(2, rules[6].color)]
    && rules[5].bags == [Bag(3, rules[7].color), Bag(4, rules[8].color)]
    && rules[6].bags == [Bag(5, rules[7].color), Bag(6, rules[8].color)]
    && rules[7].bags == [] && rules[8].bags == []
  }

  /** The example's totals, from the shape of its rules alone. */
  lemma SampleTotals(rules: seq<Rule>, rank: string -> nat)
    requires Ranked(rules, rank) && UniqueColors(rules) && SampleShape(rules)
    ensures Total(rules, rules[4].color, rank) == 32
  {
    SampleInnerTotals(rules, rank);
    TotalOfTwo(rules, rank, 4, 1, rules[5].color, 2, rules[6].color);
  }

  /** A dark olive bag holds 7 bags, a vibrant plum bag 11. */
  lemma SampleInnerTotals(rules: seq<Rule>, rank: string -> nat)
    requires Ranked(rules, rank) && UniqueColors(rules) && SampleShape(rules)
    ensures Total(rules, rules[5].color, rank) == 7
    ensures Total(rules, rules[6].color, rank) == 11
  {
    TotalOfEmpty(rules, rank, 7);
    TotalOfEmpty(rules, rank, 8);
    TotalOfTwo(rules, rank, 5, 3, rules[7].color, 4, rules[8].color);
    TotalOfTwo(rules, rank, 6, 5, rules[7].color, 6, rules[8].color);
  }

  /** Four colours of the example can eventually hold a shiny gold bag. */
  lemma SamplePartOne(rules: seq<Rule>, rank: string -> nat)
    requires rules == SampleRules() && rank == SampleRank
    ensures Ranked(rules, rank)
    ensures |HoldersBelow(rules, rank, |rules|)| == 4
  {
    SampleRanked();
    SampleUnique();
    SampleHolderShapes();
    SampleHolders(rules, rank);
    SampleHolderCount(rules, rank);
  }

  /** The example's rules, by the shape that decides the first part. */
  predicate SampleHolderShape(rules: seq<Rule>) {
    && |rules| == 9
    && rules[0].bags == [Bag(1, rules[2].color), Bag(2, rules[3].color)]
    && rules[1].bags == [Bag(3, rules[2].color), Bag(4, rules[3].color)]
    && rules[2].bags == [Bag(1, rules[4].color)]
    && rules[3].bags == [Bag(2, rules[4].color), Bag(9, rules[7].color)]
    && rules[4].color == ShinyGold
    && rules[4].bags == [Bag(1, rules[5].color), Bag(2, rules[6].color)]
    && rules[5].bags == [Bag(3, rules[7].color), Bag(4, rules[8].color)]
    && rules[6].bags == [Bag(5, rules[7].color), Bag(6, rules[8].color)]
    && rules[7].bags == [] && rules[8].bags == []
  }

  /** The example's rules have that shape. */
  lemma SampleHolderShapes()
    ensures SampleHolderShape(SampleRules())
  {
  }

  /** The colours of the first four rules reach a shiny gold bag, the other five do not. */
  lemma SampleHolders(rules: seq<Rule>, rank: string -> nat)
    requires Ranked(rules, rank) && UniqueColors(rules) && SampleHolderShape(rules)
    ensures Eventually(rules, rules[0].color, rank) && Eventually(rules, rules[1].color, rank)
    ensures Eventually(rules, rules[2].color, rank) && Eventually(rules, rules[3].color, rank)
    ensures !Eventually(rules, rules[4].color, rank) && !Eventually(rules, rules[5].color, rank)
    ensures !Eventually(rules, rules[6].color, rank) && !Eventually(rules, rules[7].color, rank)
    ensures !Eventually(rules, rules[8].color, rank)
  {
    LookupFirst(rules, 0);
    LookupFirst(rules, 1);
    LookupFirst(rules, 4);
    LookupFirst(rules, 5);
    LookupFirst(rules, 6);
    LookupFirst(rules, 7);
    LookupFirst(rules, 8);
    SampleNotEventually(rules, rank);
    SampleEventually(rules, rank);
  }

  /** Exactly four positions hold a colour that reaches a shiny gold bag, counted rule by rule. */
  lemma SampleHolderCount(rules: seq<Rule>, rank: string -> nat)
    requires Ranked(rules, rank) && |rules| == 9
    requires Eventually(rules, rules[0].color, rank) && Eventually(rules, rules[1].color, rank)
    requires Eventually(rules, rules[2].color, rank) && Eventually(rules, rules[3].color, rank)
    requires !Eventually(rules, rules[4].color, rank) && !Eventually(rules, rules[5].color, rank)
    requires !Eventually(rules, rules[6].color, rank) && !Eventually(rules, rules[7].color, rank)
    requires !Eventually(rules, rules[8].color, rank)
    ensures |HoldersBelow(rules, rank, |rules|)| == 4
  {
    SampleFirstHolders(rules, rank);
    HoldersStep(rules, rank, 4);
    HoldersStep(rules, rank, 5);
    HoldersStep(rules, rank, 6);
    HoldersStep(rules, rank, 7);
    HoldersStep(rules, rank, 8);
  }

  /** The first four rules all count. */
  lemma SampleFirstHolders(rules: seq<Rule>, rank: string -> nat)
    requires Ranked(rules, rank) && |rules| == 9
    requires Eventually(rules, rules[0].color, rank) && Eventually(rules, rules[1].color, rank)
    requires Eventually(rules, rules[2].color, rank) && Eventually(rules, rules[3].color, rank)
    ensures |HoldersBelow(rules, rank, 4)| == 4
  {
    SampleFirstTwoHolders(rules, rank);
    HoldersStep(rules, rank, 2);
    HoldersStep(rules, rank, 3);
  }

  lemma SampleFirstTwoHolders(rules: seq<Rule>, rank: string -> nat)
    requires Ranked(rules, rank) && |rules| == 9
    requires Eventually(rules, rules[0].color, rank) && Eventually(rules, rules[1].color, rank)
    ensures |HoldersBelow(rules, rank, 2)| == 2
  {
    HoldersNone(rules, rank);
    HoldersStep(rules, rank, 0);
    HoldersStep(rules, rank, 1);
  }

  /** No position lies below 0. */
  lemma HoldersNone(rules: seq<Rule>, rank: string -> nat)
    requires Ranked(rules, rank)
    ensures |HoldersBelow(rules, rank, 0)| == 0
  {
    assert HoldersBelow(rules, rank, 0) == {};
  }

  /** The colours of the last five rules never reach a shiny gold bag. */
  lemma SampleNotEventually(rules: seq<Rule>, rank: string -> nat)
    requires Ranked(rules, rank) && UniqueColors(rules) && SampleHolderShape(rules)
    requires Lookup(rules, rules[4].color) == Some(rules[4]) && Lookup(rules, rules[5].color) == Some(rules[5])
    requires Lookup(rules, rules[6].color) == Some(rules[6]) && Lookup(rules, rules[7].color) == Some(rules[7])
    requires Lookup(rules, rules[8].color) == Some(rules[8])
    ensures !Eventually(rules, rules[4].color, rank) && !Eventually(rules, rules[5].color, rank)
    ensures !Eventually(rules, rules[6].color, rank) && !Eventually(rules, rules[7].color, rank)
    ensures !Eventually(rules, rules[8].color, rank)
  {
    SampleLeaf(rules, rank, 7);
    SampleLeaf(rules, rank, 8);
    SampleInner(rules, rank, 5, 7, 8);
    SampleInner(rules, rank, 6, 7, 8);
    SampleInner(rules, rank, 4, 5, 6);
  }

  /** A colour whose one rule is empty is no holder. */
  lemma SampleLeaf(rules: seq<Rule>, rank: string -> nat, k: nat)
    requires Ranked(rules, rank) && UniqueColors(rules) && k < |rules|
    requires rules[k].bags == [] && Lookup(rules, rules[k].color) == Some(rules[k])
    ensures !Eventually(rules, rules[k].color, rank)
  {
    SampleNotDirect(rules, k);
    NotEventuallyOf(rules, rank, k);
  }

  /** A colour whose one rule lists two non-holders other than shiny gold is no holder. */
  lemma SampleInner(rules: seq<Rule>, rank: string -> nat, k: nat, a: nat, b: nat)
    requires Ranked(rules, rank) && UniqueColors(rules) && k < |rules| && a < |rules| && b < |rules|
    requires |rules[k].bags| == 2 && rules[k].bags[0].color == rules[a].color && rules[k].bags[1].color == rules[b].color
    requires rules[a].color != ShinyGold && rules[b].color != ShinyGold
    requires Lookup(rules, rules[k].color) == Some(rules[k])
    requires !Eventually(rules, rules[a].color, rank) && !Eventually(rules, rules[b].color, rank)
    ensures !Eventually(rules, rules[k].color, rank)
  {
    SampleNotDirect(rules, k);
    NotEventuallyOf(rules, rank, k);
  }

  /** The colours of the first four rules reach a shiny gold bag. */
  lemma SampleEventually(rules: seq<Rule>, rank: string -> nat)
    requires Ranked(rules, rank)
    requires SampleHolderShape(rules)
    requires Lookup(rules, rules[0].color) == Some(rules[0]) && Lookup(rules, rules[1].color) == Some(rules[1])
    ensures Eventually(rules, rules[0].color, rank) && Eventually(rules, rules[1].color, rank)
    ensures Eventually(rules, rules[2].color, rank) && Eventually(rules, rules[3].color, rank)
  {
    EventuallyDirect(rules, rank, 2, 0);
    EventuallyDirect(rules, rank, 3, 0);
    EventuallyOf(rules, rank, 0, 0);
    EventuallyOf(rules, rank, 1, 0);
  }

  /** A rule listing a shiny gold bag makes its colour a holder. */
  lemma EventuallyDirect(rules: seq<Rule>, rank: string -> nat, k: nat, j: nat)
    requires Ranked(rules, rank) && k < |rules| && j < |rules[k].bags|
    requires rules[k].bags[j].color == ShinyGold
    ensures Eventually(rules, rules[k].color, rank)
  {
    assert HoldsGold(rules[k]);
  }

  /** A colour whose rule lists a holder is a holder. */
  lemma EventuallyOf(rules: seq<Rule>, rank: string -> nat, k: nat, j: nat)
    requires Ranked(rules, rank) && k < |rules| && j < |rules[k].bags|
    requires Lookup(rules, rules[k].color) == Some(rules[k])
    requires Eventually(rules, rules[k].bags[j].color, rank)
    ensures Eventually(rules, rules[k].color, rank)
  {
  }

  /** A colour that is not a direct holder and whose rule lists no holder is no holder. */
  lemma NotEventuallyOf(rules: seq<Rule>, rank: string -> nat, k: nat)
    requires Ranked(rules, rank) && k < |rules|
    requires Lookup(rules, rules[k].color) == Some(rules[k])
    requires !DirectHolder(rules, rules[k].color)
    requires forall j :: 0 <= j < |rules[k].bags| ==> !Eventually(rules, rules[k].bags[j].color, rank)
    ensures !Eventually(rules, rules[k].color, rank)
  {
  }

  /** A colour whose one rule lists no shiny gold bag holds one directly in no rule. */
  lemma SampleNotDirect(rules: seq<Rule>, k: nat)
    requires UniqueColors(rules) && k < |rules|
    requires forall b :: b in rules[k].bags ==> b.color != ShinyGold
    ensures !DirectHolder(rules, rules[k].color)
  {
    forall i | 0 <= i < |rules| && rules[i].color == rules[k].color
      ensures !HoldsGold(rules[i])
    {
      assert i == k;
    }
  }
}
