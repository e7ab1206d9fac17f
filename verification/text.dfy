/**
 * The string handling the puzzles lean on, written the way Rust's standard library
 * behaves: character classes, `split`, `split_whitespace`, `trim`, integer `parse`
 * and `Display`, and grouping of input lines into blank-line separated blocks.
 */
module Text {
  import opened Wrappers

  // ---------------------------------------------------------------------------
  // Character classes

  /** An ASCII decimal digit. */
  predicate IsDigit(c: char) {
    '0' <= c <= '9'
  }

  /** Rust's `char::is_whitespace`: the characters with the Unicode White_Space property. */
  predicate IsWhitespace(c: char) {
    ('\t' <= c <= '\r') || c == ' ' || c == '\U{85}' || c == '\U{A0}' || c == '\U{1680}'
    || ('\U{2000}' <= c <= '\U{200A}') || c == '\U{2028}' || c == '\U{2029}'
    || c == '\U{202F}' || c == '\U{205F}' || c == '\U{3000}'
  }

  predicate AllDigits(s: string) {
    forall i :: 0 <= i < |s| ==> IsDigit(s[i])
  }

  predicate NoWhitespace(s: string) {
    forall i :: 0 <= i < |s| ==> !IsWhitespace(s[i])
  }

  // ---------------------------------------------------------------------------
  // Decimal numbers

  function DigitValue(c: char): (d: nat)
    requires IsDigit(c)
    ensures d < 10
  {
    c as int - '0' as int
  }

  function DigitChar(d: nat): (c: char)
    requires d < 10
    ensures IsDigit(c) && DigitValue(c) == d
  {
    (d + '0' as int) as char
  }

  /** The value of a string of decimal digits, most significant digit first. */
  function DigitsValue(s: string): nat
    requires AllDigits(s)
    decreases |s|
  {
    if |s| == 0 then 0 else 10 * DigitsValue(s[..|s| - 1]) + DigitValue(s[|s| - 1])
  }

  /** Decimal rendering of a natural number without leading zeros (Rust's `Display`). */
  function NatToString(n: nat): (s: string)
    ensures |s| > 0 && AllDigits(s)
    decreases n
  {
    if n < 10 then [DigitChar(n)] else NatToString(n / 10) + [DigitChar(n % 10)]
  }

  /** Decimal rendering of an integer, with a leading `-` when negative. */
  function IntToString(n: int): string {
    if n < 0 then "-" + NatToString(-n) else NatToString(n)
  }

  lemma {:induction false} DigitsValueOfNatToString(n: nat)
    ensures DigitsValue(NatToString(n)) == n
    decreases n
  {
    if n >= 10 {
      var s := NatToString(n);
      assert s[..|s| - 1] == NatToString(n / 10);
      DigitsValueOfNatToString(n / 10);
    }
  }

  /**
   * Rust's `str::parse` for an unsigned integer type, without its width limit:
   * an optional `+` followed by at least one ASCII digit and nothing else.
   */
  function ParseUnsigned(s: string): Option<nat> {
    var digits := if |s| > 0 && s[0] == '+' then s[1..] else s;
    if |digits| > 0 && AllDigits(digits) then Some(DigitsValue(digits)) else None
  }

  /** Rust's `str::parse` for a signed integer type, without its width limit. */
  function ParseSigned(s: string): Option<int> {
    if |s| > 0 && s[0] == '-' then
      if |s| > 1 && AllDigits(s[1..]) then Some(-(DigitsValue(s[1..]) as int)) else None
    else
      match ParseUnsigned(s)
      case Some(n) => Some(n)
      case None => None
  }

  /** Rust's `str::parse::<u16>`: an unsigned number that also fits in 16 bits. */
  function ParseU16(s: string): (r: Option<nat>)
    ensures r.Some? ==> r.value < 0x1_0000
  {
    match ParseUnsigned(s)
    case Some(n) => if n < 0x1_0000 then Some(n) else None
    case None => None
  }

  lemma ParseUnsignedOfNatToString(n: nat)
    ensures ParseUnsigned(NatToString(n)) == Some(n)
  {
    DigitsValueOfNatToString(n);
  }

  lemma ParseSignedOfIntToString(n: int)
    ensures ParseSigned(IntToString(n)) == Some(n)
  {
    if n < 0 {
      var s := IntToString(n);
      assert s[1..] == NatToString(-n);
      DigitsValueOfNatToString(-n);
    } else {
      ParseUnsignedOfNatToString(n);
    }
  }

  lemma ParseU16OfNatToString(n: nat)
    requires n < 0x1_0000
    ensures ParseU16(NatToString(n)) == Some(n)
  {
    ParseUnsignedOfNatToString(n);
  }

  // ---------------------------------------------------------------------------
  // Splitting and joining

  predicate StartsWith(s: string, prefix: string) {
    |prefix| <= |s| && s[..|prefix|] == prefix
  }

  /**
   * Rust's `str::split` with a non-empty pattern: the pieces between the occurrences
   * of `sep`, found left to right without overlapping; there is always one piece more
   * than there are occurrences.
   */
  function SplitOn(s: string, sep: string): (pieces: seq<string>)
    requires |sep| > 0
    ensures |pieces| > 0
    decreases |s|
  {
    if StartsWith(s, sep) then [""] + SplitOn(s[|sep|..], sep)
    else if |s| == 0 then [""]
    else
      var rest := SplitOn(s[1..], sep);
      [[s[0]] + rest[0]] + rest[1..]
  }

  /** The pieces with `sep` between consecutive ones (Rust's `join`). */
  function Join(pieces: seq<string>, sep: string): string
    decreases |pieces|
  {
    if |pieces| == 0 then ""
    else if |pieces| == 1 then pieces[0]
    else pieces[0] + sep + Join(pieces[1..], sep)
  }

  /** Splitting loses nothing: joining the pieces with the separator gives the input back. */
  lemma {:induction false} JoinSplitOn(s: string, sep: string)
    requires |sep| > 0
    ensures Join(SplitOn(s, sep), sep) == s
    decreases |s|
  {
    if StartsWith(s, sep) {
      JoinSplitOn(s[|sep|..], sep);
      JoinSplitOnAtSeparator(s, sep);
    } else if |s| > 0 {
      JoinSplitOn(s[1..], sep);
      JoinSplitOnAtChar(s, sep);
    } else {
      assert SplitOn(s, sep) == [""];
    }
  }

  lemma JoinSplitOnAtSeparator(s: string, sep: string)
    requires |sep| > 0 && StartsWith(s, sep)
    requires Join(SplitOn(s[|sep|..], sep), sep) == s[|sep|..]
    ensures Join(SplitOn(s, sep), sep) == s
  {
    var rest := SplitOn(s[|sep|..], sep);
    assert SplitOn(s, sep) == [""] + rest;
    JoinCons("", rest, sep);
    PrefixSplit(s, sep);
  }

  lemma PrefixSplit(s: string, prefix: string)
    requires StartsWith(s, prefix)
    ensures "" + prefix + s[|prefix|..] == s
  {
    assert s == s[..|prefix|] + s[|prefix|..];
  }

  lemma JoinSplitOnAtChar(s: string, sep: string)
    requires |sep| > 0 && !StartsWith(s, sep) && |s| > 0
    requires Join(SplitOn(s[1..], sep), sep) == s[1..]
    ensures Join(SplitOn(s, sep), sep) == s
  {
    JoinExtendHead(s[0], SplitOn(s[1..], sep), sep);
    assert s == [s[0]] + s[1..];
  }

  /** Joining a list with one more piece in front. */
  lemma JoinCons(x: string, rest: seq<string>, sep: string)
    requires |rest| > 0
    ensures Join([x] + rest, sep) == x + sep + Join(rest, sep)
  {
    assert ([x] + rest)[1..] == rest;
  }

  /** Putting a character in front of the first piece puts it in front of the join. */
  lemma JoinExtendHead(c: char, pieces: seq<string>, sep: string)
    requires |pieces| > 0
    ensures Join([[c] + pieces[0]] + pieces[1..], sep) == [c] + Join(pieces, sep)
  {
    var ext := [[c] + pieces[0]] + pieces[1..];
    if |pieces| > 1 {
      assert ext[1..] == pieces[1..];
      assert Join(ext, sep) == [c] + pieces[0] + sep + Join(pieces[1..], sep);
    }
  }

  /** A piece free of the separator character is kept whole, and splitting resumes after the separator. */
  lemma {:induction false} SplitOnCharPrefix(w: string, rest: string, c: char)
    requires c !in w
    ensures SplitOn(w + [c] + rest, [c]) == [w] + SplitOn(rest, [c])
    ensures SplitOn(w, [c]) == [w]
    decreases |w|
  {
    if |w| > 0 {
      var t := w + [c] + rest;
      assert !StartsWith(t, [c]) by { assert t[..1] == [w[0]]; }
      assert t[1..] == w[1..] + [c] + rest;
      SplitOnCharPrefix(w[1..], rest, c);
      assert !StartsWith(w, [c]) by { assert w[..1] == [w[0]]; }
      assert [w[0]] + w[1..] == w;
    } else {
      assert w + [c] + rest == [c] + rest;
      assert ([c] + rest)[1..] == rest;
    }
  }

  /** Splitting at a character undoes joining at it, when no piece holds that character. */
  lemma {:induction false} SplitOnJoin(pieces: seq<string>, c: char)
    requires |pieces| > 0
    requires forall i :: 0 <= i < |pieces| ==> c !in pieces[i]
    ensures SplitOn(Join(pieces, [c]), [c]) == pieces
    decreases |pieces|
  {
    if |pieces| == 1 {
      SplitOnCharPrefix(pieces[0], "", c);
    } else {
      SplitOnJoin(pieces[1..], c);
      SplitOnCharPrefix(pieces[0], Join(pieces[1..], [c]), c);
      assert pieces == [pieces[0]] + pieces[1..];
    }
  }

  /** No occurrence of `sep` starts in `s` before position `n`. */
  predicate NoMatchBefore(s: string, sep: string, n: nat)
    requires n <= |s|
  {
    forall k :: 0 <= k < n ==> !StartsWith(s[k..], sep)
  }

  /** The first piece is a prefix of the input. */
  lemma {:induction false} SplitOnFirstPrefix(s: string, sep: string)
    requires |sep| > 0
    ensures |SplitOn(s, sep)[0]| <= |s| && SplitOn(s, sep)[0] == s[..|SplitOn(s, sep)[0]|]
    decreases |s|
  {
    if StartsWith(s, sep) {
      assert SplitOn(s, sep)[0] == "";
    } else if |s| > 0 {
      var rest := SplitOn(s[1..], sep)[0];
      assert SplitOn(s, sep)[0] == [s[0]] + rest;
      SplitOnFirstPrefix(s[1..], sep);
      assert s[..1 + |rest|] == [s[0]] + s[1..][..|rest|];
    }
  }

  /** The first piece holds no occurrence of the separator. */
  lemma {:induction false} SplitOnFirstPiece(s: string, sep: string)
    requires |sep| > 0
    ensures var p := SplitOn(s, sep)[0]; NoMatchBefore(p, sep, |p|)
    decreases |s|
  {
    if !StartsWith(s, sep) && |s| > 0 {
      var rest := SplitOn(s[1..], sep)[0];
      var p := [s[0]] + rest;
      assert p == SplitOn(s, sep)[0];
      SplitOnFirstPiece(s[1..], sep);
      SplitOnFirstPrefix(s[1..], sep);
      forall k | 0 <= k < |p|
        ensures !StartsWith(p[k..], sep)
      {
        if k == 0 {
          assert p == s[..|p|] && p[k..] == p;
        } else {
          assert p[k..] == rest[k - 1..];
        }
      }
    }
  }

  /**
   * When no occurrence of `sep` starts inside `a`, splitting `a + sep + b` yields `a`
   * and then the pieces of `b`.
   */
  lemma {:induction false} SplitOnAt(a: string, sep: string, b: string)
    requires |sep| > 0
    requires NoMatchBefore(a + sep + b, sep, |a|)
    ensures SplitOn(a + sep + b, sep) == [a] + SplitOn(b, sep)
    decreases |a|
  {
    var s := a + sep + b;
    if |a| == 0 {
      assert s == sep + b;
      assert s[..|sep|] == sep && s[|sep|..] == b;
    } else {
      assert !StartsWith(s[0..], sep);
      assert s[0..] == s;
      assert s[1..] == a[1..] + sep + b;
      forall k | 0 <= k < |a| - 1
        ensures !StartsWith((a[1..] + sep + b)[k..], sep)
      {
        assert (a[1..] + sep + b)[k..] == s[k + 1..];
      }
      SplitOnAt(a[1..], sep, b);
      assert [s[0]] + a[1..] == a;
    }
  }

  /**
   * A character of `sep` that occurs neither in `a` nor earlier in `sep` shows that no
   * occurrence of `sep` starts inside `a` in `a + sep + b`.
   */
  lemma NoMatchBeforeByChar(a: string, sep: string, b: string, j: nat)
    requires j < |sep| && sep[j] !in a && sep[j] !in sep[..j]
    ensures NoMatchBefore(a + sep + b, sep, |a|)
  {
    var s := a + sep + b;
    forall k | 0 <= k < |a|
      ensures !StartsWith(s[k..], sep)
    {
      if k + j < |a| {
        assert s[k + j] == a[k + j] != sep[j];
      } else {
        assert s[k + j] == sep[..j][k + j - |a|] != sep[j];
      }
    }
  }

  /** A string missing some character of `sep` is not split at all. */
  lemma {:induction false} SplitOnWithout(s: string, sep: string, j: nat)
    requires j < |sep| && sep[j] !in s
    ensures SplitOn(s, sep) == [s]
    decreases |s|
  {
    if |s| > 0 {
      assert !StartsWith(s, sep) by {
        if |sep| <= |s| {
          assert s[..|sep|][j] == s[j] != sep[j];
        }
      }
      SplitOnWithout(s[1..], sep, j);
      assert [s[0]] + s[1..] == s;
    }
  }

  /** A string missing some character of `sep` holds no occurrence of it. */
  lemma AvoidsByChar(s: string, sep: string, j: nat)
    requires j < |sep| && sep[j] !in s
    ensures NoMatchBefore(s, sep, |s|)
  {
    forall k | 0 <= k < |s| && |sep| <= |s| - k
      ensures s[k..][..|sep|] != sep
    {
      assert s[k..][..|sep|][j] == s[k + j];
    }
  }

  /** A string in which no occurrence of `sep` starts is not split at all. */
  lemma {:induction false} SplitOnNone(s: string, sep: string)
    requires |sep| > 0 && NoMatchBefore(s, sep, |s|)
    ensures SplitOn(s, sep) == [s]
    decreases |s|
  {
    if |s| > 0 {
      assert s[0..] == s;
      forall k | 0 <= k < |s| - 1
        ensures !StartsWith(s[1..][k..], sep)
      {
        assert s[1..][k..] == s[k + 1..];
      }
      SplitOnNone(s[1..], sep);
      assert [s[0]] + s[1..] == s;
    }
  }

  /** Putting a character that is not in `sep` between two strings without `sep` creates none. */
  lemma ConcatAvoids(a: string, c: char, b: string, sep: string)
    requires |sep| > 0 && c !in sep
    requires NoMatchBefore(a, sep, |a|) && NoMatchBefore(b, sep, |b|)
    ensures NoMatchBefore(a + [c] + b, sep, |a + [c] + b|)
  {
    var s := a + [c] + b;
    forall k | 0 <= k < |s|
      ensures !StartsWith(s[k..], sep)
    {
      if k + |sep| <= |a| {
        assert s[k..][..|sep|] == a[k..][..|sep|];
      } else if k <= |a| {
        if |sep| <= |s| - k {
          assert s[k..][..|sep|][|a| - k] == c;
        }
      } else {
        assert s[k..] == b[k - |a| - 1..];
      }
    }
  }

  /** Joining pieces without `sep` at a character outside `sep` creates no occurrence of it. */
  lemma {:induction false} JoinAvoids(pieces: seq<string>, c: char, sep: string)
    requires |sep| > 0 && c !in sep
    requires forall i :: 0 <= i < |pieces| ==> NoMatchBefore(pieces[i], sep, |pieces[i]|)
    ensures NoMatchBefore(Join(pieces, [c]), sep, |Join(pieces, [c])|)
    decreases |pieces|
  {
    if |pieces| > 1 {
      assert forall i :: 0 <= i < |pieces| - 1 ==> pieces[1..][i] == pieces[i + 1];
      JoinAvoids(pieces[1..], c, sep);
      ConcatAvoids(pieces[0], c, Join(pieces[1..], [c]), sep);
    }
  }

  /** The position of the first `c` in `s`. */
  function FirstIndex(s: string, c: char): (i: nat)
    requires c in s
    ensures i < |s| && s[i] == c && c !in s[..i]
  {
    if s[0] == c then 0 else 1 + FirstIndex(s[1..], c)
  }

  /** The first `c` of `a + [c] + b` follows `a` when `a` has none. */
  lemma {:induction false} FirstIndexAfter(a: string, c: char, b: string)
    requires c !in a
    ensures FirstIndex(a + [c] + b, c) == |a|
    decreases |a|
  {
    if |a| > 0 {
      assert (a + [c] + b)[1..] == a[1..] + [c] + b;
      FirstIndexAfter(a[1..], c, b);
    }
  }

  /** The number of whitespace characters at the start of `s`. */
  function LeadingWhitespace(s: string): (k: nat)
    ensures k <= |s| && (k == |s| || !IsWhitespace(s[k]))
    ensures forall i :: 0 <= i < k ==> IsWhitespace(s[i])
    decreases |s|
  {
    if |s| > 0 && IsWhitespace(s[0]) then
      var k := LeadingWhitespace(s[1..]);
      assert forall i :: 1 <= i < k + 1 ==> s[i] == s[1..][i - 1];
      k + 1
    else 0
  }

  /** The number of whitespace characters at the end of `s`. */
  function TrailingWhitespace(s: string): (k: nat)
    ensures k <= |s| && (k == |s| || !IsWhitespace(s[|s| - 1 - k]))
    ensures forall i :: |s| - k <= i < |s| ==> IsWhitespace(s[i])
    decreases |s|
  {
    if |s| > 0 && IsWhitespace(s[|s| - 1]) then
      var k := TrailingWhitespace(s[..|s| - 1]);
      assert forall i :: |s| - 1 - k <= i < |s| - 1 ==> s[i] == s[..|s| - 1][i];
      k + 1
    else 0
  }

  /** Rust's `trim_start`: the suffix left after dropping the leading whitespace. */
  function TrimStart(s: string): string {
    s[LeadingWhitespace(s)..]
  }

  /** Rust's `trim_end`: the prefix left after dropping the trailing whitespace. */
  function TrimEnd(s: string): string {
    s[..|s| - TrailingWhitespace(s)]
  }

  /** Rust's `trim`: drops whitespace at both ends. */
  function Trim(s: string): string {
    TrimEnd(TrimStart(s))
  }

  /** Trimming removes exactly the whitespace padding around a word with non-blank ends. */
  lemma TrimPadded(left: string, w: string, right: string)
    requires |w| > 0 && !IsWhitespace(w[0]) && !IsWhitespace(w[|w| - 1])
    requires forall i :: 0 <= i < |left| ==> IsWhitespace(left[i])
    requires forall i :: 0 <= i < |right| ==> IsWhitespace(right[i])
    ensures Trim(left + w + right) == w
  {
    var s := left + w + right;
    var k := LeadingWhitespace(s);
    assert s[|left|] == w[0];
    assert forall i :: 0 <= i < |left| ==> s[i] == left[i];
    assert k == |left|;
    var t := TrimStart(s);
    assert t == w + right;
    var m := TrailingWhitespace(t);
    assert t[|w| - 1] == w[|w| - 1];
    assert forall i :: |w| <= i < |t| ==> t[i] == right[i - |w|];
    assert m == |right|;
  }

  // ---------------------------------------------------------------------------
  // Words

  /** The pieces between single whitespace characters, empty pieces included. */
  function SpacePieces(s: string): (pieces: seq<string>)
    ensures |pieces| > 0
    ensures forall i :: 0 <= i < |pieces| ==> NoWhitespace(pieces[i])
    decreases |s|
  {
    if |s| == 0 then [""]
    else
      var rest := SpacePieces(s[1..]);
      if IsWhitespace(s[0]) then [""] + rest else [[s[0]] + rest[0]] + rest[1..]
  }

  /** The pieces that are not empty, in order. */
  function NonEmptyPieces(pieces: seq<string>): (kept: seq<string>)
    ensures forall w :: w in kept ==> w in pieces && w != ""
    decreases |pieces|
  {
    if |pieces| == 0 then []
    else (if pieces[0] == "" then [] else [pieces[0]]) + NonEmptyPieces(pieces[1..])
  }

  /** Rust's `split_whitespace`: the maximal runs of non-whitespace characters, in order. */
  function Words(s: string): (words: seq<string>)
    ensures forall i :: 0 <= i < |words| ==> |words[i]| > 0 && NoWhitespace(words[i])
  {
    var pieces := SpacePieces(s);
    var words := NonEmptyPieces(pieces);
    assert forall i :: 0 <= i < |words| ==> words[i] in pieces;
    words
  }

  lemma {:induction false} SpacePiecesPrefix(w: string, rest: string)
    requires NoWhitespace(w)
    ensures SpacePieces(w + " " + rest) == [w] + SpacePieces(rest)
    ensures SpacePieces(w) == [w]
    decreases |w|
  {
    if |w| > 0 {
      var t := w + " " + rest;
      assert t[1..] == w[1..] + " " + rest;
      SpacePiecesPrefix(w[1..], rest);
      assert [w[0]] + w[1..] == w;
    } else {
      assert w + " " + rest == " " + rest;
      assert (" " + rest)[1..] == rest;
    }
  }

  /** Splitting at whitespace undoes joining with single spaces, for non-empty words without whitespace. */
  lemma {:induction false} WordsOfJoin(words: seq<string>)
    requires forall i :: 0 <= i < |words| ==> |words[i]| > 0 && NoWhitespace(words[i])
    ensures Words(Join(words, " ")) == words
    decreases |words|
  {
    if |words| == 0 {
    } else if |words| == 1 {
      SpacePiecesPrefix(words[0], "");
      assert NonEmptyPieces([words[0]]) == [words[0]] + NonEmptyPieces([]);
    } else {
      var rest := Join(words[1..], " ");
      WordsOfJoin(words[1..]);
      SpacePiecesPrefix(words[0], rest);
      var pieces := [words[0]] + SpacePieces(rest);
      assert pieces[1..] == SpacePieces(rest);
      assert NonEmptyPieces(pieces) == [words[0]] + NonEmptyPieces(SpacePieces(rest));
      assert words == [words[0]] + words[1..];
    }
  }

  // ---------------------------------------------------------------------------
  // Blank-line separated blocks

  /**
   * Input lines grouped into blocks, reading the lines in order: a non-empty line joins
   * the current block, an empty line closes it and opens a new one, and the last block
   * is kept even when it is empty.
   */
  function Paragraphs(lines: seq<string>): (blocks: seq<seq<string>>)
    ensures |blocks| > 0
    decreases |lines|
  {
    if |lines| == 0 then [[]]
    else
      var init := Paragraphs(lines[..|lines| - 1]);
      var line := lines[|lines| - 1];
      if line == "" then init + [[]]
      else init[..|init| - 1] + [init[|init| - 1] + [line]]
  }

  /** The number of empty lines. */
  function CountEmpty(lines: seq<string>): nat
    decreases |lines|
  {
    if |lines| == 0 then 0
    else CountEmpty(lines[..|lines| - 1]) + (if lines[|lines| - 1] == "" then 1 else 0)
  }

  /** The non-empty lines, in order. */
  function NonEmptyLines(lines: seq<string>): seq<string>
    decreases |lines|
  {
    if |lines| == 0 then []
    else NonEmptyLines(lines[..|lines| - 1]) + (if lines[|lines| - 1] == "" then [] else [lines[|lines| - 1]])
  }

  /** The blocks laid end to end. */
  function Concat(blocks: seq<seq<string>>): seq<string>
    decreases |blocks|
  {
    if |blocks| == 0 then [] else Concat(blocks[..|blocks| - 1]) + blocks[|blocks| - 1]
  }

  /** No block holds an empty line. */
  predicate NoEmptyLine(blocks: seq<seq<string>>) {
    forall i, j :: 0 <= i < |blocks| && 0 <= j < |blocks[i]| ==> blocks[i][j] != ""
  }

  /** None of the lines is empty. */
  predicate NoBlankLine(lines: seq<string>) {
    forall j :: 0 <= j < |lines| ==> lines[j] != ""
  }

  /** The inverse of grouping: the blocks written out with one empty line between neighbours. */
  function JoinBlocks(blocks: seq<seq<string>>): seq<string>
    requires |blocks| > 0
    decreases |blocks|
  {
    if |blocks| == 1 then blocks[0]
    else JoinBlocks(blocks[..|blocks| - 1]) + [""] + blocks[|blocks| - 1]
  }

  /**
   * Grouping keeps every non-empty line, in order, drops every empty line, never puts an
   * empty line in a block, and makes one block more than there are empty lines. The
   * blocks split exactly at the empty lines: writing them back out gives the lines.
   */
  lemma ParagraphsShape(lines: seq<string>)
    ensures |Paragraphs(lines)| == CountEmpty(lines) + 1
    ensures Concat(Paragraphs(lines)) == NonEmptyLines(lines)
    ensures NoEmptyLine(Paragraphs(lines))
    ensures JoinBlocks(Paragraphs(lines)) == lines
  {
    ParagraphsCount(lines);
    ParagraphsConcat(lines);
    ParagraphsNoEmptyLine(lines);
    ParagraphsJoin(lines);
  }

  /** Writing the blocks of some lines back out gives the lines. */
  lemma {:induction false} ParagraphsJoin(lines: seq<string>)
    ensures JoinBlocks(Paragraphs(lines)) == lines
    decreases |lines|
  {
    if |lines| > 0 {
      var init := Paragraphs(lines[..|lines| - 1]);
      var line := lines[|lines| - 1];
      ParagraphsJoin(lines[..|lines| - 1]);
      if line == "" {
        assert (init + [[]])[..|init|] == init;
      } else {
        JoinBlocksExtend(init, line);
      }
      assert lines == lines[..|lines| - 1] + [line];
    }
  }

  /** A line added to the last block is added at the end of the written-out lines. */
  lemma JoinBlocksExtend(blocks: seq<seq<string>>, line: string)
    requires |blocks| > 0
    ensures JoinBlocks(blocks[..|blocks| - 1] + [blocks[|blocks| - 1] + [line]]) == JoinBlocks(blocks) + [line]
  {
    var n := |blocks|;
    var grown := blocks[..n - 1] + [blocks[n - 1] + [line]];
    if n > 1 {
      assert grown[..n - 1] == blocks[..n - 1];
    }
  }

  /** Blocks without empty lines, written out and grouped again, come back unchanged. */
  lemma {:induction false} ParagraphsOfJoin(blocks: seq<seq<string>>)
    requires |blocks| > 0 && NoEmptyLine(blocks)
    ensures Paragraphs(JoinBlocks(blocks)) == blocks
    decreases |blocks|
  {
    var n := |blocks|;
    NoEmptyLineParts(blocks);
    if n == 1 {
      ParagraphsAppend([], blocks[0]);
      assert [] + blocks[0] == blocks[0];
    } else {
      var init := blocks[..n - 1];
      ParagraphsOfJoin(init);
      ParagraphsOfJoinStep(init, blocks[n - 1]);
      assert blocks == init + [blocks[n - 1]];
    }
  }

  /** One more block without empty lines comes back as the last block. */
  lemma ParagraphsOfJoinStep(init: seq<seq<string>>, last: seq<string>)
    requires |init| > 0 && Paragraphs(JoinBlocks(init)) == init && NoBlankLine(last)
    ensures Paragraphs(JoinBlocks(init + [last])) == init + [last]
  {
    var written := JoinBlocks(init);
    assert (init + [last])[..|init|] == init;
    assert JoinBlocks(init + [last]) == written + [""] + last;
    ParagraphsClose(written);
    ParagraphsAppend(written + [""], last);
    assert (init + [[]])[..|init|] == init;
    assert [] + last == last;
  }

  /** The blocks before the last, and the lines of the last block, hold no empty line. */
  lemma NoEmptyLineParts(blocks: seq<seq<string>>)
    requires |blocks| > 0 && NoEmptyLine(blocks)
    ensures NoEmptyLine(blocks[..|blocks| - 1])
    ensures NoBlankLine(blocks[|blocks| - 1])
  {
    var init := blocks[..|blocks| - 1];
    forall i, j | 0 <= i < |init| && 0 <= j < |init[i]| ensures init[i][j] != "" {
      assert init[i] == blocks[i];
    }
  }

  /** An empty line closes the last block and opens an empty one. */
  lemma ParagraphsClose(lines: seq<string>)
    ensures Paragraphs(lines + [""]) == Paragraphs(lines) + [[]]
  {
    assert (lines + [""])[..|lines|] == lines;
  }

  /** Non-empty lines after some lines all join the last block of those lines. */
  lemma {:induction false} ParagraphsAppend(lines: seq<string>, more: seq<string>)
    requires NoBlankLine(more)
    ensures var before := Paragraphs(lines);
      Paragraphs(lines + more) == before[..|before| - 1] + [before[|before| - 1] + more]
    decreases |more|
  {
    var before := Paragraphs(lines);
    if |more| == 0 {
      assert lines + more == lines;
      GrowLastBlock(before, [], []);
    } else {
      var front, line := more[..|more| - 1], more[|more| - 1];
      NoBlankLinePrefix(more);
      ParagraphsAppend(lines, front);
      assert lines + more == (lines + front) + [line];
      ParagraphsAddLine(lines + front, line);
      GrowLastBlock(before, front, [line]);
      assert front + [line] == more;
    }
  }

  /** Dropping the last line keeps a run of lines free of empty ones. */
  lemma NoBlankLinePrefix(more: seq<string>)
    requires |more| > 0 && NoBlankLine(more)
    ensures NoBlankLine(more[..|more| - 1]) && more[|more| - 1] != ""
  {
    var front := more[..|more| - 1];
    forall j | 0 <= j < |front| ensures front[j] != "" {
      assert front[j] == more[j];
    }
  }

  /** Growing the last block twice is growing it once by both runs. */
  lemma GrowLastBlock(blocks: seq<seq<string>>, front: seq<string>, back: seq<string>)
    requires |blocks| > 0
    ensures var k := |blocks|;
      var mid := blocks[..k - 1] + [blocks[k - 1] + front];
      mid[..|mid| - 1] + [mid[|mid| - 1] + back] == blocks[..k - 1] + [blocks[k - 1] + (front + back)]
    ensures blocks[..|blocks| - 1] + [blocks[|blocks| - 1] + []] == blocks
  {
    var k := |blocks|;
    var mid := blocks[..k - 1] + [blocks[k - 1] + front];
    assert mid[..k - 1] == blocks[..k - 1];
    assert blocks[k - 1] + front + back == blocks[k - 1] + (front + back);
    assert blocks[k - 1] + [] == blocks[k - 1];
    assert blocks == blocks[..k - 1] + [blocks[k - 1]];
  }

  /** A non-empty line joins the last block. */
  lemma ParagraphsAddLine(lines: seq<string>, line: string)
    requires line != ""
    ensures var before := Paragraphs(lines);
      Paragraphs(lines + [line]) == before[..|before| - 1] + [before[|before| - 1] + [line]]
  {
    assert (lines + [line])[..|lines|] == lines;
  }


  lemma {:induction false} ParagraphsCount(lines: seq<string>)
    ensures |Paragraphs(lines)| == CountEmpty(lines) + 1
    decreases |lines|
  {
    if |lines| > 0 {
      ParagraphsCount(lines[..|lines| - 1]);
    }
  }

  lemma {:induction false} ParagraphsConcat(lines: seq<string>)
    ensures Concat(Paragraphs(lines)) == NonEmptyLines(lines)
    decreases |lines|
  {
    if |lines| > 0 {
      var init := Paragraphs(lines[..|lines| - 1]);
      var line := lines[|lines| - 1];
      ParagraphsConcat(lines[..|lines| - 1]);
      var blocks := Paragraphs(lines);
      if line == "" {
        assert blocks[..|blocks| - 1] == init;
      } else {
        var n := |init|;
        assert blocks[..n - 1] == init[..n - 1];
        ConcatLast(init);
        assert Concat(blocks) == Concat(init[..n - 1]) + (init[n - 1] + [line]);
      }
    }
  }

  lemma ConcatLast(blocks: seq<seq<string>>)
    requires |blocks| > 0
    ensures Concat(blocks) == Concat(blocks[..|blocks| - 1]) + blocks[|blocks| - 1]
  {
  }

  lemma {:induction false} ParagraphsNoEmptyLine(lines: seq<string>)
    ensures NoEmptyLine(Paragraphs(lines))
    decreases |lines|
  {
    if |lines| > 0 {
      ParagraphsNoEmptyLine(lines[..|lines| - 1]);
    }
  }
}
