/**
 * Passport records: blank-line separated blocks of `key:value` tokens. The first part
 * counts the records holding the seven required fields (`cid` may be missing); the
 * second part also checks each field's value.
 */
module Day4 {
  import opened Wrappers
  import opened Text
  import opened Counting

  // ---------------------------------------------------------------------------
  // Height

  datatype Height = Centimeters(cm: nat) | Inches(inches: nat)

  /** The regular expression class `\w`, over ASCII: letters, digits and `_`. */
  predicate IsWordChar(c: char) {
    IsDigit(c) || 'a' <= c <= 'z' || 'A' <= c <= 'Z' || c == '_'
  }

  predicate AllWordChars(s: string) {
    forall i :: 0 <= i < |s| ==> IsWordChar(s[i])
  }

  /** The length of the longest run of digits that starts at `i`. */
  function DigitRun(s: string, i: nat): (n: nat)
    requires i <= |s|
    ensures i + n <= |s|
    ensures forall k :: i <= k < i + n ==> IsDigit(s[k])
    ensures i + n == |s| || !IsDigit(s[i + n])
    decreases |s| - i
  {
    if i < |s| && IsDigit(s[i]) then 1 + DigitRun(s, i + 1) else 0
  }

  /** The length of the longest run of word characters that starts at `i`. */
  function WordRun(s: string, i: nat): (n: nat)
    requires i <= |s|
    ensures i + n <= |s|
    ensures forall k :: i <= k < i + n ==> IsWordChar(s[k])
    ensures i + n == |s| || !IsWordChar(s[i + n])
    decreases |s| - i
  {
    if i < |s| && IsWordChar(s[i]) then 1 + WordRun(s, i + 1) else 0
  }

  /**
   * The two capture groups of the height pattern `(\d+)(\w+)`, searched from `from`
   * onwards with the leftmost-first rule of Rust's regular expressions: the match starts
   * at the first digit where one exists; `\d+` takes the whole digit run when a word
   * character follows it, and gives its last digit back to `\w+` otherwise.
   */
  function HeightMatch(s: string, from: nat): (r: Option<(string, string)>)
    requires from <= |s|
    ensures r.Some? ==> |r.value.0| > 0 && AllDigits(r.value.0) && |r.value.1| > 0 && AllWordChars(r.value.1)
    decreases |s| - from
  {
    if from == |s| then None
    else if !IsDigit(s[from]) then HeightMatch(s, from + 1)
    else
      var end := from + DigitRun(s, from);
      if end < |s| && IsWordChar(s[end]) then Some((s[from..end], s[end..end + WordRun(s, end)]))
      else if end - from >= 2 then Some((s[from..end - 1], s[end - 1..end]))
      else HeightMatch(s, from + 1)
  }

  /** A digit followed by a word character at `i`: where the pattern can match. */
  predicate DigitThenWord(s: string, i: int) {
    0 <= i && i + 1 < |s| && IsDigit(s[i]) && IsWordChar(s[i + 1])
  }

  /** The pattern matches exactly when some digit is directly followed by a word character. */
  lemma {:induction false} HeightMatchExists(s: string, from: nat)
    requires from <= |s|
    ensures HeightMatch(s, from).Some? <==> exists i :: from <= i && DigitThenWord(s, i)
    decreases |s| - from
  {
    if from < |s| {
      if !IsDigit(s[from]) {
        HeightMatchExists(s, from + 1);
        assert !DigitThenWord(s, from);
      } else {
        var end := from + DigitRun(s, from);
        if end < |s| && IsWordChar(s[end]) {
          assert DigitThenWord(s, end - 1);
        } else if end - from >= 2 {
          assert DigitThenWord(s, from);
        } else {
          HeightMatchExists(s, from + 1);
          assert !DigitThenWord(s, from);
        }
      }
    }
  }

  /** `Height::parse`: a number in centimetres or inches, by the unit captured after it. */
  function ParseHeight(s: string): (r: Option<Height>)
    ensures r.Some? ==> exists i :: DigitThenWord(s, i)
    ensures r.Some? ==> HeightValue(r.value) < 0x1_0000
  {
    HeightMatchExists(s, 0);
    match HeightMatch(s, 0)
    case None => None
    case Some((val, unit)) =>
      if unit == "cm" then
        match ParseU16(val)
        case Some(v) => Some(Centimeters(v))
        case None => None
      else if unit == "in" then
        match ParseU16(val)
        case Some(v) => Some(Inches(v))
        case None => None
      else None
  }

  /** The number of a height, whatever its unit. */
  function HeightValue(h: Height): nat {
    match h
    case Centimeters(v) => v
    case Inches(v) => v
  }

  /** `Height::valid`: 150 to 193 centimetres or 59 to 76 inches, bounds included. */
  function HeightValid(s: string): (b: bool)
    ensures b ==> (exists i :: DigitThenWord(s, i)) && ParseHeight(s).Some?
    ensures b ==> 59 <= HeightValue(ParseHeight(s).value) <= 193
  {
    match ParseHeight(s)
    case Some(Centimeters(v)) => 150 <= v <= 193
    case Some(Inches(v)) => 59 <= v <= 76
    case None => false
  }

  /** The text form of a height. */
  function FormatHeight(h: Height): string {
    match h
    case Centimeters(v) => NatToString(v) + "cm"
    case Inches(v) => NatToString(v) + "in"
  }

  /** A number followed by a unit that starts with a letter or `_` is matched as exactly that pair. */
  lemma HeightMatchOfNumber(digits: string, unit: string)
    requires |digits| > 0 && AllDigits(digits)
    requires |unit| > 0 && AllWordChars(unit) && !IsDigit(unit[0])
    ensures HeightMatch(digits + unit, 0) == Some((digits, unit))
  {
    var s := digits + unit;
    var n := DigitRun(s, 0);
    assert n == |digits| by {
      assert s[|digits|] == unit[0];
      assert forall k :: 0 <= k < |digits| ==> s[k] == digits[k];
    }
    var m := WordRun(s, n);
    assert m == |unit| by {
      assert forall k :: 0 <= k < |unit| ==> s[n + k] == unit[k];
    }
    assert s[..n] == digits && s[n..n + m] == unit;
  }

  /** Reading a formatted height gives it back, for every value a `u16` holds. */
  lemma ParseFormatHeight(h: Height)
    requires (h.Centimeters? && h.cm < 0x1_0000) || (h.Inches? && h.inches < 0x1_0000)
    ensures ParseHeight(FormatHeight(h)) == Some(h)
  {
    match h
    case Centimeters(v) =>
      HeightMatchOfNumber(NatToString(v), "cm");
      ParseU16OfNatToString(v);
    case Inches(v) =>
      HeightMatchOfNumber(NatToString(v), "in");
      ParseU16OfNatToString(v);
  }

  /**
   * For a number followed by a unit, the height is valid exactly when the unit is `cm`
   * and the number lies in 150..193, or the unit is `in` and it lies in 59..76.
   */
  lemma HeightValidOfNumber(n: nat, unit: string)
    requires |unit| > 0 && AllWordChars(unit) && !IsDigit(unit[0])
    ensures HeightValid(NatToString(n) + unit) <==> (unit == "cm" && 150 <= n <= 193) || (unit == "in" && 59 <= n <= 76)
  {
    HeightMatchOfNumber(NatToString(n), unit);
    ParseUnsignedOfNatToString(n);
  }

  /** A number without a unit is never a valid height: the unit captured is its last digit. */
  lemma DigitsAreNoHeight(s: string)
    requires AllDigits(s)
    ensures !HeightValid(s)
  {
    DigitsMatchOneDigitUnit(s);
  }

  lemma DigitsMatchOneDigitUnit(s: string)
    requires AllDigits(s)
    ensures HeightMatch(s, 0).None? || |HeightMatch(s, 0).value.1| == 1
  {
    if |s| > 0 {
      var n := DigitRun(s, 0);
      assert n == |s|;
      if n < 2 {
        assert HeightMatch(s, 0) == HeightMatch(s, 1);
      }
    }
  }

  // ---------------------------------------------------------------------------
  // Eye colour

  datatype EyeColor = Amb | Blu | Brn | Gry | Grn | Hzl | Oth

  /** `EyeColor::parse`: one of seven three-letter names, nothing else. */
  function ParseEyeColor(s: string): (r: Option<EyeColor>)
    ensures r.Some? ==> |s| == 3 && forall i :: 0 <= i < 3 ==> 'a' <= s[i] <= 'z'
  {
    if s == "amb" then Some(Amb)
    else if s == "blu" then Some(Blu)
    else if s == "brn" then Some(Brn)
    else if s == "gry" then Some(Gry)
    else if s == "grn" then Some(Grn)
    else if s == "hzl" then Some(Hzl)
    else if s == "oth" then Some(Oth)
    else None
  }

  /** The name of an eye colour. */
  function EyeColorName(e: EyeColor): string {
    match e
    case Amb => "amb"
    case Blu => "blu"
    case Brn => "brn"
    case Gry => "gry"
    case Grn => "grn"
    case Hzl => "hzl"
    case Oth => "oth"
  }

  /** `EyeColor::valid`: the text names an eye colour. */
  function EyeColorValid(s: string): (b: bool)
    ensures b <==> s in {"amb", "blu", "brn", "gry", "grn", "hzl", "oth"}
  {
    ParseEyeColor(s).Some?
  }

  /** Parsing and naming are inverse: each name parses to its colour, and only names parse. */
  lemma ParseEyeColorName(e: EyeColor, s: string)
    ensures ParseEyeColor(EyeColorName(e)) == Some(e)
    ensures ParseEyeColor(s) == Some(e) ==> s == EyeColorName(e)
  {
  }

  /** The valid eye colours are exactly the seven names. */
  lemma EyeColorValidNames(s: string)
    ensures EyeColorValid(s) <==> exists e :: s == EyeColorName(e)
  {
    if EyeColorValid(s) {
      ParseEyeColorName(ParseEyeColor(s).value, s);
    } else {
      forall e ensures s != EyeColorName(e) {
        ParseEyeColorName(e, s);
      }
    }
  }

  // ---------------------------------------------------------------------------
  // Hair colour and passport id

  /** `[0-9a-f]`: a lower-case hexadecimal digit. */
  predicate IsLowerHex(c: char) {
    IsDigit(c) || 'a' <= c <= 'f'
  }

  /** `#[0-9a-f]{6}` starting at position `i`. */
  predicate HairColorAt(s: string, i: int) {
    0 <= i && i + 7 <= |s| && s[i] == '#' && forall k :: i + 1 <= k < i + 7 ==> IsLowerHex(s[k])
  }

  /**
   * `HAIR_COLOR_RE.is_match`: the pattern is not anchored, so it is looked for at every
   * position from `from` onwards.
   */
  function HairColorFrom(s: string, from: nat): (b: bool)
    ensures b <==> exists i :: from <= i && HairColorAt(s, i)
    decreases |s| - from
  {
    if from + 7 > |s| then false else HairColorAt(s, from) || HairColorFrom(s, from + 1)
  }

  function HairColorMatch(s: string): (b: bool)
    ensures b <==> exists i :: HairColorAt(s, i)
  {
    HairColorFrom(s, 0)
  }

  /** `PASSPORT_ID_RE.is_match`: the anchored pattern `^\d{9}$`, exactly nine digits. */
  predicate PassportIdMatch(s: string) {
    |s| == 9 && AllDigits(s)
  }

  // ---------------------------------------------------------------------------
  // Passports

  datatype Passport = Passport(
    byr: Option<string>, iyr: Option<string>, eyr: Option<string>, hgt: Option<string>,
    hcl: Option<string>, ecl: Option<string>, pid: Option<string>, cid: Option<string>)

  /** `Passport::default()`: no field set. */
  function EmptyPassport(): Passport {
    Passport(None, None, None, None, None, None, None, None)
  }

  /**
   * The key and the value of a `key:value` token: the first two pieces of the token
   * split at `:`. A token without `:` has no value (the source's `unwrap` panics).
   * A token is malformed exactly when it holds no `:`; otherwise its key is what
   * precedes the first `:`.
   */
  function KeyValue(token: string): (r: Option<(string, string)>)
    ensures r.None? <==> ':' !in token
    ensures r.Some? ==> ':' !in r.value.0 && StartsWith(token, r.value.0 + ":")
  {
    ColonSplit(token);
    var pieces := SplitOn(token, ":");
    if |pieces| < 2 then None else Some((pieces[0], pieces[1]))
  }

  /** A token splits at `:` into two pieces or more iff it holds one, the first piece ending before the first `:`. */
  lemma ColonSplit(token: string)
    ensures |SplitOn(token, ":")| >= 2 <==> ':' in token
    ensures ':' in token ==> ':' !in SplitOn(token, ":")[0] && StartsWith(token, SplitOn(token, ":")[0] + ":")
  {
    if ':' in token {
      var i := FirstIndex(token, ':');
      var key, rest := token[..i], token[i + 1..];
      assert token == key + [':'] + rest;
      SplitOnCharPrefix(key, rest, ':');
      assert token[..|key + ":"|] == key + ":";
    } else {
      SplitOnCharPrefix(token, "", ':');
    }
  }

  /** The key and value joined by `:`, and anything after a second `:`, read back. */
  lemma KeyValueOfPieces(pieces: seq<string>)
    requires |pieces| >= 2
    requires forall i :: 0 <= i < |pieces| ==> ':' !in pieces[i]
    ensures KeyValue(Join(pieces, ":")) == Some((pieces[0], pieces[1]))
  {
    SplitOnJoin(pieces, ':');
  }

  /** The token names `key`. */
  predicate HasKey(token: string, key: string) {
    KeyValue(token).Some? && KeyValue(token).value.0 == key
  }

  /** The value of the last token naming `key`, if any token does. */
  function LastValue(tokens: seq<string>, key: string): Option<string>
    decreases |tokens|
  {
    if |tokens| == 0 then None
    else if HasKey(tokens[|tokens| - 1], key) then Some(KeyValue(tokens[|tokens| - 1]).value.1)
    else LastValue(tokens[..|tokens| - 1], key)
  }

  /**
   * A repeated key keeps its last value: the value is that of a token naming the key
   * with no later token naming it, and there is none when no token names the key.
   */
  lemma {:induction false} LastValueIsLast(tokens: seq<string>, key: string)
    ensures LastValue(tokens, key).None? <==> forall i :: 0 <= i < |tokens| ==> !HasKey(tokens[i], key)
    ensures LastValue(tokens, key).Some? ==>
      exists i :: (0 <= i < |tokens| && HasKey(tokens[i], key)
        && KeyValue(tokens[i]).value.1 == LastValue(tokens, key).value
        && forall j :: i < j < |tokens| ==> !HasKey(tokens[j], key))
    decreases |tokens|
  {
    if |tokens| > 0 {
      var n := |tokens| - 1;
      var init := tokens[..n];
      LastValueIsLast(init, key);
      assert forall i :: 0 <= i < n ==> init[i] == tokens[i];
      if !HasKey(tokens[n], key) && LastValue(init, key).Some? {
        var i :| 0 <= i < n && HasKey(init[i], key) && KeyValue(init[i]).value.1 == LastValue(init, key).value
          && forall j :: i < j < n ==> !HasKey(init[j], key);
        assert HasKey(tokens[i], key);
      }
    }
  }

  /** Every token is a `key:value` pair. */
  predicate WellFormed(tokens: seq<string>) {
    forall i :: 0 <= i < |tokens| ==> KeyValue(tokens[i]).Some?
  }

  /** Some token names `key`. */
  predicate Names(tokens: seq<string>, key: string) {
    exists i :: 0 <= i < |tokens| && HasKey(tokens[i], key)
  }

  /** A key has a last value exactly when some token names it. */
  lemma LastValueNamed(tokens: seq<string>)
    ensures forall key :: LastValue(tokens, key).Some? <==> Names(tokens, key)
  {
    forall key
      ensures LastValue(tokens, key).Some? <==> Names(tokens, key)
    {
      LastValueIsLast(tokens, key);
    }
  }

  /**
   * The passport the tokens describe: each field holds the last value given for its key,
   * so it has the required fields exactly when each required key is named by some token.
   */
  function PassportOf(tokens: seq<string>): (p: Passport)
    ensures HasRequiredFields(p) <==> forall key :: key in RequiredKeys ==> Names(tokens, key)
  {
    LastValueNamed(tokens);
    Passport(
      LastValue(tokens, "byr"), LastValue(tokens, "iyr"), LastValue(tokens, "eyr"), LastValue(tokens, "hgt"),
      LastValue(tokens, "hcl"), LastValue(tokens, "ecl"), LastValue(tokens, "pid"), LastValue(tokens, "cid"))
  }

  /** The eight field names. */
  predicate IsFieldKey(key: string) {
    key == "byr" || key == "iyr" || key == "eyr" || key == "hgt" || key == "hcl" || key == "ecl" || key == "pid" || key == "cid"
  }

  /** The field update of one token: a known key sets its field, any other key changes nothing. */
  function SetField(p: Passport, key: string, val: string): Passport {
    if key == "byr" then p.(byr := Some(val))
    else if key == "iyr" then p.(iyr := Some(val))
    else if key == "eyr" then p.(eyr := Some(val))
    else if key == "hgt" then p.(hgt := Some(val))
    else if key == "hcl" then p.(hcl := Some(val))
    else if key == "ecl" then p.(ecl := Some(val))
    else if key == "pid" then p.(pid := Some(val))
    else if key == "cid" then p.(cid := Some(val))
    else p
  }

  /** Reading one more token sets the field it names on the passport of the earlier tokens. */
  lemma PassportOfAppend(tokens: seq<string>, token: string)
    requires KeyValue(token).Some?
    ensures PassportOf(tokens + [token]) == SetField(PassportOf(tokens), KeyValue(token).value.0, KeyValue(token).value.1)
  {
    assert (tokens + [token])[..|tokens|] == tokens;
  }

  /** One turn of the parsing loop keeps the passport equal to that of the tokens read so far. */
  lemma ParseStep(parts: seq<string>, i: nat, passport: Passport, key: string, val: string)
    requires i < |parts| && WellFormed(parts[..i]) && passport == PassportOf(parts[..i])
    requires |SplitOn(parts[i], ":")| >= 2
    requires key == SplitOn(parts[i], ":")[0] && val == SplitOn(parts[i], ":")[1]
    ensures WellFormed(parts[..i + 1])
    ensures SetField(passport, key, val) == PassportOf(parts[..i + 1])
  {
    assert parts[..i + 1] == parts[..i] + [parts[i]];
    PassportOfAppend(parts[..i], parts[i]);
  }

  /** A token with an unknown key leaves the passport as it was. */
  lemma UnknownKeyIgnored(tokens: seq<string>, token: string)
    requires KeyValue(token).Some? && !IsFieldKey(KeyValue(token).value.0)
    ensures PassportOf(tokens + [token]) == PassportOf(tokens)
  {
    PassportOfAppend(tokens, token);
  }

  /**
   * `Passport::parse`: a default passport updated token by token, each known key
   * overwriting its field. It gives `None` at the first token without `:`.
   */
  method ParsePassport(input: string) returns (r: Option<Passport>)
    ensures r.None? <==> !WellFormed(Words(input))
    ensures r.Some? ==> r.value == PassportOf(Words(input))
  {
    var passport := EmptyPassport();
    var parts := Words(input);
    for i := 0 to |parts|
      invariant WellFormed(parts[..i])
      invariant passport == PassportOf(parts[..i])
    {
      var part := SplitOn(parts[i], ":");
      if |part| < 2 {
        assert !WellFormed(parts) by {
          assert KeyValue(parts[i]).None?;
        }
        return None;
      }
      var key, val := part[0], part[1];
      ParseStep(parts, i, passport, key, val);
      passport := SetField(passport, key, val);
    }
    assert parts[..|parts|] == parts;
    return Some(passport);
  }

  // ---------------------------------------------------------------------------
  // Grouping lines into records

  /**
   * The grouping loop of `parse_input`: non-empty lines are collected, and an empty line
   * (and the end of the input) joins the collected lines with single spaces into one record.
   */
  method ParseRecords(lines: seq<string>) returns (records: seq<string>)
    ensures |records| == |Paragraphs(lines)|
    ensures forall i :: 0 <= i < |records| ==> records[i] == Join(Paragraphs(lines)[i], " ")
  {
    records := [];
    var parts: seq<string> := [];
    for i := 0 to |lines|
      invariant |records| + 1 == |Paragraphs(lines[..i])|
      invariant forall k :: 0 <= k < |records| ==> records[k] == Join(Paragraphs(lines[..i])[k], " ")
      invariant parts == Paragraphs(lines[..i])[|records|]
    {
      assert lines[..i + 1][..i] == lines[..i];
      if lines[i] == "" {
        records := records + [Join(parts, " ")];
        parts := [];
      } else {
        parts := parts + [lines[i]];
      }
    }
    records := records + [Join(parts, " ")];
    assert lines[..|lines|] == lines;
  }

  /** `parse_input` after reading the lines: the records, each parsed into a passport. */
  method ParseInput(lines: seq<string>) returns (r: Option<seq<Passport>>)
    ensures r.None? <==> exists i :: 0 <= i < |Paragraphs(lines)| && !WellFormed(Words(Join(Paragraphs(lines)[i], " ")))
    ensures r.Some? ==> |r.value| == |Paragraphs(lines)|
    ensures r.Some? ==> forall i :: 0 <= i < |r.value| ==> r.value[i] == PassportOf(Words(Join(Paragraphs(lines)[i], " ")))
  {
    var records := ParseRecords(lines);
    var passports: seq<Passport> := [];
    for i := 0 to |records|
      invariant |passports| == i
      invariant forall k :: 0 <= k < i ==> WellFormed(Words(records[k])) && passports[k] == PassportOf(Words(records[k]))
    {
      var passport := ParsePassport(records[i]);
      if passport.None? {
        return None;
      }
      passports := passports + [passport.value];
    }
    return Some(passports);
  }

  // ---------------------------------------------------------------------------
  // Field checks

  /** A year field: present, a `u16`, and within `lo..hi` inclusive. */
  function ValidYear(field: Option<string>, lo: nat, hi: nat): (b: bool)
    ensures b ==> field.Some? && lo <= hi && lo < 0x1_0000
  {
    match field
    case None => false
    case Some(text) =>
      match ParseU16(text)
      case Some(year) => lo <= year <= hi
      case None => false
  }

  /** A year written in decimal is valid exactly when it lies within the bounds. */
  lemma ValidYearOfNumber(n: nat, lo: nat, hi: nat)
    requires hi < 0x1_0000
    ensures ValidYear(Some(NatToString(n)), lo, hi) <==> lo <= n <= hi
  {
    ParseUnsignedOfNatToString(n);
  }

  function ValidByr(p: Passport): (b: bool)
    ensures b ==> p.byr.Some?
  {
    ValidYear(p.byr, 1920, 2002)
  }

  function ValidIyr(p: Passport): (b: bool)
    ensures b ==> p.iyr.Some?
  {
    ValidYear(p.iyr, 2010, 2020)
  }

  function ValidEyr(p: Passport): (b: bool)
    ensures b ==> p.eyr.Some?
  {
    ValidYear(p.eyr, 2020, 2030)
  }

  function ValidHgt(p: Passport): (b: bool)
    ensures b ==> p.hgt.Some? && exists i :: DigitThenWord(p.hgt.value, i)
  {
    p.hgt.Some? && HeightValid(p.hgt.value)
  }

  function ValidHcl(p: Passport): (b: bool)
    ensures b ==> p.hcl.Some? && |p.hcl.value| >= 7
  {
    p.hcl.Some? && HairColorMatch(p.hcl.value)
  }

  function ValidEcl(p: Passport): (b: bool)
    ensures b ==> p.ecl.Some? && |p.ecl.value| == 3
  {
    p.ecl.Some? && EyeColorValid(p.ecl.value)
  }

  function ValidPid(p: Passport): (b: bool)
    ensures b ==> p.pid.Some? && |p.pid.value| == 9
  {
    p.pid.Some? && PassportIdMatch(p.pid.value)
  }

  // ---------------------------------------------------------------------------
  // The two parts

  /** The keys of the seven required fields: every field but `cid`. */
  const RequiredKeys: set<string> := {"byr", "iyr", "eyr", "hgt", "hcl", "ecl", "pid"}

  /** The field a key names; nothing for a key that names no field. */
  function Field(p: Passport, key: string): Option<string> {
    if key == "byr" then p.byr
    else if key == "iyr" then p.iyr
    else if key == "eyr" then p.eyr
    else if key == "hgt" then p.hgt
    else if key == "hcl" then p.hcl
    else if key == "ecl" then p.ecl
    else if key == "pid" then p.pid
    else if key == "cid" then p.cid
    else None
  }

  /** The seven required fields are present; `cid` does not matter. */
  function HasRequiredFields(p: Passport): (b: bool)
    ensures b <==> forall key :: key in RequiredKeys ==> Field(p, key).Some?
  {
    assert Field(p, "byr") == p.byr && Field(p, "iyr") == p.iyr && Field(p, "eyr") == p.eyr;
    assert Field(p, "hgt") == p.hgt && Field(p, "hcl") == p.hcl && Field(p, "ecl") == p.ecl && Field(p, "pid") == p.pid;
    p.byr.Some? && p.iyr.Some? && p.eyr.Some? && p.hgt.Some? && p.hcl.Some? && p.ecl.Some? && p.pid.Some?
  }

  /** Every field check of the second part passes. */
  function AllFieldsValid(p: Passport): (b: bool)
    ensures b ==> HasRequiredFields(p)
  {
    ValidByr(p) && ValidEcl(p) && ValidEyr(p) && ValidHcl(p) && ValidHgt(p) && ValidIyr(p) && ValidPid(p)
  }

  /** The first part: how many passports have the seven required fields. */
  function PartOne(passports: seq<Passport>): (n: nat)
    ensures n <= |passports|
  {
    CountIf(passports, HasRequiredFields)
  }

  /** The second part: how many passports pass every field check. */
  function PartTwo(passports: seq<Passport>): (n: nat)
    ensures n <= |passports|
  {
    CountIf(passports, AllFieldsValid)
  }

  /** The first part counts exactly the positions of passports with the required fields. */
  lemma PartOneCounts(passports: seq<Passport>)
    ensures PartOne(passports) == |set i: nat | i < |passports| && HasRequiredFields(passports[i])|
  {
    CountIfMatching(passports, HasRequiredFields);
    assert Matching(passports, HasRequiredFields) == set i: nat | i < |passports| && HasRequiredFields(passports[i]);
  }

  /** The second part counts exactly the positions of passports passing every check. */
  lemma PartTwoCounts(passports: seq<Passport>)
    ensures PartTwo(passports) == |set i: nat | i < |passports| && AllFieldsValid(passports[i])|
  {
    CountIfMatching(passports, AllFieldsValid);
    assert Matching(passports, AllFieldsValid) == set i: nat | i < |passports| && AllFieldsValid(passports[i]);
  }

  /** The country id neither helps nor hurts a passport in either part. */
  lemma CountryIdIgnored(p: Passport, cid: Option<string>)
    ensures HasRequiredFields(p.(cid := cid)) == HasRequiredFields(p)
    ensures AllFieldsValid(p.(cid := cid)) == AllFieldsValid(p)
  {
  }

  /** The second part never counts more passports than the first. */
  lemma PartTwoAtMostPartOne(passports: seq<Passport>)
    ensures PartTwo(passports) <= PartOne(passports)
  {
    CountIfMonotone(passports, AllFieldsValid, HasRequiredFields);
  }

  // ---------------------------------------------------------------------------
  // The checks on the unit tests' values

  lemma EyeColorExamples()
    ensures EyeColorValid("brn") && !EyeColorValid("moo")
  {
  }

  lemma HeightExamples()
    ensures HeightValid("60in") && HeightValid("190cm") && !HeightValid("190in") && !HeightValid("190")
  {
    HeightExampleInches();
    HeightExamplesCentimeters();
    DigitsAreNoHeight("190");
  }

  lemma HeightExampleInches()
    ensures HeightValid("60in")
  {
    assert NatToString(60) == "60";
    assert AllWordChars("in");
    HeightValidOfNumber(60, "in");
    assert "60" + "in" == "60in";
  }

  lemma HeightExamplesCentimeters()
    ensures HeightValid("190cm") && !HeightValid("190in")
  {
    assert NatToString(190) == "190";
    assert AllWordChars("in") && AllWordChars("cm");
    HeightValidOfNumber(190, "cm");
    assert "190" + "cm" == "190cm";
    HeightValidOfNumber(190, "in");
    assert "190" + "in" == "190in";
  }

  lemma HairColorExamples()
    ensures HairColorMatch("#123abc") && !HairColorMatch("#123abz") && !HairColorMatch("123abc")
  {
    assert HairColorAt("#123abc", 0);
    assert !IsLowerHex("#123abz"[6]);
  }

  lemma PassportIdExamples()
    ensures PassportIdMatch("123456789") && !PassportIdMatch("0123456789")
  {
  }
}
