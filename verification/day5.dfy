/**
 * Boarding passes: the first seven characters give the row in binary (`B` a one bit,
 * most significant first), the next three the column (`R` a one bit); the seat id is
 * `row * 8 + col`.
 */
module Day5 {
  import opened Arith

  datatype Seat = Seat(row: nat, col: nat)

  // ---------------------------------------------------------------------------
  // Decoding

  function Pow2(n: nat): (p: nat)
    ensures p >= 1
  {
    if n == 0 then 1 else 2 * Pow2(n - 1)
  }

  /** 1 when position `i` of `s` exists and holds `one`; every other character counts as 0. */
  function Bit(s: string, i: nat, one: char): nat {
    if i < |s| && s[i] == one then 1 else 0
  }

  /** Positions `lo .. hi - 1` of `s` read as a binary number, position `lo` the most significant. */
  function Binary(s: string, lo: nat, hi: nat, one: char): (v: nat)
    requires lo <= hi
    ensures v < Pow2(hi - lo)
    decreases hi - lo
  {
    if hi == lo then 0 else 2 * Binary(s, lo, hi - 1, one) + Bit(s, hi - 1, one)
  }

  /** The row a pass names: its first seven characters, with `B` the one bit. */
  function Row(s: string): (row: nat)
    ensures row <= 127
  {
    Binary(s, 0, 7, 'B')
  }

  /** The column a pass names: characters 7 to 9, with `R` the one bit. */
  function Col(s: string): (col: nat)
    ensures col <= 7
  {
    Binary(s, 7, 10, 'R')
  }

  /**
   * `Seat::from_str`: reads the characters in order, adding `2^(6 - idx)` to the row for
   * a `B` at positions 0 to 6 and `2^(9 - idx)` to the column for an `R` at positions
   * 7 to 9; everything else is ignored. The result is the seat `Row` and `Col` name.
   */
  method FromStr(input: string) returns (seat: Seat)
    ensures seat == Seat(Row(input), Col(input))
  {
    var row, col := 0, 0;
    for idx := 0 to |input|
      invariant row == RowSoFar(input, idx)
      invariant col == ColSoFar(input, idx)
    {
      RowStep(input, idx);
      ColStep(input, idx);
      if 7 <= idx <= 9 && input[idx] == 'R' {
        col := col + Pow2(9 - idx);
      } else if 0 <= idx <= 6 && input[idx] == 'B' {
        row := row + Pow2(6 - idx);
      }
    }
    RowDone(input);
    ColDone(input);
    seat := Seat(row, col);
  }

  /** The row bits of the first `n` characters, each at its place value. */
  function RowSoFar(s: string, n: nat): nat {
    Binary(s, 0, Min(n, 7), 'B') * Pow2(7 - Min(n, 7))
  }

  /** The column bits of the first `n` characters, each at its place value. */
  function ColSoFar(s: string, n: nat): nat {
    Binary(s, 7, Clamp(n, 7, 10), 'R') * Pow2(10 - Clamp(n, 7, 10))
  }

  lemma RowStep(s: string, idx: nat)
    ensures RowSoFar(s, idx + 1) == RowSoFar(s, idx) + (if idx <= 6 && idx < |s| && s[idx] == 'B' then Pow2(6 - idx) else 0)
  {
    if idx <= 6 {
      assert Min(idx + 1, 7) == idx + 1 && Min(idx, 7) == idx;
      ScaleStep(s, 0, idx, 7, 'B');
      BitTimes(s, idx, 'B', Pow2(6 - idx));
    } else {
      assert Min(idx + 1, 7) == 7 == Min(idx, 7);
    }
  }

  lemma ColStep(s: string, idx: nat)
    ensures ColSoFar(s, idx + 1) == ColSoFar(s, idx) + (if 7 <= idx <= 9 && idx < |s| && s[idx] == 'R' then Pow2(9 - idx) else 0)
  {
    if 7 <= idx <= 9 {
      assert Clamp(idx + 1, 7, 10) == idx + 1 && Clamp(idx, 7, 10) == idx;
      ScaleStep(s, 7, idx, 10, 'R');
      BitTimes(s, idx, 'R', Pow2(9 - idx));
    } else {
      assert Clamp(idx + 1, 7, 10) == Clamp(idx, 7, 10);
    }
  }

  lemma BitTimes(s: string, i: nat, one: char, p: nat)
    ensures Bit(s, i, one) * p == if i < |s| && s[i] == one then p else 0
  {
  }

  lemma RowDone(s: string)
    ensures RowSoFar(s, |s|) == Row(s)
  {
    if |s| < 7 {
      BinaryPastEnd(s, 0, |s|, 7, 'B');
    }
  }

  lemma ColDone(s: string)
    ensures ColSoFar(s, |s|) == Col(s)
  {
    if |s| < 10 {
      BinaryPastEnd(s, 7, Clamp(|s|, 7, 10), 10, 'R');
    }
  }

  function Min(a: nat, b: nat): nat {
    if a < b then a else b
  }

  function Clamp(x: nat, lo: nat, hi: nat): (c: nat)
    requires lo <= hi
    ensures lo <= c <= hi
  {
    if x < lo then lo else if x > hi then hi else x
  }

  /** Reading one more bit: the scaled prefix gains the bit at its place value. */
  lemma ScaleStep(s: string, lo: nat, i: nat, hi: nat, one: char)
    requires lo <= i < hi
    ensures Binary(s, lo, i + 1, one) * Pow2(hi - i - 1)
      == Binary(s, lo, i, one) * Pow2(hi - i) + Bit(s, i, one) * Pow2(hi - i - 1)
  {
    var p := Pow2(hi - i - 1);
    assert Pow2(hi - i) == 2 * p;
    var b := Binary(s, lo, i, one);
    assert (2 * b + Bit(s, i, one)) * p == b * (2 * p) + Bit(s, i, one) * p;
  }

  /** Positions past the end of the pass are zero bits. */
  lemma {:induction false} BinaryPastEnd(s: string, lo: nat, n: nat, hi: nat, one: char)
    requires lo <= n <= hi && |s| <= n
    ensures Binary(s, lo, hi, one) == Binary(s, lo, n, one) * Pow2(hi - n)
    decreases hi - n
  {
    if n < hi {
      BinaryPastEnd(s, lo, n, hi - 1, one);
      var b, p := Binary(s, lo, n, one), Pow2(hi - 1 - n);
      assert Bit(s, hi - 1, one) == 0;
      assert Binary(s, lo, hi, one) == 2 * (b * p);
      MulSwap(2, b, p);
      assert Pow2(hi - n) == 2 * p;
    }
  }

  // ---------------------------------------------------------------------------
  // Encoding

  /** `v` in `width` binary digits, most significant first, written with `one` and `zero`. */
  function Digits(v: nat, width: nat, one: char, zero: char): (s: string)
    ensures |s| == width
    decreases width
  {
    if width == 0 then "" else Digits(v / 2, width - 1, one, zero) + [if v % 2 == 1 then one else zero]
  }

  /** The pass naming a seat. */
  function Encode(seat: Seat): (s: string)
    ensures |s| == 10
  {
    Digits(seat.row, 7, 'B', 'F') + Digits(seat.col, 3, 'R', 'L')
  }

  /** Reading a binary number looks only at its own positions. */
  lemma {:induction false} BinaryLocal(s: string, t: string, lo: nat, hi: nat, one: char)
    requires lo <= hi && |s| >= hi && |t| >= hi
    requires forall i :: lo <= i < hi ==> s[i] == t[i]
    ensures Binary(s, lo, hi, one) == Binary(t, lo, hi, one)
    decreases hi - lo
  {
    if lo < hi {
      BinaryLocal(s, t, lo, hi - 1, one);
    }
  }

  /** Reading back the digits gives the number, when it fits in the width. */
  lemma {:induction false} BinaryOfDigits(v: nat, width: nat, one: char, zero: char)
    requires v < Pow2(width) && one != zero
    ensures Binary(Digits(v, width, one, zero), 0, width, one) == v
    decreases width
  {
    if width > 0 {
      var s := Digits(v, width, one, zero);
      var init := Digits(v / 2, width - 1, one, zero);
      BinaryOfDigits(v / 2, width - 1, one, zero);
      BinaryLocal(s, init, 0, width - 1, one);
    }
  }

  /** Reading a binary number at an offset is reading the shifted string. */
  lemma {:induction false} BinaryShift(p: string, s: string, lo: nat, hi: nat, one: char)
    requires lo <= hi
    ensures Binary(p + s, |p| + lo, |p| + hi, one) == Binary(s, lo, hi, one)
    decreases hi - lo
  {
    if lo < hi {
      BinaryShift(p, s, lo, hi - 1, one);
    }
  }

  /** Decoding inverts encoding for every seat of the plane. */
  lemma DecodeEncode(seat: Seat)
    requires seat.row <= 127 && seat.col <= 7
    ensures Row(Encode(seat)) == seat.row && Col(Encode(seat)) == seat.col
  {
    RowOfEncode(seat);
    ColOfEncode(seat);
  }

  lemma RowOfEncode(seat: Seat)
    requires seat.row <= 127
    ensures Row(Encode(seat)) == seat.row
  {
    var r, c := Digits(seat.row, 7, 'B', 'F'), Digits(seat.col, 3, 'R', 'L');
    BinaryOfDigits(seat.row, 7, 'B', 'F');
    BinaryLocal(r + c, r, 0, 7, 'B');
  }

  lemma ColOfEncode(seat: Seat)
    requires seat.col <= 7
    ensures Col(Encode(seat)) == seat.col
  {
    var r, c := Digits(seat.row, 7, 'B', 'F'), Digits(seat.col, 3, 'R', 'L');
    BinaryOfDigits(seat.col, 3, 'R', 'L');
    BinaryShift(r, c, 0, 3, 'R');
  }

  // ---------------------------------------------------------------------------
  // Seat ids

  /** `Seat::id`: the seats of one row take the row's block of eight consecutive ids. */
  function Id(seat: Seat): (id: nat)
    ensures seat.row * 8 <= id
    ensures seat.col < 8 ==> id < (seat.row + 1) * 8
  {
    seat.row * 8 + seat.col
  }

  /** A decoded seat's id is at most 1023, so it fits the source's 16 bits. */
  lemma IdBound(s: string)
    ensures Id(Seat(Row(s), Col(s))) <= 1023 < 0x1_0000
  {
  }

  /** Ids tell seats of the plane apart: row and column come back out of the id. */
  lemma IdInjective(seat: Seat)
    requires seat.col <= 7
    ensures Id(seat) / 8 == seat.row && Id(seat) % 8 == seat.col
  {
  }

  function Ids(seats: seq<Seat>): (ids: seq<nat>)
    ensures |ids| == |seats| && forall i :: 0 <= i < |seats| ==> ids[i] == Id(seats[i])
  {
    seq(|seats|, i requires 0 <= i < |seats| => Id(seats[i]))
  }

  /** The largest id, or 0 when there are no seats (`max().unwrap_or_default()`). */
  function MaxId(seats: seq<Seat>): (m: nat)
    ensures forall i :: 0 <= i < |seats| ==> Id(seats[i]) <= m
    ensures |seats| == 0 ==> m == 0
    ensures |seats| > 0 ==> exists i :: 0 <= i < |seats| && Id(seats[i]) == m
    decreases |seats|
  {
    if |seats| == 0 then 0
    else
      var m := MaxId(seats[1..]);
      if |seats| == 1 || Id(seats[0]) >= m then Id(seats[0]) else m
  }

  /** The smallest id, or 0 when there are no seats (`min().unwrap_or_default()`). */
  function MinId(seats: seq<Seat>): (m: nat)
    ensures forall i :: 0 <= i < |seats| ==> m <= Id(seats[i])
    ensures |seats| == 0 ==> m == 0
    ensures |seats| > 0 ==> exists i :: 0 <= i < |seats| && Id(seats[i]) == m
    decreases |seats|
  {
    if |seats| == 0 then 0
    else
      var m := MinId(seats[1..]);
      if |seats| == 1 || Id(seats[0]) <= m then Id(seats[0]) else m
  }

  /** The first part: the highest seat id. */
  function PartOne(seats: seq<Seat>): (r: nat)
    ensures forall i :: 0 <= i < |seats| ==> Id(seats[i]) <= r
    ensures |seats| > 0 ==> exists i :: 0 <= i < |seats| && Id(seats[i]) == r
  {
    MaxId(seats)
  }

  /**
   * The second part: the first id from the smallest up to (not including) the largest
   * that no seat has, or 0 when every one of them is taken.
   */
  method PartTwo(seats: seq<Seat>) returns (r: nat)
    ensures var ids := Ids(seats);
      if exists id :: MinId(seats) <= id < MaxId(seats) && id !in ids then
        && MinId(seats) <= r < MaxId(seats) && r !in ids
        && forall id :: MinId(seats) <= id < r ==> id in ids
      else r == 0
  {
    var ids := Ids(seats);
    var maxId := MaxId(seats);
    var minId := MinId(seats);
    var id := minId;
    assert |seats| > 0 ==> minId <= Id(seats[0]) <= maxId;
    while id < maxId
      invariant minId <= id <= maxId
      invariant forall k :: minId <= k < id ==> k in ids
      decreases maxId - id
    {
      if id !in ids {
        return id;
      }
      id := id + 1;
    }
    return 0;
  }

  // ---------------------------------------------------------------------------
  // Examples of the puzzle statement

  /** The four passes of the puzzle statement. */
  lemma DecodeFirstExample()
    ensures Row("FBFBBFFRLR") == 44 && Col("FBFBBFFRLR") == 5
  {
  }

  lemma DecodeSecondExample()
    ensures Row("BFFFBBFRRR") == 70 && Col("BFFFBBFRRR") == 7
  {
  }

  lemma DecodeThirdExample()
    ensures Row("FFFBBBFRRR") == 14 && Col("FFFBBBFRRR") == 7
  {
  }

  lemma DecodeFourthExample()
    ensures Row("BBFFBBFRLL") == 102 && Col("BBFFBBFRLL") == 4
  {
  }

  lemma IdExamples()
    ensures Id(Seat(44, 5)) == 357 && Id(Seat(70, 7)) == 567
    ensures Id(Seat(14, 7)) == 119 && Id(Seat(102, 4)) == 820
  {
  }

  lemma PartOneExample()
    ensures PartOne([Seat(44, 5), Seat(70, 7), Seat(14, 7), Seat(102, 4)]) == 820
  {
    var seats := [Seat(44, 5), Seat(70, 7), Seat(14, 7), Seat(102, 4)];
    assert Id(seats[3]) == 820;
    assert forall i :: 0 <= i < 4 ==> Id(seats[i]) <= 820;
  }
}
