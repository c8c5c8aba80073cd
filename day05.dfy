/** Day 5: binary boarding. A boarding pass is ten characters: seven `F`/`B`
    halving the rows, then three `L`/`R` halving the columns; the seat id is
    `row * 8 + col`, and the missing seat is the first id between the
    smallest and the largest that no pass has. */
module Day05 {
  import opened Common

  /** The seat a boarding pass decodes to. */
  datatype Seat = Seat(row: nat, col: nat)

  // ---------------------------------------------------------------------------
  // Binary codes

  /** The bit a character stands for (main.rs:16-20, 24-28): `one` is 1 and
      `zero` is 0; any other character panics ("bad char"), modelled as
      `None`. */
  function Bit(c: char, one: char, zero: char): (b: Option<nat>)
    requires one != zero
    ensures b.Some? <==> c == one || c == zero
    ensures b.Some? ==> b.value <= 1 && (b.value == 1 <==> c == one)
  {
    if c == one then Some(1) else if c == zero then Some(0) else None
  }

  /** The bits of a code, one per character. */
  function Bits(s: string, one: char, zero: char): (r: Option<seq<nat>>)
    requires one != zero
    ensures r.Some? ==> |r.value| == |s|
  {
    if |s| == 0 then Some([])
    else
      var init := Bits(s[..|s| - 1], one, zero);
      var last := Bit(s[|s| - 1], one, zero);
      if init.None? || last.None? then None else Some(init.value + [last.value])
  }

  /** A code has bits exactly when each of its characters is a bit, and
      then its bits are those of its characters. */
  lemma {:induction false} BitsOf(s: string, one: char, zero: char)
    requires one != zero
    ensures var r := Bits(s, one, zero);
      && (r.Some? ==> forall k | 0 <= k < |s| :: Bit(s[k], one, zero) == Some(r.value[k]))
      && (r.None? <==> exists k | 0 <= k < |s| :: Bit(s[k], one, zero).None?)
  {
    if |s| > 0 {
      BitsOf(s[..|s| - 1], one, zero);
      assert forall k | 0 <= k < |s| - 1 :: s[..|s| - 1][k] == s[k];
    }
  }

  /** `(0..n).rev().map(|i| bit << i).sum()`: the first bit is worth
      `1 << (n - 1)`, the last one 1. */
  function Weighted(bits: seq<nat>): nat
  {
    if |bits| == 0 then 0 else bits[0] * Pow2(|bits| - 1) + Weighted(bits[1..])
  }

  /** The value of a code, `None` when a character is bad. */
  function Decode(s: string, one: char, zero: char): Option<nat>
    requires one != zero
  {
    var bits := Bits(s, one, zero);
    if bits.None? then None else Some(Weighted(bits.value))
  }

  lemma {:induction false} Pow2Add(m: nat, n: nat)
    ensures Pow2(m + n) == Pow2(m) * Pow2(n)
    decreases m
  {
    if m > 0 {
      Pow2Add(m - 1, n);
      assert Pow2(m + n) == 2 * Pow2(m - 1 + n);
    }
  }

  /** The value of two codes written one after the other: the first one is
      shifted left by the length of the second. */
  lemma {:induction false} WeightedConcat(a: seq<nat>, b: seq<nat>)
    ensures Weighted(a + b) == Weighted(a) * Pow2(|b|) + Weighted(b)
    decreases |a|
  {
    if |a| > 0 {
      WeightedConcat(a[1..], b);
      assert (a + b)[1..] == a[1..] + b;
      Pow2Add(|a| - 1, |b|);
      assert Weighted(a + b) == a[0] * Pow2(|a| - 1 + |b|) + Weighted(a[1..] + b);
      Shift(a[0], Pow2(|a| - 1), Weighted(a[1..]), Pow2(|b|));
    } else {
      assert a + b == b;
    }
  }

  /** A one-bit code is worth its bit. */
  lemma WeightedSingle(x: nat)
    ensures Weighted([x]) == x && Pow2(1) == 2
  {
    assert [x][1..] == [];
  }

  lemma Shift(x: int, q: int, w: int, p: int)
    ensures x * (q * p) + w * p == (x * q + w) * p
  {
  }

  /** A code of bits fits in its width. */
  lemma {:induction false} WeightedBound(bits: seq<nat>)
    requires forall k | 0 <= k < |bits| :: bits[k] <= 1
    ensures Weighted(bits) < Pow2(|bits|)
  {
    if |bits| > 0 {
      WeightedBound(bits[1..]);
      assert bits[0] * Pow2(|bits| - 1) <= Pow2(|bits| - 1);
    }
  }

  /** The code of the lowest `w` bits of `n`, most significant first. */
  function Encode(n: nat, w: nat, one: char, zero: char): (s: string)
    ensures |s| == w
  {
    if w == 0 then "" else Encode(n / 2, w - 1, one, zero) + [if n % 2 == 1 then one else zero]
  }

  /** Reading a code written for a number that fits gives the number back. */
  lemma {:induction false} DecodeEncode(n: nat, w: nat, one: char, zero: char)
    requires one != zero && n < Pow2(w)
    ensures Decode(Encode(n, w, one, zero), one, zero) == Some(n)
  {
    if w > 0 {
      var c := if n % 2 == 1 then one else zero;
      var init := Encode(n / 2, w - 1, one, zero);
      var s := Encode(n, w, one, zero);
      assert s == init + [c];
      assert s[..|s| - 1] == init;
      DecodeEncode(n / 2, w - 1, one, zero);
      var bits := Bits(init, one, zero).value;
      assert Bits(s, one, zero) == Some(bits + [n % 2]);
      WeightedConcat(bits, [n % 2]);
      WeightedSingle(n % 2);
      assert Weighted(bits + [n % 2]) == (n / 2) * 2 + n % 2;
    }
  }

  /** Writing the value of a code gives the code back. */
  lemma {:induction false} EncodeDecode(s: string, one: char, zero: char)
    requires one != zero && Decode(s, one, zero).Some?
    ensures Encode(Decode(s, one, zero).value, |s|, one, zero) == s
  {
    if |s| > 0 {
      var init, c := s[..|s| - 1], s[|s| - 1];
      assert s == init + [c];
      assert Bits(s, one, zero) == Some(Bits(init, one, zero).value + [Bit(c, one, zero).value]);
      EncodeDecode(init, one, zero);
      EncodeDecodeStep(init, c, Bits(init, one, zero).value, Bit(c, one, zero).value, one, zero);
    }
  }

  /** One more character after a code that writes back from its value. */
  lemma EncodeDecodeStep(init: string, c: char, bits: seq<nat>, b: nat, one: char, zero: char)
    requires one != zero && Bit(c, one, zero) == Some(b)
    requires Encode(Weighted(bits), |init|, one, zero) == init
    ensures Encode(Weighted(bits + [b]), |init| + 1, one, zero) == init + [c]
  {
    var v := Weighted(bits);
    WeightedConcat(bits, [b]);
    WeightedSingle(b);
    var n := Weighted(bits + [b]);
    assert n == 2 * v + b;
    HalveBit(v, b, n);
    assert Encode(n, |init| + 1, one, zero) == Encode(n / 2, |init|, one, zero) + [if n % 2 == 1 then one else zero];
  }

  lemma HalveBit(v: nat, b: nat, n: nat)
    requires b <= 1 && n == 2 * v + b
    ensures n / 2 == v && n % 2 == b
  {
  }

  // ---------------------------------------------------------------------------
  // Boarding passes (main.rs:11-33)

  /** A boarding pass (main.rs:11-31): exactly ten characters (the
      `assert_eq!`), the row from the first seven with `B` as 1, the column
      from the last three with `R` as 1. A wrong length or a bad character
      panics, modelled as `None`. */
  function ParseSeat(line: string): (r: Option<Seat>)
    ensures r.Some? <==>
      && |line| == 10
      && (forall k | 0 <= k < 7 :: line[k] == 'B' || line[k] == 'F')
      && (forall k | 7 <= k < 10 :: line[k] == 'R' || line[k] == 'L')
  {
    if |line| != 10 then None
    else
      var row := Decode(line[..7], 'B', 'F');
      var col := Decode(line[7..], 'R', 'L');
      BitsOf(line[..7], 'B', 'F');
      BitsOf(line[7..], 'R', 'L');
      assert forall k | 7 <= k < 10 :: line[k] == line[7..][k - 7];
      if row.None? || col.None? then None else Some(Seat(row.value, col.value))
  }

  /** The seat id (main.rs:33). */
  function SeatId(seat: Seat): nat
  {
    seat.row * 8 + seat.col
  }

  /** A pass's row is in `[0, 127]`, its column in `[0, 7]`. */
  lemma SeatBounds(line: string)
    requires ParseSeat(line).Some?
    ensures ParseSeat(line).value.row < 128 && ParseSeat(line).value.col < 8
    ensures SeatId(ParseSeat(line).value) < 1024
  {
    BitsOf(line[..7], 'B', 'F');
    BitsOf(line[7..], 'R', 'L');
    WeightedBound(Bits(line[..7], 'B', 'F').value);
    WeightedBound(Bits(line[7..], 'R', 'L').value);
  }

  /** The seat id is the whole pass read as one ten-bit number: the row's
      bits followed by the column's. */
  lemma SeatIdIsBinary(line: string)
    requires ParseSeat(line).Some?
    ensures SeatId(ParseSeat(line).value)
      == Weighted(Bits(line[..7], 'B', 'F').value + Bits(line[7..], 'R', 'L').value)
  {
    WeightedConcat(Bits(line[..7], 'B', 'F').value, Bits(line[7..], 'R', 'L').value);
  }

  /** The boarding pass of a seat id. */
  function Pass(id: nat): (line: string)
    ensures |line| == 10
  {
    Encode(id / 8, 7, 'B', 'F') + Encode(id % 8, 3, 'R', 'L')
  }

  /** Every id below `1024` has a pass, and the pass decodes to it. */
  lemma ParsePass(id: nat)
    requires id < 1024
    ensures ParseSeat(Pass(id)) == Some(Seat(id / 8, id % 8))
    ensures SeatId(ParseSeat(Pass(id)).value) == id
  {
    var line := Pass(id);
    DecodeEncode(id / 8, 7, 'B', 'F');
    DecodeEncode(id % 8, 3, 'R', 'L');
    assert line[..7] == Encode(id / 8, 7, 'B', 'F');
    assert line[7..] == Encode(id % 8, 3, 'R', 'L');
  }

  /** A pass is the pass of its seat id: the decoding loses nothing. */
  lemma PassOfSeatId(line: string)
    requires ParseSeat(line).Some?
    ensures Pass(SeatId(ParseSeat(line).value)) == line
  {
    var seat := ParseSeat(line).value;
    SeatBounds(line);
    EncodeDecode(line[..7], 'B', 'F');
    EncodeDecode(line[7..], 'R', 'L');
    assert SeatId(seat) / 8 == seat.row && SeatId(seat) % 8 == seat.col;
    assert line == line[..7] + line[7..];
  }

  /** The seat id of a line, `None` when the line panics. */
  function ParseId(line: string): Option<nat>
  {
    var seat := ParseSeat(line);
    if seat.None? then None else Some(SeatId(seat.value))
  }

  // ---------------------------------------------------------------------------
  // The missing seat (main.rs:33-44)

  /** The scan for the missing id (main.rs:39-44): the first id from the
      smallest up to, but not including, the largest that is not among the
      ids. */
  method FindMissing(ids: seq<int>) returns (r: Option<int>)
    requires |ids| > 0
    ensures r.Some? ==>
      && Min(ids) <= r.value < Max(ids) && r.value !in ids
      && forall x | Min(ids) <= x < r.value :: x in ids
    ensures r.None? <==> forall x | Min(ids) <= x < Max(ids) :: x in ids
  {
    var min := Min(ids);
    var max := Max(ids);
    var x := min;
    while x < max
      invariant min <= x
      invariant forall y | min <= y < x && y < max :: y in ids
      decreases max - x
    {
      if x !in ids {
        return Some(x);
      }
      x := x + 1;
    }
    return None;
  }

  /** `main` on the lines of the input: the smallest id, the largest id and
      the missing id, if any. A bad line, or no line at all (the `unwrap`
      of the minimum), panics, modelled as `None`. */
  method Solve(lines: seq<string>) returns (r: Option<(int, int, Option<int>)>)
    ensures r.None? <==> |lines| == 0 || ParseEach(lines, ParseId).None?
    ensures r.Some? ==> var ids := ParseEach(lines, ParseId).value;
      && r.value.0 == Min(ids) && r.value.1 == Max(ids)
      && (r.value.2.Some? ==>
        && Min(ids) <= r.value.2.value < Max(ids) && r.value.2.value !in ids
        && forall x | Min(ids) <= x < r.value.2.value :: x in ids)
      && (r.value.2.None? <==> forall x | Min(ids) <= x < Max(ids) :: x in ids)
  {
    var parsed := ParseEach(lines, ParseId);
    if |lines| == 0 || parsed.None? {
      return None;
    }
    var ids: seq<int> := parsed.value;
    var missing := FindMissing(ids);
    return Some((Min(ids), Max(ids), missing));
  }
}
