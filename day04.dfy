/** Day 4: passports. A passport has eight optional text fields; the simple
    check asks for the seven required ones, the complex check validates them
    in a fixed order and reports the first failure. Passports are read from
    blocks of `key:value` items separated by blank lines. */
module Day04 {
  import opened Common

  datatype Passport = Passport(
    byr: Option<string>, iyr: Option<string>, eyr: Option<string>, hgt: Option<string>,
    hcl: Option<string>, ecl: Option<string>, pid: Option<string>, cid: Option<string>)

  const Blank := Passport(None, None, None, None, None, None, None, None)

  datatype ValidationError =
    | FieldIsNone(name: string)
    | FieldDoesNotMatchRegex(name: string)
    | FieldIsNotInRange(name: string)
    | HeightCmIsNotInRange
    | HeightInIsNotInRange

  datatype ValidationResult = Valid | Invalid(error: ValidationError)

  /** `is_valid_simple` (main.rs:58-67): the seven required fields are present;
      `cid` does not matter. */
  predicate IsValidSimple(p: Passport)
  {
    p.byr.Some? && p.iyr.Some? && p.eyr.Some? && p.hgt.Some? && p.hcl.Some? && p.ecl.Some? && p.pid.Some?
  }

  // ---------------------------------------------------------------------------
  // The field formats, stated as the languages of their patterns

  /** `^(\d{4})$` */
  predicate FourDigits(s: string) { |s| == 4 && AllDigits(s) }

  /** `^(\d+)(cm|in)$`: the digits and the unit, when `s` has that shape. */
  predicate HeightShaped(s: string)
  {
    |s| >= 3 && AllDigits(s[..|s| - 2]) && (s[|s| - 2..] == "cm" || s[|s| - 2..] == "in")
  }

  function HeightNumber(s: string): nat
    requires HeightShaped(s)
  {
    DigitsValue(s[..|s| - 2])
  }

  predicate IsHexLower(c: char) { IsDigit(c) || 'a' <= c <= 'f' }

  /** `^#[0-9a-f]{6}$` */
  predicate HairColour(s: string) { |s| == 7 && s[0] == '#' && forall k | 1 <= k < 7 :: IsHexLower(s[k]) }

  /** `^(amb|blu|brn|gry|grn|hzl|oth)$` */
  predicate EyeColour(s: string) { s in {"amb", "blu", "brn", "gry", "grn", "hzl", "oth"} }

  /** `^(\d{9})$` */
  predicate PassportId(s: string) { |s| == 9 && AllDigits(s) }

  /** The heights whose number `parse::<i32>().unwrap()` accepts. */
  predicate HeightFits(p: Passport)
  {
    p.hgt.Some? && HeightShaped(p.hgt.value) ==> HeightNumber(p.hgt.value) < 0x8000_0000
  }

  // ---------------------------------------------------------------------------
  // The checks, field by field (`None` = the field passes)

  function CheckYear(field: Option<string>, name: string, lo: nat, hi: nat): (r: Option<ValidationError>)
    ensures r.None? <==> field.Some? && FourDigits(field.value) && lo <= DigitsValue(field.value) <= hi
  {
    match field
    case None => Some(FieldIsNone(name))
    case Some(s) =>
      if !FourDigits(s) then Some(FieldDoesNotMatchRegex(name))
      else if !(lo <= DigitsValue(s) <= hi) then Some(FieldIsNotInRange(name))
      else None
  }

  function CheckHeight(field: Option<string>): (r: Option<ValidationError>)
    ensures r.None? <==> (field.Some? && HeightShaped(field.value)
      && (if field.value[|field.value| - 2..] == "cm" then 150 <= HeightNumber(field.value) <= 193
          else 59 <= HeightNumber(field.value) <= 76))
  {
    match field
    case None => Some(FieldIsNone("hgt"))
    case Some(s) =>
      if !HeightShaped(s) then Some(FieldDoesNotMatchRegex("hgt"))
      else if s[|s| - 2..] == "cm" then
        if !(150 <= HeightNumber(s) <= 193) then Some(HeightCmIsNotInRange) else None
      else
        if !(59 <= HeightNumber(s) <= 76) then Some(HeightInIsNotInRange) else None
  }

  function CheckPattern(field: Option<string>, name: string, matches: string -> bool): (r: Option<ValidationError>)
    ensures r.None? <==> field.Some? && matches(field.value)
  {
    match field
    case None => Some(FieldIsNone(name))
    case Some(s) => if matches(s) then None else Some(FieldDoesNotMatchRegex(name))
  }

  /** The seven checks in the order `validate_complex` performs them. */
  function Checks(p: Passport): (cs: seq<Option<ValidationError>>)
    ensures |cs| == 7
  {
    [ CheckYear(p.byr, "byr", 1920, 2002),
      CheckYear(p.iyr, "iyr", 2010, 2020),
      CheckYear(p.eyr, "eyr", 2020, 2030),
      CheckHeight(p.hgt),
      CheckPattern(p.hcl, "hcl", HairColour),
      CheckPattern(p.ecl, "ecl", EyeColour),
      CheckPattern(p.pid, "pid", PassportId) ]
  }

  /** The first failing check, if any. */
  function FirstFailure(cs: seq<Option<ValidationError>>): (r: ValidationResult)
    ensures r == Valid <==> forall k | 0 <= k < |cs| :: cs[k].None?
    ensures r.Invalid? ==> exists k | 0 <= k < |cs| :: cs[k] == Some(r.error) && forall m | 0 <= m < k :: cs[m].None?
  {
    if |cs| == 0 then Valid
    else if cs[0].Some? then Invalid(cs[0].value)
    else
      var r := FirstFailure(cs[1..]);
      assert forall k | 1 <= k < |cs| :: cs[1..][k - 1] == cs[k];
      if r.Invalid? then
        var k :| 0 <= k < |cs[1..]| && cs[1..][k] == Some(r.error) && forall m | 0 <= m < k :: cs[1..][m].None?;
        assert cs[k + 1] == Some(r.error) && forall m | 0 <= m < k + 1 :: cs[m].None?;
        r
      else r
  }

  /** `validate_complex` (main.rs:69-170). The height number is parsed as an
      `i32` whose `unwrap` aborts beyond its range; that case is excluded. */
  function ValidateComplex(p: Passport): (r: ValidationResult)
    requires HeightFits(p)
    ensures r == Valid <==> FieldsValid(p)
    ensures r.Invalid? ==> exists k | 0 <= k < 7 :: Checks(p)[k] == Some(r.error) && forall m | 0 <= m < k :: Checks(p)[m].None?
  {
    var cs := Checks(p);
    assert cs[0] == CheckYear(p.byr, "byr", 1920, 2002) && cs[1] == CheckYear(p.iyr, "iyr", 2010, 2020);
    assert cs[2] == CheckYear(p.eyr, "eyr", 2020, 2030) && cs[3] == CheckHeight(p.hgt);
    assert cs[4] == CheckPattern(p.hcl, "hcl", HairColour) && cs[5] == CheckPattern(p.ecl, "ecl", EyeColour);
    assert cs[6] == CheckPattern(p.pid, "pid", PassportId);
    FirstFailure(cs)
  }

  /** Every required field is present and well formed: the declarative reading
      of the seven checks. */
  predicate FieldsValid(p: Passport)
  {
    && p.byr.Some? && FourDigits(p.byr.value) && 1920 <= DigitsValue(p.byr.value) <= 2002
    && p.iyr.Some? && FourDigits(p.iyr.value) && 2010 <= DigitsValue(p.iyr.value) <= 2020
    && p.eyr.Some? && FourDigits(p.eyr.value) && 2020 <= DigitsValue(p.eyr.value) <= 2030
    && p.hgt.Some? && HeightShaped(p.hgt.value)
    && (if p.hgt.value[|p.hgt.value| - 2..] == "cm" then 150 <= HeightNumber(p.hgt.value) <= 193
        else 59 <= HeightNumber(p.hgt.value) <= 76)
    && p.hcl.Some? && HairColour(p.hcl.value)
    && p.ecl.Some? && EyeColour(p.ecl.value)
    && p.pid.Some? && PassportId(p.pid.value)
  }

  /** `is_valid_complex` (main.rs:172-174). */
  predicate IsValidComplex(p: Passport)
    requires HeightFits(p)
  {
    ValidateComplex(p) == Valid
  }

  /** Complex validity implies simple validity: a missing field is reported
      as `FieldIsNone`. */
  lemma ComplexImpliesSimple(p: Passport)
    requires HeightFits(p) && IsValidComplex(p)
    ensures IsValidSimple(p)
  {
  }

  /** A missing field is reported by name unless an earlier field fails. */
  lemma MissingFieldReported(p: Passport)
    requires HeightFits(p) && p.byr.Some? && p.iyr.None?
    requires FourDigits(p.byr.value) && 1920 <= DigitsValue(p.byr.value) <= 2002
    ensures ValidateComplex(p) == Invalid(FieldIsNone("iyr"))
  {
    assert Checks(p)[0].None? && Checks(p)[1] == Some(FieldIsNone("iyr"));
  }

  /** The first check decides whenever it fails: `byr` is examined before
      everything else. */
  lemma BirthYearFirst(p: Passport)
    requires HeightFits(p) && CheckYear(p.byr, "byr", 1920, 2002).Some?
    ensures ValidateComplex(p) == Invalid(CheckYear(p.byr, "byr", 1920, 2002).value)
  {
  }

  /** A height in centimetres out of range gives `HeightCmIsNotInRange` when
      the three year fields pass. */
  lemma HeightCmOutOfRange(p: Passport)
    requires HeightFits(p)
    requires Checks(p)[0].None? && Checks(p)[1].None? && Checks(p)[2].None?
    requires p.hgt == Some("149cm")
    ensures ValidateComplex(p) == Invalid(HeightCmIsNotInRange)
  {
    var h := "149cm";
    assert h[..3] == "149" && h[3..] == "cm";
    assert DigitsValue("149") == 149 by {
      assert "149"[..2] == "14" && "14"[..1] == "1" && "1"[..0] == "";
    }
    assert Checks(p)[3] == Some(HeightCmIsNotInRange);
  }

  /** The number of passports with every required field: the size of the
      set of their positions. */
  function CountSimple(ps: seq<Passport>): (n: nat)
    ensures n <= |ps|
    ensures n == |set k | 0 <= k < |ps| && IsValidSimple(ps[k])|
  {
    if |ps| == 0 then 0
    else
      var last := |ps| - 1;
      var init := ps[..last];
      assert (set k | 0 <= k < |ps| && IsValidSimple(ps[k]))
          == (set k | 0 <= k < |init| && IsValidSimple(init[k])) + if IsValidSimple(ps[last]) then {last} else {};
      CountSimple(init) + if IsValidSimple(ps[last]) then 1 else 0
  }

  /** The number of passports whose every field is valid. */
  function CountComplex(ps: seq<Passport>): (n: nat)
    requires forall k | 0 <= k < |ps| :: HeightFits(ps[k])
    ensures n <= |ps|
  {
    if |ps| == 0 then 0
    else CountComplex(ps[..|ps| - 1]) + if IsValidComplex(ps[|ps| - 1]) then 1 else 0
  }

  /** The complex count is the size of the set of positions of the passports
      whose every field is valid. */
  lemma {:induction false} CountComplexPositions(ps: seq<Passport>)
    requires forall k | 0 <= k < |ps| :: HeightFits(ps[k])
    ensures CountComplex(ps) == |set k | 0 <= k < |ps| && IsValidComplex(ps[k])|
  {
    if |ps| > 0 {
      var last := |ps| - 1;
      var init := ps[..last];
      CountComplexPositions(init);
      ComplexPositionsSplit(ps);
      SnocPositionsCard((set k | 0 <= k < |ps| && IsValidComplex(ps[k])),
                        (set k | 0 <= k < |init| && IsValidComplex(init[k])), last, IsValidComplex(ps[last]));
    }
  }

  lemma ComplexPositionsSplit(ps: seq<Passport>)
    requires |ps| > 0 && forall k | 0 <= k < |ps| :: HeightFits(ps[k])
    ensures var init := ps[..|ps| - 1];
      (set k | 0 <= k < |ps| && IsValidComplex(ps[k]))
      == (set k | 0 <= k < |init| && IsValidComplex(init[k])) + if IsValidComplex(ps[|ps| - 1]) then {|ps| - 1} else {}
  {
  }

  /** No more passports pass the complex validation than the simple one. */
  lemma {:induction false} ComplexCountBounded(ps: seq<Passport>)
    requires forall k | 0 <= k < |ps| :: HeightFits(ps[k])
    ensures CountComplex(ps) <= CountSimple(ps)
  {
    if |ps| > 0 {
      ComplexCountBounded(ps[..|ps| - 1]);
      if IsValidComplex(ps[|ps| - 1]) {
        ComplexImpliesSimple(ps[|ps| - 1]);
      }
    }
  }

  // ---------------------------------------------------------------------------
  // Reading passports (the record loop of `main`, main.rs:181-216)

  datatype FormatError = BadPair(item: string) | BadKey(key: string)

  predicate KnownKey(key: string) { key in {"byr", "iyr", "eyr", "hgt", "hcl", "ecl", "pid", "cid"} }

  /** An item that stops reading: no `:`, or a key outside the eight. */
  predicate BadItem(item: string)
  {
    match SplitOnce(item, ':')
    case None => true
    case Some(kv) => !KnownKey(kv.0)
  }

  function SetField(p: Passport, key: string, value: string): (r: Result<Passport, FormatError>)
    ensures r.Ok? <==> KnownKey(key)
  {
    match key
    case "byr" => Ok(p.(byr := Some(value)))
    case "iyr" => Ok(p.(iyr := Some(value)))
    case "eyr" => Ok(p.(eyr := Some(value)))
    case "hgt" => Ok(p.(hgt := Some(value)))
    case "hcl" => Ok(p.(hcl := Some(value)))
    case "ecl" => Ok(p.(ecl := Some(value)))
    case "pid" => Ok(p.(pid := Some(value)))
    case "cid" => Ok(p.(cid := Some(value)))
    case _ => Err(BadKey(key))
  }

  function ApplyItem(p: Passport, item: string): (r: Result<Passport, FormatError>)
    ensures r.Err? <==> BadItem(item)
  {
    match SplitOnce(item, ':')
    case None => Err(BadPair(item))
    case Some(kv) => SetField(p, kv.0, kv.1)
  }

  /** The items applied left to right; the first bad item stops reading. */
  function ApplyItems(p: Passport, items: seq<string>): Result<Passport, FormatError>
  {
    if |items| == 0 then Ok(p)
    else
      match ApplyItems(p, items[..|items| - 1])
      case Err(e) => Err(e)
      case Ok(q) => ApplyItem(q, items[|items| - 1])
  }

  /** Reading fails exactly when some item is bad. */
  lemma {:induction false} ApplyItemsFails(p: Passport, items: seq<string>)
    ensures ApplyItems(p, items).Err? <==> exists k | 0 <= k < |items| :: BadItem(items[k])
  {
    if |items| > 0 {
      ApplyItemsFails(p, items[..|items| - 1]);
      ApplyItemsSnoc(p, items);
      BadItemSnoc(items);
    }
  }

  lemma ApplyItemsSnoc(p: Passport, items: seq<string>)
    requires |items| > 0
    ensures ApplyItems(p, items).Err? <==> ApplyItems(p, items[..|items| - 1]).Err? || BadItem(items[|items| - 1])
  {
  }

  lemma BadItemSnoc(items: seq<string>)
    requires |items| > 0
    ensures var init := items[..|items| - 1];
      (exists k | 0 <= k < |items| :: BadItem(items[k]))
      <==> (exists k | 0 <= k < |init| :: BadItem(init[k])) || BadItem(items[|items| - 1])
  {
    var init := items[..|items| - 1];
    if exists k | 0 <= k < |items| :: BadItem(items[k]) {
      var k :| 0 <= k < |items| && BadItem(items[k]);
      if k < |init| {
        assert init[k] == items[k];
      }
    }
    if exists k | 0 <= k < |init| :: BadItem(init[k]) {
      var k :| 0 <= k < |init| && BadItem(init[k]);
      assert items[k] == init[k];
    }
  }

  /** The first bad item of `items`, at position `k`. */
  predicate FirstBad(items: seq<string>, k: int)
  {
    0 <= k < |items| && BadItem(items[k]) && forall m | 0 <= m < k :: !BadItem(items[m])
  }

  /** A failed reading reports the first bad item, whatever the passport. */
  lemma {:induction false} ApplyItemsFirstBad(p: Passport, items: seq<string>)
    requires ApplyItems(p, items).Err?
    ensures exists k :: FirstBad(items, k) && ApplyItems(p, items).error == ApplyItem(Blank, items[k]).error
  {
    var init := items[..|items| - 1];
    if ApplyItems(p, init).Err? {
      ApplyItemsFirstBad(p, init);
      var k :| FirstBad(init, k) && ApplyItems(p, init).error == ApplyItem(Blank, init[k]).error;
      assert forall m | 0 <= m <= k :: init[m] == items[m];
      assert FirstBad(items, k);
    } else {
      ApplyItemsFails(p, init);
      assert forall m | 0 <= m < |init| :: init[m] == items[m];
      assert FirstBad(items, |items| - 1);
    }
  }

  /** A repeated key keeps the value of its last occurrence. */
  lemma RepeatedKeyOverwrites(p: Passport, v1: string, v2: string)
    ensures ApplyItems(p, ["byr:" + v1, "byr:" + v2]) == Ok(p.(byr := Some(v2)))
  {
    var a, b := "byr:" + v1, "byr:" + v2;
    assert SplitOnce(a, ':') == Some(("byr", v1)) by {
      CountUntilPrefix("byr", ":" + v1, ':');
      assert a == "byr" + (":" + v1);
    }
    assert SplitOnce(b, ':') == Some(("byr", v2)) by {
      CountUntilPrefix("byr", ":" + v2, ':');
      assert b == "byr" + (":" + v2);
    }
    assert [a, b][..1] == [a] && [a][..0] == [];
    assert ApplyItems(p, [a]) == Ok(p.(byr := Some(v1)));
  }

  /** The state after some lines: the passports already closed and the one
      still being filled, if any. */
  datatype Reading = Reading(done: seq<Passport>, open: Option<Passport>)

  /** The loop of `main` over the lines read so far. */
  /** One line of the record loop: a blank line closes the open passport, any
      other line applies its items to it (to a blank one when none is open). */
  function LineStep(st: Reading, line: string): Result<Reading, FormatError>
  {
    if line == "" then
      if st.open.Some? then Ok(Reading(st.done + [st.open.value], None)) else Ok(st)
    else
      var start := if st.open.Some? then st.open.value else Blank;
      match ApplyItems(start, Words(line))
      case Err(e) => Err(e)
      case Ok(p) => Ok(Reading(st.done, Some(p)))
  }

  function ReadLines(lines: seq<string>): Result<Reading, FormatError>
  {
    if |lines| == 0 then Ok(Reading([], None))
    else
      match ReadLines(lines[..|lines| - 1])
      case Err(e) => Err(e)
      case Ok(st) => LineStep(st, lines[|lines| - 1])
  }

  lemma ReadLinesNext(lines: seq<string>, i: nat, st: Reading)
    requires i < |lines| && ReadLines(lines[..i]) == Ok(st)
    ensures ReadLines(lines[..i + 1]) == LineStep(st, lines[i])
  {
    assert lines[..i + 1][..i] == lines[..i];
  }

  /** All passports of the input, the last one pushed after the loop. */
  function Passports(lines: seq<string>): Result<seq<Passport>, FormatError>
  {
    match ReadLines(lines)
    case Err(e) => Err(e)
    case Ok(st) => Ok(st.done + if st.open.Some? then [st.open.value] else [])
  }

  /** The inner loop over the items of one line. */
  method ApplyLine(start: Passport, line: string) returns (r: Result<Passport, FormatError>)
    ensures r == ApplyItems(start, Words(line))
  {
    var items := Words(line);
    var passport := start;
    var j := 0;
    while j < |items|
      invariant j <= |items|
      invariant ApplyItems(start, items[..j]) == Ok(passport)
    {
      assert items[..j + 1][..j] == items[..j];
      var kv := SplitOnce(items[j], ':');
      if kv.None? {
        assert items[..j + 1] + items[j + 1..] == items;
        ApplyItemsStops(start, items[..j + 1], items[j + 1..]);
        return Err(BadPair(items[j]));
      }
      var updated := SetField(passport, kv.value.0, kv.value.1);
      if updated.Err? {
        assert items[..j + 1] + items[j + 1..] == items;
        ApplyItemsStops(start, items[..j + 1], items[j + 1..]);
        return Err(updated.error);
      }
      passport := updated.value;
      j := j + 1;
    }
    assert items[..j] == items;
    return Ok(passport);
  }

  /** The record loop of `main`. */
  method ReadPassports(lines: seq<string>) returns (r: Result<seq<Passport>, FormatError>)
    ensures r == Passports(lines)
  {
    var passports: seq<Passport> := [];
    var temp: Option<Passport> := None;
    var i := 0;
    while i < |lines|
      invariant i <= |lines|
      invariant ReadLines(lines[..i]) == Ok(Reading(passports, temp))
    {
      ReadLinesNext(lines, i, Reading(passports, temp));
      var next := ReadLine(Reading(passports, temp), lines[i]);
      if next.Err? {
        ReadLinesStops(lines, i + 1, next.error);
        return Err(next.error);
      }
      passports, temp := next.value.done, next.value.open;
      i := i + 1;
    }
    assert lines[..i] == lines;
    if temp.Some? {
      passports := passports + [temp.value];
    } else {
      assert passports + [] == passports;
    }
    return Ok(passports);
  }

  /** One turn of the record loop: a blank line pushes the open passport,
      any other line fills it in. */
  method ReadLine(st: Reading, line: string) returns (r: Result<Reading, FormatError>)
    ensures r == LineStep(st, line)
  {
    var passports, temp := st.done, st.open;
    if line == "" {
      if temp.Some? {
        passports := passports + [temp.value];
        temp := None;
      }
    } else {
      var filled := ApplyLine(if temp.Some? then temp.value else Blank, line);
      if filled.Err? {
        return Err(filled.error);
      }
      temp := Some(filled.value);
    }
    return Ok(Reading(passports, temp));
  }

  /** Once reading has failed, more items do not change the failure. */
  lemma {:induction false} ApplyItemsStops(p: Passport, items: seq<string>, more: seq<string>)
    requires ApplyItems(p, items).Err?
    ensures ApplyItems(p, items + more) == ApplyItems(p, items)
    decreases |more|
  {
    if |more| > 0 {
      ApplyItemsStops(p, items, more[..|more| - 1]);
      assert (items + more)[..|items + more| - 1] == items + more[..|more| - 1];
    } else {
      assert items + more == items;
    }
  }

  /** Once a line has failed, later lines do not change the failure. */
  lemma {:induction false} ReadLinesStops(lines: seq<string>, n: nat, e: FormatError)
    requires n <= |lines| && ReadLines(lines[..n]) == Err(e)
    ensures ReadLines(lines) == Err(e) && Passports(lines) == Err(e)
    decreases |lines|
  {
    if n < |lines| {
      var init := lines[..|lines| - 1];
      assert init[..n] == lines[..n];
      ReadLinesStops(init, n, e);
    } else {
      assert lines[..n] == lines;
    }
  }

  // ---------------------------------------------------------------------------
  // The records are the paragraphs of the input

  /** All items of a paragraph, line after line. */
  function ParagraphItems(para: seq<string>): seq<string>
  {
    if |para| == 0 then [] else ParagraphItems(para[..|para| - 1]) + Words(para[|para| - 1])
  }

  lemma {:induction false} ApplyItemsAppend(p: Passport, a: seq<string>, b: seq<string>)
    ensures ApplyItems(p, a + b) == match ApplyItems(p, a) { case Err(e) => Err(e) case Ok(q) => ApplyItems(q, b) }
    decreases |b|
  {
    if |b| == 0 {
      assert a + b == a;
    } else {
      ApplyItemsAppend(p, a, b[..|b| - 1]);
      assert (a + b)[..|a + b| - 1] == a + b[..|b| - 1];
    }
  }

  /** The reading state after `lines` holds one passport per closed paragraph,
      and the open paragraph's passport when the last line is not blank. */
  predicate ReadsParagraphs(lines: seq<string>, st: Reading)
  {
    Reads(Paragraphs(lines), Open(lines), st)
  }

  /** `st` holds one passport per paragraph of `ps`, the last one still open
      exactly when `open`. */
  predicate Reads(ps: seq<seq<string>>, open: bool, st: Reading)
  {
    && (st.open.Some? <==> open)
    && |st.done| == |ps| - (if open then 1 else 0)
    && (forall k | 0 <= k < |st.done| :: ApplyItems(Blank, ParagraphItems(ps[k])) == Ok(st.done[k]))
    && (st.open.Some? ==> |ps| > 0 && ApplyItems(Blank, ParagraphItems(ps[|ps| - 1])) == Ok(st.open.value))
  }

  lemma {:induction false} ReadLinesParagraphs(lines: seq<string>)
    requires ReadLines(lines).Ok?
    ensures ReadsParagraphs(lines, ReadLines(lines).value)
  {
    if |lines| > 0 {
      var init := lines[..|lines| - 1];
      var line := lines[|lines| - 1];
      ReadLinesParagraphs(init);
      var ps := Paragraphs(init);
      var st := ReadLines(init).value;
      if line == "" {
        assert Paragraphs(lines) == ps;
        BlankLineStep(ps, Open(init), st);
      } else if Open(init) {
        assert Paragraphs(lines) == ps[..|ps| - 1] + [ps[|ps| - 1] + [line]];
        ContinueStep(ps, st, line);
      } else {
        assert Paragraphs(lines) == ps + [[line]];
        StartStep(ps, st, line);
      }
    }
  }

  /** A blank line closes the open passport, if any. */
  lemma BlankLineStep(ps: seq<seq<string>>, open: bool, st: Reading)
    requires Reads(ps, open, st)
    ensures LineStep(st, "").Ok? && Reads(ps, false, LineStep(st, "").value)
  {
    if st.open.Some? {
      var done := st.done + [st.open.value];
      assert forall k | 0 <= k < |st.done| :: done[k] == st.done[k];
    }
  }

  /** A further line of the open paragraph applies its items to the open
      passport. */
  lemma ContinueStep(ps: seq<seq<string>>, st: Reading, line: string)
    requires line != "" && Reads(ps, true, st) && LineStep(st, line).Ok?
    ensures Reads(ps[..|ps| - 1] + [ps[|ps| - 1] + [line]], true, LineStep(st, line).value)
  {
    var last := ps[|ps| - 1];
    assert (last + [line])[..|last|] == last;
    assert ParagraphItems(last + [line]) == ParagraphItems(last) + Words(line);
    ApplyItemsAppend(Blank, ParagraphItems(last), Words(line));
  }

  /** The first line of a paragraph applies its items to a blank passport. */
  lemma StartStep(ps: seq<seq<string>>, st: Reading, line: string)
    requires line != "" && Reads(ps, false, st) && LineStep(st, line).Ok?
    ensures Reads(ps + [[line]], true, LineStep(st, line).value)
  {
    assert [line][..0] == [];
    assert ParagraphItems([line]) == Words(line);
  }

  /** The passports read are those of the paragraphs of the input, in order:
      one passport per maximal block of non-blank lines, built from that
      block's items. */
  lemma PassportsAreParagraphs(lines: seq<string>)
    requires Passports(lines).Ok?
    ensures |Passports(lines).value| == |Paragraphs(lines)|
    ensures forall k | 0 <= k < |Paragraphs(lines)| ::
      ApplyItems(Blank, ParagraphItems(Paragraphs(lines)[k])) == Ok(Passports(lines).value[k])
  {
    ReadLinesParagraphs(lines);
  }

  /** Some line of `lines` holds a bad item. */
  predicate HasBadItem(lines: seq<string>)
  {
    exists k, m | 0 <= k < |lines| && 0 <= m < |Words(lines[k])| :: BadItem(Words(lines[k])[m])
  }

  predicate LineHasBadItem(line: string)
  {
    exists m | 0 <= m < |Words(line)| :: BadItem(Words(line)[m])
  }

  lemma HasBadItemSnoc(lines: seq<string>)
    requires |lines| > 0
    ensures HasBadItem(lines) <==> HasBadItem(lines[..|lines| - 1]) || LineHasBadItem(lines[|lines| - 1])
  {
    var init := lines[..|lines| - 1];
    assert forall k | 0 <= k < |init| :: init[k] == lines[k];
    if HasBadItem(lines) {
      var k, m :| 0 <= k < |lines| && 0 <= m < |Words(lines[k])| && BadItem(Words(lines[k])[m]);
      if k < |init| {
        assert init[k] == lines[k];
      }
    }
    if HasBadItem(init) {
      var k, m :| 0 <= k < |init| && 0 <= m < |Words(init[k])| && BadItem(Words(init[k])[m]);
      assert lines[k] == init[k];
    }
  }

  /** Reading fails exactly when some line holds a bad item. */
  lemma {:induction false} ReadFailsOnBadItem(lines: seq<string>)
    ensures Passports(lines).Err? <==> HasBadItem(lines)
  {
    if |lines| > 0 {
      var init := lines[..|lines| - 1];
      var line := lines[|lines| - 1];
      ReadFailsOnBadItem(init);
      HasBadItemSnoc(lines);
      if ReadLines(init).Ok? && line != "" {
        var st := ReadLines(init).value;
        ApplyItemsFails(if st.open.Some? then st.open.value else Blank, Words(line));
      }
      if line == "" {
        assert Words(line) == [];
      }
    }
  }
}
