/** Day 16: ticket translation. Field rules are pairs of inclusive ranges;
    part one sums the nearby-ticket values no range admits, part two deduces
    which position of the tickets each field occupies. */
module Day16 {
  import opened Common

  /** `2^32`: values are `u32`. */
  const U32Limit: nat := 0x1_0000_0000

  /** A field and its two ranges `min1..=max1`, `min2..=max2`. */
  datatype Rule = Rule(field: string, min1: nat, max1: nat, min2: nat, max2: nat)

  /** `Rule::contains` (main.rs:20-23). */
  predicate Contains(r: Rule, v: nat)
  {
    (r.min1 <= v <= r.max1) || (r.min2 <= v <= r.max2)
  }

  // ---------------------------------------------------------------------------
  // Parsing

  /** `str::parse::<u32>()`. */
  function ParseU32(s: string): (r: Option<nat>)
    ensures r.Some? ==> r.value < U32Limit
  {
    ParseUnsigned(s, U32Limit)
  }

  lemma ParseU32Decimal(n: nat)
    requires n < U32Limit
    ensures ParseU32(Decimal(n)) == Some(n)
  {
    ParseUnsignedDecimal(n, U32Limit);
  }

  predicate FieldChar(c: char) { IsWordChar(c) || IsSpace(c) }

  /** The field name of the pattern `[\w\s]+`. */
  predicate FieldName(s: string) { |s| > 0 && forall k | 0 <= k < |s| :: FieldChar(s[k]) }

  datatype RuleError = NoMatch | OutOfRange

  /** The five captures of `^([\w\s]+): (\d+)-(\d+) or (\d+)-(\d+)$`. */
  function RuleShape(s: string): Option<(string, string, string, string, string)>
  {
    match SplitOnce(s, ':')
    case None => None
    case Some((field, rest)) =>
      if !FieldName(field) || |rest| == 0 || rest[0] != ' ' then None
      else
        match DigitsThen(rest[1..], "-")
        case None => None
        case Some((d1, r1)) =>
          match DigitsThen(r1, " or ")
          case None => None
          case Some((d2, r2)) =>
            match DigitsThen(r2, "-")
            case None => None
            case Some((d3, d4)) =>
              if |d4| > 0 && AllDigits(d4) then Some((field, d1, d2, d3, d4)) else None
  }

  /** `Rule::from_str` (main.rs:29-44): a line that does not have the shape is
      `NoMatch`; a bound beyond `u32` fails its `parse`. */
  function ParseRule(s: string): (r: Result<Rule, RuleError>)
    ensures r.Ok? ==> FieldName(r.value.field)
    ensures r.Ok? ==> r.value.min1 < U32Limit && r.value.max1 < U32Limit && r.value.min2 < U32Limit && r.value.max2 < U32Limit
  {
    match RuleShape(s)
    case None => Err(NoMatch)
    case Some((field, d1, d2, d3, d4)) =>
      match (ParseU32(d1), ParseU32(d2), ParseU32(d3), ParseU32(d4))
      case (Some(a), Some(b), Some(c), Some(d)) => Ok(Rule(field, a, b, c, d))
      case _ => Err(OutOfRange)
  }

  /** The rule as the input writes it. */
  function RenderRule(r: Rule): string
  {
    r.field + ": " + (Decimal(r.min1) + "-" + (Decimal(r.max1) + " or " + (Decimal(r.min2) + "-" + Decimal(r.max2))))
  }

  lemma RuleShapeOf(field: string, d1: string, d2: string, d3: string, d4: string)
    requires FieldName(field)
    requires |d1| > 0 && AllDigits(d1) && |d2| > 0 && AllDigits(d2)
    requires |d3| > 0 && AllDigits(d3) && |d4| > 0 && AllDigits(d4)
    ensures RuleShape(field + ": " + (d1 + "-" + (d2 + " or " + (d3 + "-" + d4))))
         == Some((field, d1, d2, d3, d4))
  {
    var t2 := d3 + "-" + d4;
    var t1 := d2 + " or " + t2;
    var t0 := d1 + "-" + t1;
    assert field + ": " + t0 == field + [':'] + (" " + t0);
    assert ':' !in field;
    SplitOnceOf(field, " " + t0, ':');
    assert (" " + t0)[1..] == t0;
    DigitsThenOf(d1, "-", t1);
    DigitsThenOf(d2, " or ", t2);
    DigitsThenOf(d3, "-", d4);
  }

  /** `s` is a rule line `f: d1-d2 or d3-d4`: a field name and four
      non-empty digit runs. */
  predicate RuleText(s: string, f: string, d1: string, d2: string, d3: string, d4: string)
  {
    && FieldName(f)
    && |d1| > 0 && AllDigits(d1) && |d2| > 0 && AllDigits(d2)
    && |d3| > 0 && AllDigits(d3) && |d4| > 0 && AllDigits(d4)
    && s == f + ": " + (d1 + "-" + (d2 + " or " + (d3 + "-" + d4)))
  }

  /** The captures of a matched line spell it out: the regex accepts only
      text of the rule shape. */
  lemma RuleShapeParts(s: string)
    requires RuleShape(s).Some?
    ensures var (f, d1, d2, d3, d4) := RuleShape(s).value; RuleText(s, f, d1, d2, d3, d4)
  {
    var (field, rest) := SplitOnce(s, ':').value;
    var (d1, r1) := DigitsThen(rest[1..], "-").value;
    var (d2, r2) := DigitsThen(r1, " or ").value;
    var (d3, d4) := DigitsThen(r2, "-").value;
    assert RuleShape(s) == Some((field, d1, d2, d3, d4));
    RuleTextJoin(s, field, rest, d1, r1, d2, r2, d3, d4);
  }

  lemma RuleTextJoin(s: string, field: string, rest: string, d1: string, r1: string,
                     d2: string, r2: string, d3: string, d4: string)
    requires s == field + [':'] + rest && |rest| > 0 && rest[0] == ' '
    requires rest[1..] == d1 + "-" + r1 && r1 == d2 + " or " + r2 && r2 == d3 + "-" + d4
    ensures s == field + ": " + (d1 + "-" + (d2 + " or " + (d3 + "-" + d4)))
  {
    assert rest == " " + rest[1..];
  }

  /** `NoMatch` (main.rs:30, 41-42) is reported exactly for the lines that
      are not of the rule shape: a line of the shape never gets it, and a
      line that does not get it has the shape its captures spell out. */
  lemma NoMatchIff(s: string, f: string, d1: string, d2: string, d3: string, d4: string)
    ensures RuleText(s, f, d1, d2, d3, d4) ==> ParseRule(s) != Err(NoMatch)
    ensures ParseRule(s) != Err(NoMatch) ==>
      RuleShape(s).Some? &&
      var (f', e1, e2, e3, e4) := RuleShape(s).value; RuleText(s, f', e1, e2, e3, e4)
  {
    if RuleText(s, f, d1, d2, d3, d4) {
      RuleShapeOf(f, d1, d2, d3, d4);
    }
    if RuleShape(s).Some? {
      RuleShapeParts(s);
    }
  }

  /** Every rule with a proper field name and 32-bit bounds reads back from
      its rendering. */
  lemma ParseRenderRule(r: Rule)
    requires FieldName(r.field)
    requires r.min1 < U32Limit && r.max1 < U32Limit && r.min2 < U32Limit && r.max2 < U32Limit
    ensures ParseRule(RenderRule(r)) == Ok(r)
  {
    RuleShapeOf(r.field, Decimal(r.min1), Decimal(r.max1), Decimal(r.min2), Decimal(r.max2));
    ParseU32Decimal(r.min1);
    ParseU32Decimal(r.max1);
    ParseU32Decimal(r.min2);
    ParseU32Decimal(r.max2);
  }

  function ParseNumbers(pieces: seq<string>): (r: Option<seq<nat>>)
    ensures r.Some? ==> |r.value| == |pieces| && forall k | 0 <= k < |pieces| :: ParseU32(pieces[k]) == Some(r.value[k])
    ensures r.None? ==> exists k | 0 <= k < |pieces| :: ParseU32(pieces[k]).None?
  {
    if |pieces| == 0 then Some([])
    else
      var init := pieces[..|pieces| - 1];
      assert forall k | 0 <= k < |init| :: init[k] == pieces[k];
      match (ParseNumbers(init), ParseU32(pieces[|pieces| - 1]))
      case (Some(ns), Some(n)) => Some(ns + [n])
      case _ => None
  }

  /** `Ticket::from_str` (main.rs:55-58): every comma-separated piece is a
      `u32`; any piece that is not makes the whole ticket an error. */
  function ParseTicket(s: string): Option<seq<nat>>
  {
    ParseNumbers(Split(s, ','))
  }

  function Decimals(ns: seq<nat>): (ds: seq<string>)
    ensures |ds| == |ns| && forall k | 0 <= k < |ns| :: ds[k] == Decimal(ns[k])
  {
    if |ns| == 0 then [] else Decimals(ns[..|ns| - 1]) + [Decimal(ns[|ns| - 1])]
  }

  lemma DecimalsArePieces(ns: seq<nat>)
    requires forall k | 0 <= k < |ns| :: ns[k] < U32Limit
    ensures forall k | 0 <= k < |ns| :: ',' !in Decimals(ns)[k] && ParseU32(Decimals(ns)[k]) == Some(ns[k])
  {
    var ds := Decimals(ns);
    forall k | 0 <= k < |ds| ensures ',' !in ds[k] && ParseU32(ds[k]) == Some(ns[k])
    {
      ParseU32Decimal(ns[k]);
      assert AllDigits(ds[k]);
    }
  }

  lemma {:induction false} ParseNumbersOf(ps: seq<string>, ns: seq<nat>)
    requires |ps| == |ns| && forall k | 0 <= k < |ps| :: ParseU32(ps[k]) == Some(ns[k])
    ensures ParseNumbers(ps) == Some(ns)
  {
    if |ps| > 0 {
      ParseNumbersOf(ps[..|ps| - 1], ns[..|ns| - 1]);
      assert ns[..|ns| - 1] + [ns[|ns| - 1]] == ns;
    }
  }

  /** A ticket: at least one value, each a `u32`. */
  predicate WellFormedTicket(t: seq<nat>) { |t| > 0 && forall k | 0 <= k < |t| :: t[k] < U32Limit }

  /** A ticket of 32-bit values reads back from its comma-separated
      rendering. */
  lemma TicketRoundTrip(ns: seq<nat>)
    requires WellFormedTicket(ns)
    ensures ParseTicket(Join(Decimals(ns), ",")) == Some(ns)
  {
    var ds := Decimals(ns);
    DecimalsArePieces(ns);
    assert "," == [','];
    SplitJoin(ds, ',');
    ParseNumbersOf(ds, ns);
  }

  /** The empty line is not a ticket: its single piece is no number. */
  lemma EmptyLineIsNoTicket()
    ensures ParseTicket("") == None
  {
    assert Split("", ',') == [""];
    assert ParseU32("") == None;
  }

  // ---------------------------------------------------------------------------
  // Part one

  /** The flat list of all ranges, two per rule (main.rs:62-65). */
  function Ranges(rules: seq<Rule>): (rs: seq<(nat, nat)>)
    ensures |rs| == 2 * |rules|
    ensures forall k | 0 <= k < |rules| :: rs[2 * k] == (rules[k].min1, rules[k].max1) && rs[2 * k + 1] == (rules[k].min2, rules[k].max2)
  {
    if |rules| == 0 then []
    else
      var r := rules[|rules| - 1];
      Ranges(rules[..|rules| - 1]) + [(r.min1, r.max1), (r.min2, r.max2)]
  }

  predicate OutsideAll(ranges: seq<(nat, nat)>, v: nat)
  {
    forall k | 0 <= k < |ranges| :: !(ranges[k].0 <= v <= ranges[k].1)
  }

  /** A value lies in no range iff no rule contains it. */
  lemma OutsideAllRules(rules: seq<Rule>, v: nat)
    ensures OutsideAll(Ranges(rules), v) <==> forall k | 0 <= k < |rules| :: !Contains(rules[k], v)
  {
    var rs := Ranges(rules);
    if OutsideAll(rs, v) {
      forall k | 0 <= k < |rules| ensures !Contains(rules[k], v)
      {
        assert !(rs[2 * k].0 <= v <= rs[2 * k].1);
        assert !(rs[2 * k + 1].0 <= v <= rs[2 * k + 1].1);
      }
    }
    if forall k | 0 <= k < |rules| :: !Contains(rules[k], v) {
      forall m | 0 <= m < |rs| ensures !(rs[m].0 <= v <= rs[m].1)
      {
        var k := Halve(m, |rules|);
        assert !Contains(rules[k], v);
      }
    }
  }

  /** The rule whose ranges include position `m` of the flat list. */
  lemma Halve(m: int, n: int) returns (k: int)
    requires 0 <= m < 2 * n
    ensures 0 <= k < n && (m == 2 * k || m == 2 * k + 1)
  {
    k := m / 2;
  }

  /** The sum of the values of `t` outside every range. */
  function TicketRate(ranges: seq<(nat, nat)>, t: seq<nat>): nat
  {
    if |t| == 0 then 0
    else TicketRate(ranges, t[..|t| - 1]) + if OutsideAll(ranges, t[|t| - 1]) then t[|t| - 1] else 0
  }

  /** `solve_part_one` (main.rs:61-74): the ticket scanning error rate. */
  function ErrorRate(rules: seq<Rule>, nearby: seq<seq<nat>>): nat
  {
    if |nearby| == 0 then 0
    else ErrorRate(rules, nearby[..|nearby| - 1]) + TicketRate(Ranges(rules), nearby[|nearby| - 1])
  }

  lemma {:induction false} TicketRateZero(ranges: seq<(nat, nat)>, t: seq<nat>)
    ensures TicketRate(ranges, t) == 0 <==> forall k | 0 <= k < |t| && t[k] > 0 :: !OutsideAll(ranges, t[k])
  {
    if |t| > 0 {
      var init := t[..|t| - 1];
      TicketRateZero(ranges, init);
      assert forall k | 0 <= k < |init| :: init[k] == t[k];
    }
  }

  /** The rate is zero iff every non-zero value of every nearby ticket lies in
      some rule (a stray 0 adds nothing). */
  lemma {:induction false} ErrorRateZero(rules: seq<Rule>, nearby: seq<seq<nat>>)
    ensures ErrorRate(rules, nearby) == 0 <==>
      forall t, k | 0 <= t < |nearby| && 0 <= k < |nearby[t]| && nearby[t][k] > 0 ::
        exists q | 0 <= q < |rules| :: Contains(rules[q], nearby[t][k])
  {
    if |nearby| > 0 {
      var init := nearby[..|nearby| - 1];
      var last := nearby[|nearby| - 1];
      ErrorRateZero(rules, init);
      TicketRateZero(Ranges(rules), last);
      assert forall t | 0 <= t < |init| :: init[t] == nearby[t];
      forall v: nat
        ensures !OutsideAll(Ranges(rules), v) <==> exists q | 0 <= q < |rules| :: Contains(rules[q], v)
      {
        OutsideAllRules(rules, v);
      }
    }
  }

  /** The rules of the puzzle's published example. */
  const SampleRules: seq<Rule> := [Rule("class", 1, 3, 5, 7), Rule("row", 6, 11, 33, 44), Rule("seat", 13, 40, 45, 50)]

  /** Its nearby tickets. */
  const SampleNearby: seq<seq<nat>> := [[7, 3, 47], [40, 4, 50], [55, 2, 20], [38, 6, 12]]

  lemma SampleRanges()
    ensures Ranges(SampleRules) == [(1, 3), (5, 7), (6, 11), (33, 44), (13, 40), (45, 50)]
  {
    assert SampleRules[..2][..1] == SampleRules[..1] == [Rule("class", 1, 3, 5, 7)];
    assert Ranges(SampleRules[..1]) == [(1, 3), (5, 7)];
    assert Ranges(SampleRules[..2]) == [(1, 3), (5, 7), (6, 11), (33, 44)];
  }

  /** The rate of one three-value ticket from the validity of each value. */
  lemma ThreeValueRate(rs: seq<(nat, nat)>, a: nat, b: nat, c: nat)
    ensures TicketRate(rs, [a, b, c])
         == (if OutsideAll(rs, a) then a else 0) + (if OutsideAll(rs, b) then b else 0) + (if OutsideAll(rs, c) then c else 0)
  {
    assert [a, b, c][..2] == [a, b] && [a, b][..1] == [a] && [a][..0] == [];
    assert TicketRate(rs, [a]) == if OutsideAll(rs, a) then a else 0;
    assert TicketRate(rs, [a, b]) == (if OutsideAll(rs, a) then a else 0) + (if OutsideAll(rs, b) then b else 0);
  }

  /** The example's rate is 71: the values 4, 55 and 12 lie in no range
      (main.rs:212-213). */
  /** The nearby tickets of the example with their rates, the first two. */
  lemma SampleValidRates()
    ensures TicketRate(Ranges(SampleRules), [7, 3, 47]) == 0
    ensures TicketRate(Ranges(SampleRules), [40, 4, 50]) == 4
  {
    SampleRanges();
    var rs := Ranges(SampleRules);
    ThreeValueRate(rs, 7, 3, 47);
    assert rs[1].0 <= 7 <= rs[1].1 && rs[0].0 <= 3 <= rs[0].1 && rs[5].0 <= 47 <= rs[5].1;
    ThreeValueRate(rs, 40, 4, 50);
    assert rs[3].0 <= 40 <= rs[3].1 && OutsideAll(rs, 4) && rs[5].0 <= 50 <= rs[5].1;
  }

  /** The nearby tickets of the example with their rates, the last two. */
  lemma SampleInvalidRates()
    ensures TicketRate(Ranges(SampleRules), [55, 2, 20]) == 55
    ensures TicketRate(Ranges(SampleRules), [38, 6, 12]) == 12
  {
    SampleRanges();
    var rs := Ranges(SampleRules);
    ThreeValueRate(rs, 55, 2, 20);
    assert OutsideAll(rs, 55) && rs[0].0 <= 2 <= rs[0].1 && rs[4].0 <= 20 <= rs[4].1;
    ThreeValueRate(rs, 38, 6, 12);
    assert rs[3].0 <= 38 <= rs[3].1 && rs[1].0 <= 6 <= rs[1].1 && OutsideAll(rs, 12);
  }

  lemma SampleErrorRate()
    ensures ErrorRate(SampleRules, SampleNearby) == 71
  {
    SampleValidRates();
    SampleInvalidRates();
    var n: seq<seq<nat>> := SampleNearby;
    assert ErrorRate(SampleRules, n[..3][..2][..1]) == 0;
    assert ErrorRate(SampleRules, n[..3][..2]) == 4;
    assert ErrorRate(SampleRules, n[..3]) == 59;
  }

  // ---------------------------------------------------------------------------
  // Part two

  /** Every value of `t` lies in some rule. */
  predicate AllValuesValid(rules: seq<Rule>, t: seq<nat>)
  {
    forall k | 0 <= k < |t| :: exists q | 0 <= q < |rules| :: Contains(rules[q], t[k])
  }

  /** The tickets of part two (main.rs:126-134): the nearby tickets whose
      every value lies in some rule, in order, then my own ticket. */
  function ValidTickets(rules: seq<Rule>, mine: seq<nat>, nearby: seq<seq<nat>>): (ts: seq<seq<nat>>)
    ensures |ts| > 0 && ts[|ts| - 1] == mine
    ensures forall k | 0 <= k < |ts| - 1 :: ts[k] in nearby && AllValuesValid(rules, ts[k])
    ensures forall t | t in nearby && AllValuesValid(rules, t) :: t in ts[..|ts| - 1]
  {
    if |nearby| == 0 then [mine]
    else
      var init := nearby[..|nearby| - 1];
      var last := nearby[|nearby| - 1];
      var ts := ValidTickets(rules, mine, init);
      assert forall t | t in nearby :: t in init || t == last;
      if AllValuesValid(rules, last) then
        var ts' := ts[..|ts| - 1] + [last, mine];
        assert ts'[..|ts'| - 1] == ts[..|ts| - 1] + [last];
        ts'
      else ts
  }

  /** The filter of `find_field_values` (main.rs:98-102): position `i` is
      possible for `rule` when every ticket's value there lies in the rule
      and the position is not used yet. With no tickets at all, every
      position passes, used or not. */
  predicate Fits(rule: Rule, tickets: seq<seq<nat>>, used: set<nat>, i: nat)
    requires forall t | 0 <= t < |tickets| :: i < |tickets[t]|
  {
    forall t | 0 <= t < |tickets| :: Contains(rule, tickets[t][i]) && i !in used
  }

  /** The possible positions below `n`, in increasing order. */
  function Candidates(rule: Rule, tickets: seq<seq<nat>>, used: set<nat>, n: nat): (ps: seq<nat>)
    requires forall t | 0 <= t < |tickets| :: n <= |tickets[t]|
    ensures forall k | 0 <= k < |ps| :: ps[k] < n && Fits(rule, tickets, used, ps[k])
    ensures forall i | 0 <= i < n && Fits(rule, tickets, used, i) :: i in ps
    ensures forall k, m | 0 <= k < m < |ps| :: ps[k] < ps[m]
  {
    if n == 0 then []
    else Candidates(rule, tickets, used, n - 1) + if Fits(rule, tickets, used, n - 1) then [n - 1] else []
  }

  /** A single candidate is the only position that fits. */
  lemma SingleCandidate(rule: Rule, tickets: seq<seq<nat>>, used: set<nat>, n: nat)
    requires forall t | 0 <= t < |tickets| :: n <= |tickets[t]|
    requires |Candidates(rule, tickets, used, n)| == 1
    ensures forall i | 0 <= i < n && Fits(rule, tickets, used, i) :: i == Candidates(rule, tickets, used, n)[0]
  {
  }

  /** The state of the deduction: each assigned field records my ticket's
      value at its position; positions lie within my ticket, every ticket's
      value there lies in the field's rule, and (when there is a ticket to
      look at) no two fields share a position. */
  predicate Assigned(fieldValue: map<Rule, nat>, positions: map<Rule, nat>, rules: seq<Rule>, tickets: seq<seq<nat>>, values: seq<nat>)
    requires forall t | 0 <= t < |tickets| :: |values| <= |tickets[t]|
  {
    && fieldValue.Keys == positions.Keys
    && (forall r | r in fieldValue :: r in rules)
    && (forall r | r in positions ::
         && positions[r] < |values| && fieldValue[r] == values[positions[r]]
         && forall t | 0 <= t < |tickets| :: Contains(r, tickets[t][positions[r]]))
    && (|tickets| > 0 ==> forall r1, r2 | r1 in positions && r2 in positions && r1 != r2 :: positions[r1] != positions[r2])
  }

  function UsedPositions(positions: map<Rule, nat>): set<nat>
  {
    set r | r in positions :: positions[r]
  }

  /** Recording a candidate position for an unassigned rule keeps the
      deduction state consistent. */
  lemma AssignStep(fieldValue: map<Rule, nat>, positions: map<Rule, nat>, rules: seq<Rule>, tickets: seq<seq<nat>>, values: seq<nat>, rule: Rule, position: nat)
    requires forall t | 0 <= t < |tickets| :: |values| <= |tickets[t]|
    requires Assigned(fieldValue, positions, rules, tickets, values)
    requires rule in rules && rule !in fieldValue && position < |values|
    requires Fits(rule, tickets, UsedPositions(positions), position)
    ensures Assigned(fieldValue[rule := values[position]], positions[rule := position], rules, tickets, values)
    ensures UsedPositions(positions[rule := position]) == UsedPositions(positions) + {position}
  {
    UsedAfterAssign(positions, rule, position);
    if |tickets| > 0 {
      assert position !in UsedPositions(positions) by {
        assert Contains(rule, tickets[0][position]) && position !in UsedPositions(positions);
      }
      forall r | r in positions ensures positions[r] != position
      {
        assert positions[r] in UsedPositions(positions);
      }
    }
  }

  lemma UsedAfterAssign(positions: map<Rule, nat>, rule: Rule, position: nat)
    requires rule !in positions
    ensures UsedPositions(positions[rule := position]) == UsedPositions(positions) + {position}
  {
    var after := positions[rule := position];
    forall x | x in UsedPositions(after) ensures x in UsedPositions(positions) + {position}
    {
      var r :| r in after && after[r] == x;
      if r != rule {
        assert r in positions && positions[r] == x;
      }
    }
    forall x | x in UsedPositions(positions) + {position} ensures x in UsedPositions(after)
    {
      if x == position {
        assert rule in after && after[rule] == x;
      } else {
        var r :| r in positions && positions[r] == x;
        assert r in after && after[r] == x;
      }
    }
  }

  lemma {:induction false} DistinctElementsBound(rules: seq<Rule>)
    ensures |set r | r in rules| <= |rules|
  {
    if |rules| > 0 {
      var init := rules[..|rules| - 1];
      DistinctElementsBound(init);
      assert (set r | r in rules) == (set r | r in init) + {rules[|rules| - 1]};
    }
  }

  lemma SubsetCard(a: set<Rule>, b: set<Rule>)
    requires a <= b
    ensures |a| <= |b|
    ensures |a| == |b| ==> a == b
    decreases |b|
  {
    if a != b {
      var x :| x in b && x !in a;
      SubsetCard(a, b - {x});
    }
  }

  /** With as many fields assigned as there are rules, every rule is assigned. */
  lemma AllRulesAssigned(keys: set<Rule>, rules: seq<Rule>)
    requires forall r | r in keys :: r in rules
    requires |keys| >= |rules|
    ensures forall k | 0 <= k < |rules| :: rules[k] in keys
  {
    var all := set r | r in rules;
    DistinctElementsBound(rules);
    SubsetCard(keys, all);
  }

  /** One pass over the rules from position `q` on, as a function of the
      assigned values and the used positions: a rule not yet assigned whose
      candidates are a single position takes my ticket's value there, and
      that position is used for the rest of the pass. */
  function PassFrom(rules: seq<Rule>, tickets: seq<seq<nat>>, values: seq<nat>, q: nat,
                    fieldValue: map<Rule, nat>, used: set<nat>): (map<Rule, nat>, set<nat>)
    requires forall t | 0 <= t < |tickets| :: |values| <= |tickets[t]|
    requires q <= |rules|
    decreases |rules| - q
  {
    if q == |rules| then (fieldValue, used)
    else if rules[q] in fieldValue then PassFrom(rules, tickets, values, q + 1, fieldValue, used)
    else
      var possible := Candidates(rules[q], tickets, used, |values|);
      if |possible| == 1 then
        PassFrom(rules, tickets, values, q + 1, fieldValue[rules[q] := values[possible[0]]], used + {possible[0]})
      else PassFrom(rules, tickets, values, q + 1, fieldValue, used)
  }

  /** No unassigned rule from position `q` on has a single candidate. */
  predicate StuckFrom(rules: seq<Rule>, tickets: seq<seq<nat>>, values: seq<nat>, q: nat,
                      fieldValue: map<Rule, nat>, used: set<nat>)
    requires forall t | 0 <= t < |tickets| :: |values| <= |tickets[t]|
  {
    forall k | q <= k < |rules| && rules[k] !in fieldValue :: |Candidates(rules[k], tickets, used, |values|)| != 1
  }

  /** A pass only adds assignments, each for one of the rules. */
  lemma {:induction false} PassFromGrows(rules: seq<Rule>, tickets: seq<seq<nat>>, values: seq<nat>, q: nat,
                                         fieldValue: map<Rule, nat>, used: set<nat>)
    requires forall t | 0 <= t < |tickets| :: |values| <= |tickets[t]|
    requires q <= |rules|
    ensures var after := PassFrom(rules, tickets, values, q, fieldValue, used).0;
      && fieldValue.Keys <= after.Keys && |fieldValue| <= |after|
      && forall r | r in after :: r in fieldValue || r in rules
    decreases |rules| - q
  {
    if q < |rules| && rules[q] !in fieldValue {
      var possible := Candidates(rules[q], tickets, used, |values|);
      if |possible| == 1 {
        PassFromGrows(rules, tickets, values, q + 1, fieldValue[rules[q] := values[possible[0]]], used + {possible[0]});
      } else {
        PassFromGrows(rules, tickets, values, q + 1, fieldValue, used);
      }
    } else if q < |rules| {
      PassFromGrows(rules, tickets, values, q + 1, fieldValue, used);
    }
  }

  /** A pass assigns nothing exactly when no unassigned rule has a single
      candidate, and then it changes nothing at all. */
  lemma {:induction false} PassFromStuck(rules: seq<Rule>, tickets: seq<seq<nat>>, values: seq<nat>, q: nat,
                                         fieldValue: map<Rule, nat>, used: set<nat>)
    requires forall t | 0 <= t < |tickets| :: |values| <= |tickets[t]|
    requires q <= |rules|
    ensures |PassFrom(rules, tickets, values, q, fieldValue, used).0| == |fieldValue|
        <==> StuckFrom(rules, tickets, values, q, fieldValue, used)
    ensures StuckFrom(rules, tickets, values, q, fieldValue, used)
        ==> PassFrom(rules, tickets, values, q, fieldValue, used) == (fieldValue, used)
    decreases |rules| - q
  {
    if q < |rules| {
      if rules[q] !in fieldValue && |Candidates(rules[q], tickets, used, |values|)| == 1 {
        PassFromTakes(rules, tickets, values, q, fieldValue, used);
      } else {
        PassFromSkips(rules, tickets, values, q, fieldValue, used);
        PassFromStuck(rules, tickets, values, q + 1, fieldValue, used);
      }
    }
  }

  /** A rule at `q` with a single candidate makes the pass assign
      something, and the pass is not stuck. */
  lemma PassFromTakes(rules: seq<Rule>, tickets: seq<seq<nat>>, values: seq<nat>, q: nat,
                      fieldValue: map<Rule, nat>, used: set<nat>)
    requires forall t | 0 <= t < |tickets| :: |values| <= |tickets[t]|
    requires q < |rules| && rules[q] !in fieldValue && |Candidates(rules[q], tickets, used, |values|)| == 1
    ensures |PassFrom(rules, tickets, values, q, fieldValue, used).0| > |fieldValue|
    ensures !StuckFrom(rules, tickets, values, q, fieldValue, used)
  {
    StuckFromStep(rules, tickets, values, q, fieldValue, used);
    var p := Candidates(rules[q], tickets, used, |values|)[0];
    var fv := fieldValue[rules[q] := values[p]];
    assert PassFrom(rules, tickets, values, q, fieldValue, used) == PassFrom(rules, tickets, values, q + 1, fv, used + {p});
    assert |fv| == |fieldValue| + 1;
    PassFromGrows(rules, tickets, values, q + 1, fv, used + {p});
  }

  /** A rule at `q` that is assigned or lacks a single candidate is passed
      over, and it does not decide whether the pass is stuck. */
  lemma PassFromSkips(rules: seq<Rule>, tickets: seq<seq<nat>>, values: seq<nat>, q: nat,
                      fieldValue: map<Rule, nat>, used: set<nat>)
    requires forall t | 0 <= t < |tickets| :: |values| <= |tickets[t]|
    requires q < |rules| && (rules[q] in fieldValue || |Candidates(rules[q], tickets, used, |values|)| != 1)
    ensures PassFrom(rules, tickets, values, q, fieldValue, used) == PassFrom(rules, tickets, values, q + 1, fieldValue, used)
    ensures StuckFrom(rules, tickets, values, q, fieldValue, used) <==> StuckFrom(rules, tickets, values, q + 1, fieldValue, used)
  {
    StuckFromStep(rules, tickets, values, q, fieldValue, used);
  }

  /** Being stuck from `q` on is being stuck at `q` and from `q + 1` on. */
  lemma StuckFromStep(rules: seq<Rule>, tickets: seq<seq<nat>>, values: seq<nat>, q: nat,
                      fieldValue: map<Rule, nat>, used: set<nat>)
    requires forall t | 0 <= t < |tickets| :: |values| <= |tickets[t]|
    requires q < |rules|
    ensures StuckFrom(rules, tickets, values, q, fieldValue, used)
        <==> (rules[q] in fieldValue || |Candidates(rules[q], tickets, used, |values|)| != 1)
             && StuckFrom(rules, tickets, values, q + 1, fieldValue, used)
  {
  }

  /** One pass over the rules (the `for` loop of main.rs:89-111): each rule not
      yet assigned whose candidates are a single position takes it, and later
      rules of the same pass see it as used. */
  method Pass(rules: seq<Rule>, tickets: seq<seq<nat>>, values: seq<nat>,
              fieldValue0: map<Rule, nat>, used0: set<nat>, ghost positions0: map<Rule, nat>)
    returns (fieldValue: map<Rule, nat>, used: set<nat>, ghost positions: map<Rule, nat>, foundAny: bool)
    requires forall t | 0 <= t < |tickets| :: |values| <= |tickets[t]|
    requires Assigned(fieldValue0, positions0, rules, tickets, values) && used0 == UsedPositions(positions0)
    ensures (fieldValue, used) == PassFrom(rules, tickets, values, 0, fieldValue0, used0)
    ensures Assigned(fieldValue, positions, rules, tickets, values) && used == UsedPositions(positions)
    ensures fieldValue0.Keys <= fieldValue.Keys
    ensures foundAny <==> |fieldValue| > |fieldValue0|
  {
    fieldValue, used, positions, foundAny := fieldValue0, used0, positions0, false;
    for q := 0 to |rules|
      invariant PassFrom(rules, tickets, values, 0, fieldValue0, used0) == PassFrom(rules, tickets, values, q, fieldValue, used)
      invariant Assigned(fieldValue, positions, rules, tickets, values) && used == UsedPositions(positions)
      invariant foundAny <==> |fieldValue| > |fieldValue0|
      invariant |fieldValue| >= |fieldValue0|
    {
      var took;
      fieldValue, used, positions, took := PassTurn(rules, tickets, values, q, fieldValue, used, positions);
      foundAny := foundAny || took;
    }
    PassFromGrows(rules, tickets, values, 0, fieldValue0, used0);
  }

  /** The turn of rule `q` within a pass (the body of main.rs:89-111): an
      unassigned rule whose candidates are a single position takes it. */
  method PassTurn(rules: seq<Rule>, tickets: seq<seq<nat>>, values: seq<nat>, q: nat,
                  fieldValue0: map<Rule, nat>, used0: set<nat>, ghost positions0: map<Rule, nat>)
    returns (fieldValue: map<Rule, nat>, used: set<nat>, ghost positions: map<Rule, nat>, took: bool)
    requires forall t | 0 <= t < |tickets| :: |values| <= |tickets[t]|
    requires q < |rules|
    requires Assigned(fieldValue0, positions0, rules, tickets, values) && used0 == UsedPositions(positions0)
    ensures PassFrom(rules, tickets, values, q, fieldValue0, used0) == PassFrom(rules, tickets, values, q + 1, fieldValue, used)
    ensures Assigned(fieldValue, positions, rules, tickets, values) && used == UsedPositions(positions)
    ensures fieldValue0.Keys <= fieldValue.Keys
    ensures took ==> |fieldValue| == |fieldValue0| + 1
    ensures !took ==> fieldValue == fieldValue0
  {
    fieldValue, used, positions, took := fieldValue0, used0, positions0, false;
    var rule := rules[q];
    if rule !in fieldValue {
      var possible := Candidates(rule, tickets, used, |values|);
      if |possible| == 1 {
        var position := possible[0];
        AssignStep(fieldValue, positions, rules, tickets, values, rule, position);
        fieldValue := fieldValue[rule := values[position]];
        used := used + {position};
        positions := positions[rule := position];
        took := true;
      }
    }
  }

  /** The whole deduction as a function: passes until there are as many
      assignments as rules (`Some`), or until a pass assigns nothing (`None`,
      the "Stale" abort). */
  function Deduce(rules: seq<Rule>, tickets: seq<seq<nat>>, values: seq<nat>,
                  fieldValue: map<Rule, nat>, used: set<nat>): Option<map<Rule, nat>>
    requires forall t | 0 <= t < |tickets| :: |values| <= |tickets[t]|
    requires forall r | r in fieldValue :: r in rules
    decreases |set r | r in rules| - |fieldValue|
  {
    if |fieldValue| >= |rules| then Some(fieldValue)
    else
      var (fieldValue', used') := PassFrom(rules, tickets, values, 0, fieldValue, used);
      if |fieldValue'| <= |fieldValue| then None
      else
        PassFromGrows(rules, tickets, values, 0, fieldValue, used);
        SubsetCard(fieldValue'.Keys, set r | r in rules);
        Deduce(rules, tickets, values, fieldValue', used')
  }

  /** `find_field_values` (main.rs:76-123): repeat passes until every rule is
      assigned; a pass that assigns nothing is the "Stale" abort (`None`).
      Rules that are equal as values share one entry, so with a repeated rule
      the deduction always ends stale. `reached` is the last state, in which
      a stale deduction finds no rule with a single candidate. */
  method FindFieldValues(rules: seq<Rule>, tickets: seq<seq<nat>>, values: seq<nat>)
    returns (r: Option<map<Rule, nat>>, ghost reached: map<Rule, nat>, ghost positions: map<Rule, nat>)
    requires forall t | 0 <= t < |tickets| :: |values| <= |tickets[t]|
    ensures r == Deduce(rules, tickets, values, map[], {})
    ensures Assigned(reached, positions, rules, tickets, values)
    ensures r.Some? ==> r.value == reached && forall k | 0 <= k < |rules| :: rules[k] in r.value
    ensures r.None? ==> |reached| < |rules| && StuckFrom(rules, tickets, values, 0, reached, UsedPositions(positions))
  {
    var fieldValue: map<Rule, nat> := map[];
    var used: set<nat> := {};
    positions := map[];
    while |fieldValue| < |rules|
      invariant Assigned(fieldValue, positions, rules, tickets, values) && used == UsedPositions(positions)
      invariant Deduce(rules, tickets, values, map[], {}) == Deduce(rules, tickets, values, fieldValue, used)
      decreases |rules| - |fieldValue|
    {
      var foundAny;
      var before, usedBefore := fieldValue, used;
      fieldValue, used, positions, foundAny := Pass(rules, tickets, values, fieldValue, used, positions);
      if !foundAny {
        PassFromStuck(rules, tickets, values, 0, before, usedBefore);
        PassFromGrows(rules, tickets, values, 0, before, usedBefore);
        reached := before;
        return None, reached, positions;
      }
    }
    AllRulesAssigned(fieldValue.Keys, rules);
    reached := fieldValue;
    return Some(fieldValue), reached, positions;
  }

  predicate IsDeparture(r: Rule) { "departure" <= r.field }

  /** The product of the values of the departure fields (main.rs:138-142). */
  function DepartureProduct(rules: seq<Rule>, fieldValue: map<Rule, nat>): (p: nat)
    requires forall k | 0 <= k < |rules| :: rules[k] in fieldValue
    ensures p == 0 <==> exists k | 0 <= k < |rules| :: IsDeparture(rules[k]) && fieldValue[rules[k]] == 0
    ensures (forall k | 0 <= k < |rules| :: !IsDeparture(rules[k])) ==> p == 1
  {
    if |rules| == 0 then 1
    else
      var init := rules[..|rules| - 1];
      var last := rules[|rules| - 1];
      assert forall k | 0 <= k < |init| :: init[k] == rules[k];
      DepartureProduct(init, fieldValue) * if IsDeparture(last) then fieldValue[last] else 1
  }

  /** `solve_part_two` (main.rs:125-145): the deduction over the valid
      tickets and mine, then the departure product; `None` when the
      deduction goes stale. */
  method SolvePartTwo(rules: seq<Rule>, mine: seq<nat>, nearby: seq<seq<nat>>)
    returns (r: Option<nat>, ghost fieldValue: map<Rule, nat>, ghost positions: map<Rule, nat>)
    requires forall t | t in nearby && AllValuesValid(rules, t) :: |mine| <= |t|
    ensures r.None? <==> Deduce(rules, ValidTickets(rules, mine, nearby), mine, map[], {}).None?
    ensures Assigned(fieldValue, positions, rules, ValidTickets(rules, mine, nearby), mine)
    ensures r.Some? ==> forall k | 0 <= k < |rules| :: rules[k] in fieldValue
    ensures r.Some? ==> r.value == DepartureProduct(rules, fieldValue)
    ensures r.None? ==> StuckFrom(rules, ValidTickets(rules, mine, nearby), mine, 0, fieldValue, UsedPositions(positions))
  {
    var tickets := ValidTickets(rules, mine, nearby);
    var found;
    found, fieldValue, positions := FindFieldValues(rules, tickets, mine);
    if found.None? {
      return None, fieldValue, positions;
    }
    r := Some(DepartureProduct(rules, found.value));
  }

  // ---------------------------------------------------------------------------
  // Reading the input (main.rs:147-171)

  function RuleLine(line: string): Option<Rule>
  {
    match ParseRule(line)
    case Ok(r) => Some(r)
    case Err(_) => None
  }

  datatype Notes = Notes(rules: seq<Rule>, mine: seq<nat>, nearby: seq<seq<nat>>)

  /** `read_rules`, `read_my_ticket`, `read_nearby_tickets`: the rule lines up
      to the first empty line (which `take_while` consumes), the header
      "your ticket:", my ticket, an empty line, the header "nearby tickets:"
      and one ticket per remaining line. Any missing line, wrong header or
      unparsable line aborts (`None`). */
  function ReadNotes(lines: seq<string>): Option<Notes>
  {
    var b := FirstBlank(lines);
    if b + 4 >= |lines| then None
    else if lines[b + 1] != "your ticket:" || lines[b + 3] != "" || lines[b + 4] != "nearby tickets:" then None
    else
      match (ParseEach(lines[..b], RuleLine), ParseTicket(lines[b + 2]), ParseEach(lines[b + 5..], ParseTicket))
      case (Some(rules), Some(mine), Some(nearby)) => Some(Notes(rules, mine, nearby))
      case _ => None
  }

  function RenderTicket(t: seq<nat>): string { Join(Decimals(t), ",") }

  function RenderRules(rules: seq<Rule>): (ls: seq<string>)
    ensures |ls| == |rules| && forall k | 0 <= k < |rules| :: ls[k] == RenderRule(rules[k])
  {
    if |rules| == 0 then [] else RenderRules(rules[..|rules| - 1]) + [RenderRule(rules[|rules| - 1])]
  }

  function RenderTickets(ts: seq<seq<nat>>): (ls: seq<string>)
    ensures |ls| == |ts| && forall k | 0 <= k < |ts| :: ls[k] == RenderTicket(ts[k])
  {
    if |ts| == 0 then [] else RenderTickets(ts[..|ts| - 1]) + [RenderTicket(ts[|ts| - 1])]
  }

  /** The notes as the puzzle input lays them out. */
  function RenderNotes(n: Notes): seq<string>
  {
    RenderRules(n.rules) + ["", "your ticket:", RenderTicket(n.mine), "", "nearby tickets:"] + RenderTickets(n.nearby)
  }

  predicate WellFormedNotes(n: Notes)
  {
    && (forall k | 0 <= k < |n.rules| ::
         (FieldName(n.rules[k].field) && n.rules[k].min1 < U32Limit && n.rules[k].max1 < U32Limit && n.rules[k].min2 < U32Limit && n.rules[k].max2 < U32Limit))
    && WellFormedTicket(n.mine)
    && forall k | 0 <= k < |n.nearby| :: WellFormedTicket(n.nearby[k])
  }

  /** Where the parts of the notes sit in their layout. */
  lemma RenderedLayout(n: Notes)
    requires WellFormedNotes(n)
    ensures var lines := RenderNotes(n); var b := |n.rules|;
      && FirstBlank(lines) == b && b + 4 < |lines|
      && lines[..b] == RenderRules(n.rules)
      && lines[b + 1] == "your ticket:" && lines[b + 2] == RenderTicket(n.mine)
      && lines[b + 3] == "" && lines[b + 4] == "nearby tickets:"
      && lines[b + 5..] == RenderTickets(n.nearby)
  {
    var rs := RenderRules(n.rules);
    forall k | 0 <= k < |rs| ensures rs[k] != ""
    {
      assert RenderRule(n.rules[k])[0] == n.rules[k].field[0];
    }
    Layout(rs, RenderTicket(n.mine), RenderTickets(n.nearby));
  }

  /** The sections of the notes around their blank separators. */
  lemma Layout(rs: seq<string>, mine: string, ts: seq<string>)
    requires forall k | 0 <= k < |rs| :: rs[k] != ""
    ensures var lines := rs + ["", "your ticket:", mine, "", "nearby tickets:"] + ts; var b := |rs|;
      && FirstBlank(lines) == b && b + 4 < |lines|
      && lines[..b] == rs
      && lines[b + 1] == "your ticket:" && lines[b + 2] == mine
      && lines[b + 3] == "" && lines[b + 4] == "nearby tickets:"
      && lines[b + 5..] == ts
  {
    var lines := rs + ["", "your ticket:", mine, "", "nearby tickets:"] + ts;
    FirstBlankAt(lines, |rs|);
  }

  /** The notes read back from their layout. */
  lemma ReadRenderedNotes(n: Notes)
    requires WellFormedNotes(n)
    ensures ReadNotes(RenderNotes(n)) == Some(n)
  {
    RenderedLayout(n);
    RulesRoundTrip(n.rules);
    TicketRoundTrip(n.mine);
    TicketsRoundTrip(n.nearby);
  }

  /** The rule lines read back to the rules. */
  lemma RulesRoundTrip(rules: seq<Rule>)
    requires forall k | 0 <= k < |rules| ::
      (FieldName(rules[k].field) && rules[k].min1 < U32Limit && rules[k].max1 < U32Limit && rules[k].min2 < U32Limit && rules[k].max2 < U32Limit)
    ensures ParseEach(RenderRules(rules), RuleLine) == Some(rules)
  {
    var rs := RenderRules(rules);
    forall k | 0 <= k < |rules| ensures RuleLine(rs[k]) == Some(rules[k])
    {
      ParseRenderRule(rules[k]);
    }
    ParseEachOf(rs, RuleLine, rules);
  }

  /** The ticket lines read back to the tickets. */
  lemma TicketsRoundTrip(tickets: seq<seq<nat>>)
    requires forall k | 0 <= k < |tickets| :: WellFormedTicket(tickets[k])
    ensures ParseEach(RenderTickets(tickets), ParseTicket) == Some(tickets)
  {
    var ts := RenderTickets(tickets);
    forall k | 0 <= k < |tickets| ensures ParseTicket(ts[k]) == Some(tickets[k])
    {
      TicketRoundTrip(tickets[k]);
    }
    ParseEachOf(ts, ParseTicket, tickets);
  }

  lemma {:induction false} FirstBlankAt(lines: seq<string>, b: nat)
    requires b < |lines| && lines[b] == "" && forall k | 0 <= k < b :: lines[k] != ""
    ensures FirstBlank(lines) == b
  {
    if b > 0 {
      FirstBlankAt(lines[1..], b - 1);
    }
  }
}
