/** Shared vocabulary for all the puzzle models: optional and fallible results,
    ASCII character classes, decimal numerals, paragraph splitting of input
    lines, and sums/products/counts over sequences. */
module Common {

  datatype Option<T> = None | Some(value: T)

  /** `usize` values are below 2^64. */
  const UsizeLimit: nat := 0x1_0000_0000_0000_0000

  /** Either of the two outcomes of a computation that reports failure by value. */
  datatype Result<T, E> = Ok(value: T) | Err(error: E)

  // ---------------------------------------------------------------------------
  // Characters (ASCII only: Rust's `\d`, `\w`, `\s` and `char::is_whitespace`
  // are Unicode classes; the model restricts them to ASCII).

  predicate IsDigit(c: char) { '0' <= c <= '9' }

  predicate AllDigits(s: string) { forall k :: 0 <= k < |s| ==> IsDigit(s[k]) }

  predicate IsAsciiLetter(c: char) { ('a' <= c <= 'z') || ('A' <= c <= 'Z') }

  /** Regex `\w` restricted to ASCII. */
  predicate IsWordChar(c: char) { IsAsciiLetter(c) || IsDigit(c) || c == '_' }

  /** Regex `\s` and `char::is_whitespace` restricted to ASCII. */
  predicate IsSpace(c: char) { c == ' ' || c == '\t' || c == '\n' || c == '\r' || c == '\U{000B}' || c == '\U{000C}' }

  function DigitValue(c: char): (d: nat)
    requires IsDigit(c)
    ensures d < 10
  {
    (c as int - '0' as int) as nat
  }

  function DigitChar(d: nat): (c: char)
    requires d < 10
    ensures IsDigit(c) && DigitValue(c) == d
  {
    ('0' as int + d) as char
  }

  /** The value of a run of decimal digits, most significant first. */
  function DigitsValue(s: string): nat
    requires AllDigits(s)
  {
    if |s| == 0 then 0 else 10 * DigitsValue(s[..|s| - 1]) + DigitValue(s[|s| - 1])
  }

  /** The shortest decimal numeral of `n` (what Rust's `{}` formatting prints). */
  function Decimal(n: nat): (s: string)
    ensures |s| > 0 && AllDigits(s)
    decreases n
  {
    if n < 10 then [DigitChar(n)] else Decimal(n / 10) + [DigitChar(n % 10)]
  }

  lemma {:induction false} DecimalValue(n: nat)
    ensures DigitsValue(Decimal(n)) == n
    decreases n
  {
    if n >= 10 {
      var s := Decimal(n);
      assert s[..|s| - 1] == Decimal(n / 10);
      DecimalValue(n / 10);
    }
  }

  /** The number of leading characters of `s` that satisfy `IsDigit`. */
  function DigitRun(s: string): (k: nat)
    ensures k <= |s| && AllDigits(s[..k])
    ensures k < |s| ==> !IsDigit(s[k])
  {
    if |s| == 0 || !IsDigit(s[0]) then 0
    else
      var k := 1 + DigitRun(s[1..]);
      assert s[..k] == [s[0]] + s[1..][..k - 1];
      k
  }

  lemma {:induction false} DigitRunPrefix(d: string, rest: string)
    requires AllDigits(d)
    requires rest == [] || !IsDigit(rest[0])
    ensures DigitRun(d + rest) == |d|
  {
    if |d| > 0 {
      assert (d + rest)[1..] == d[1..] + rest;
      DigitRunPrefix(d[1..], rest);
    }
  }

  /** A run of digits `d` directly followed by `sep`: the digits and what
      follows the separator. */
  function DigitsThen(s: string, sep: string): (r: Option<(string, string)>)
    ensures r.Some? ==> |r.value.0| > 0 && AllDigits(r.value.0) && s == r.value.0 + sep + r.value.1
  {
    var k := DigitRun(s);
    if 0 < k && sep <= s[k..] then
      assert s == s[..k] + sep + s[k + |sep|..];
      Some((s[..k], s[k + |sep|..]))
    else None
  }

  lemma DigitsThenOf(d: string, sep: string, rest: string)
    requires |d| > 0 && AllDigits(d) && |sep| > 0 && !IsDigit(sep[0])
    ensures DigitsThen(d + sep + rest, sep) == Some((d, rest))
  {
    assert d + sep + rest == d + (sep + rest);
    DigitRunPrefix(d, sep + rest);
    assert (d + sep + rest)[..|d|] == d;
    assert (d + sep + rest)[|d|..] == sep + rest;
    assert (d + sep + rest)[|d| + |sep|..] == rest;
  }

  /** The number of leading characters of `s` other than `c`: the position of
      the first `c`, or `|s|` when there is none. */
  function CountUntil(s: string, c: char): (k: nat)
    ensures k <= |s| && c !in s[..k]
    ensures k < |s| ==> s[k] == c
  {
    if |s| == 0 || s[0] == c then 0
    else
      var k := 1 + CountUntil(s[1..], c);
      assert s[..k] == [s[0]] + s[1..][..k - 1];
      k
  }

  lemma {:induction false} CountUntilPrefix(t: string, rest: string, c: char)
    requires c !in t && |rest| > 0 && rest[0] == c
    ensures CountUntil(t + rest, c) == |t|
  {
    if |t| > 0 {
      assert (t + rest)[1..] == t[1..] + rest;
      CountUntilPrefix(t[1..], rest, c);
    }
  }

  /** Rust's `str::split_once(c)`: the text before and after the first `c`. */
  function SplitOnce(s: string, c: char): (r: Option<(string, string)>)
    ensures r.None? <==> c !in s
    ensures r.Some? ==> s == r.value.0 + [c] + r.value.1 && c !in r.value.0
  {
    var k := CountUntil(s, c);
    if k == |s| then
      assert s[..k] == s;
      None
    else
      assert s == s[..k] + [c] + s[k + 1..];
      Some((s[..k], s[k + 1..]))
  }

  lemma SplitOnceOf(a: string, b: string, c: char)
    requires c !in a
    ensures SplitOnce(a + [c] + b, c) == Some((a, b))
  {
    CountUntilPrefix(a, [c] + b, c);
    assert a + [c] + b == a + ([c] + b);
    assert (a + [c] + b)[..|a|] == a;
    assert (a + [c] + b)[|a| + 1..] == b;
  }

  /** Rust's `str::parse::<u…>()` for a string made only of digits (no sign),
      without the machine-width limit. */
  function ParseNat(s: string): (r: Option<nat>)
    ensures r.Some? <==> |s| > 0 && AllDigits(s)
  {
    if |s| > 0 && AllDigits(s) then Some(DigitsValue(s)) else None
  }

  /** Rust's `str::parse` for an unsigned type whose values are below
      `limit`: an optional `+`, then one or more ASCII digits; a value out of
      range is an error. */
  function ParseUnsigned(s: string, limit: nat): (r: Option<nat>)
    ensures r.Some? ==> r.value < limit
  {
    var d := if |s| > 0 && s[0] == '+' then s[1..] else s;
    match ParseNat(d)
    case None => None
    case Some(v) => if v < limit then Some(v) else None
  }

  lemma ParseUnsignedDecimal(n: nat, limit: nat)
    requires n < limit
    ensures ParseUnsigned(Decimal(n), limit) == Some(n)
  {
    DecimalValue(n);
  }

  // ---------------------------------------------------------------------------
  // Sequences

  /** Each line parsed by `parse`, all or nothing
      (`map(…).collect::<Result<Vec<_>, _>>()`, or a `.unwrap()` per line). */
  function ParseEach<T>(lines: seq<string>, parse: string -> Option<T>): (r: Option<seq<T>>)
    ensures r.Some? ==> |r.value| == |lines| && forall k | 0 <= k < |lines| :: parse(lines[k]) == Some(r.value[k])
    ensures r.None? <==> exists k | 0 <= k < |lines| :: parse(lines[k]).None?
  {
    if |lines| == 0 then Some([])
    else
      var init := lines[..|lines| - 1];
      assert forall k | 0 <= k < |init| :: init[k] == lines[k];
      match parse(lines[|lines| - 1])
      case None => None
      case Some(x) =>
        match ParseEach(init, parse)
        case None => None
        case Some(xs) => Some(xs + [x])
  }

  lemma {:induction false} ParseEachOf<T>(lines: seq<string>, parse: string -> Option<T>, xs: seq<T>)
    requires |lines| == |xs| && forall k | 0 <= k < |lines| :: parse(lines[k]) == Some(xs[k])
    ensures ParseEach(lines, parse) == Some(xs)
  {
    if |lines| > 0 {
      var init := lines[..|lines| - 1];
      ParseEachOf(init, parse, xs[..|xs| - 1]);
      assert xs[..|xs| - 1] + [xs[|xs| - 1]] == xs;
    }
  }

  /** Parsing one more line: the prefix's results followed by that line's. */
  lemma ParseEachStep<T>(lines: seq<string>, i: nat, parse: string -> Option<T>)
    requires i < |lines|
    ensures ParseEach(lines[..i + 1], parse)
      == if ParseEach(lines[..i], parse).None? || parse(lines[i]).None? then None
         else Some(ParseEach(lines[..i], parse).value + [parse(lines[i]).value])
  {
    assert lines[..i + 1][..i] == lines[..i];
  }

  /** A prefix that parsed, extended by a line that parses. */
  lemma ParseEachSnoc<T>(lines: seq<string>, i: nat, parse: string -> Option<T>, xs: seq<T>, x: T)
    requires i < |lines| && ParseEach(lines[..i], parse) == Some(xs) && parse(lines[i]) == Some(x)
    ensures ParseEach(lines[..i + 1], parse) == Some(xs + [x])
  {
    ParseEachStep(lines, i, parse);
  }

  /** Once a line fails, every longer prefix fails. */
  lemma ParseEachNoneStays<T>(lines: seq<string>, i: nat, j: nat, parse: string -> Option<T>)
    requires i <= j <= |lines| && ParseEach(lines[..i], parse).None?
    ensures ParseEach(lines[..j], parse).None?
  {
    var k :| 0 <= k < i && parse(lines[..i][k]).None?;
    assert lines[..j][k] == lines[..i][k];
  }

  /** Positions below `n`, and possibly `n` itself: one more exactly when `n`
      is added. */
  lemma SnocPositionsCard(all: set<int>, before: set<int>, n: int, last: bool)
    requires all == before + if last then {n} else {}
    requires forall k | k in before :: k < n
    ensures |all| == |before| + if last then 1 else 0
  {
    assert n !in before;
  }

  function Sum(s: seq<int>): int
  {
    if |s| == 0 then 0 else Sum(s[..|s| - 1]) + s[|s| - 1]
  }

  function Product(s: seq<int>): int
  {
    if |s| == 0 then 1 else Product(s[..|s| - 1]) * s[|s| - 1]
  }

  /** `1 << n`. */
  function Pow2(n: nat): (p: nat)
    ensures p >= 1
  {
    if n == 0 then 1 else 2 * Pow2(n - 1)
  }

  lemma SumAppend(s: seq<int>, t: seq<int>)
    ensures Sum(s + t) == Sum(s) + Sum(t)
    decreases |t|
  {
    if |t| > 0 {
      assert (s + t)[..|s + t| - 1] == s + t[..|t| - 1];
      SumAppend(s, t[..|t| - 1]);
    } else {
      assert s + t == s;
    }
  }

  function Min(s: seq<int>): (m: int)
    requires |s| > 0
    ensures m in s && forall k :: 0 <= k < |s| ==> m <= s[k]
  {
    if |s| == 1 then s[0] else var m := Min(s[1..]); if s[0] <= m then s[0] else m
  }

  function Max(s: seq<int>): (m: int)
    requires |s| > 0
    ensures m in s && forall k :: 0 <= k < |s| ==> s[k] <= m
  {
    if |s| == 1 then s[0] else var m := Max(s[1..]); if s[0] >= m then s[0] else m
  }

  /** `parts` joined with `sep` between consecutive elements (Itertools `join`). */
  function Join(parts: seq<string>, sep: string): string
  {
    if |parts| == 0 then ""
    else if |parts| == 1 then parts[0]
    else Join(parts[..|parts| - 1], sep) + sep + parts[|parts| - 1]
  }

  /** The concatenation of all `parts` (`collect::<String>()`). */
  function Concat(parts: seq<string>): string
  {
    if |parts| == 0 then "" else Concat(parts[..|parts| - 1]) + parts[|parts| - 1]
  }

  /** The split of `s` at every occurrence of the single character `sep`
      (Rust's `str::split(char)`): always at least one piece. */
  function Split(s: string, sep: char): (pieces: seq<string>)
    ensures |pieces| > 0
    ensures forall k :: 0 <= k < |pieces| ==> sep !in pieces[k]
  {
    if |s| == 0 then [""]
    else
      var rest := Split(s[..|s| - 1], sep);
      if s[|s| - 1] == sep then rest + [""]
      else rest[..|rest| - 1] + [rest[|rest| - 1] + [s[|s| - 1]]]
  }

  lemma {:induction false} JoinSplit(s: string, sep: char)
    ensures Join(Split(s, sep), [sep]) == s
  {
    if |s| > 0 {
      var init := s[..|s| - 1];
      JoinSplit(init, sep);
      var rest := Split(init, sep);
      if s[|s| - 1] != sep {
        var pieces := Split(s, sep);
        assert pieces[..|pieces| - 1] == rest[..|rest| - 1];
        if |rest| == 1 {
          assert Join(rest, [sep]) == rest[0];
        } else {
          assert rest[..|rest| - 1][..|rest| - 2] == rest[..|rest| - 2];
        }
      }
    }
  }

  /** Splitting after one more separator adds the piece that follows it. */
  lemma {:induction false} SplitAfterSeparator(a: string, b: string, sep: char)
    requires sep !in b
    ensures Split(a + [sep] + b, sep) == Split(a, sep) + [b]
    decreases |b|
  {
    if |b| == 0 {
      assert a + [sep] + b == a + [sep];
      assert (a + [sep])[..|a|] == a;
    } else {
      var b' := b[..|b| - 1];
      SplitAfterSeparator(a, b', sep);
      assert (a + [sep] + b)[..|a + [sep] + b| - 1] == a + [sep] + b';
      assert b' + [b[|b| - 1]] == b;
    }
  }

  /** `Split` undoes `Join` when no piece holds the separator. */
  lemma {:induction false} SplitJoin(parts: seq<string>, sep: char)
    requires |parts| > 0
    requires forall k | 0 <= k < |parts| :: sep !in parts[k]
    ensures Split(Join(parts, [sep]), sep) == parts
  {
    if |parts| == 1 {
      SplitNoSeparator(parts[0], sep);
    } else {
      var init := parts[..|parts| - 1];
      SplitJoin(init, sep);
      SplitAfterSeparator(Join(init, [sep]), parts[|parts| - 1], sep);
      assert init + [parts[|parts| - 1]] == parts;
    }
  }

  lemma {:induction false} SplitNoSeparator(s: string, sep: char)
    requires sep !in s
    ensures Split(s, sep) == [s]
  {
    if |s| > 0 {
      SplitNoSeparator(s[..|s| - 1], sep);
      assert s[..|s| - 1] + [s[|s| - 1]] == s;
    }
  }

  /** The position of the first empty line, or the number of lines. */
  function FirstBlank(lines: seq<string>): (b: nat)
    ensures b <= |lines|
    ensures forall k | 0 <= k < b :: lines[k] != ""
    ensures b < |lines| ==> lines[b] == ""
  {
    if |lines| == 0 || lines[0] == "" then 0 else 1 + FirstBlank(lines[1..])
  }

  // ---------------------------------------------------------------------------
  // Words: `str::split_whitespace`, the maximal runs of non-space characters.

  /** True when `s` ends inside a word. */
  predicate InWord(s: string) { |s| > 0 && !IsSpace(s[|s| - 1]) }

  function Words(s: string): (ws: seq<string>)
    ensures InWord(s) ==> |ws| > 0
  {
    if |s| == 0 then []
    else
      var init := s[..|s| - 1];
      var c := s[|s| - 1];
      var ws := Words(init);
      if IsSpace(c) then ws
      else if InWord(init) then ws[..|ws| - 1] + [ws[|ws| - 1] + [c]]
      else ws + [[c]]
  }

  /** Every word is non-empty and holds no space. */
  lemma {:induction false} WordsAreWords(s: string)
    ensures forall k | 0 <= k < |Words(s)| :: |Words(s)[k]| > 0
    ensures forall k, m | 0 <= k < |Words(s)| && 0 <= m < |Words(s)[k]| :: !IsSpace(Words(s)[k][m])
  {
    if |s| > 0 {
      WordsAreWords(s[..|s| - 1]);
    }
  }

  // ---------------------------------------------------------------------------
  // Paragraphs: the input blocks separated by blank lines, as read by the
  // record-grouping loops of several puzzles.

  /** True when, after reading `lines`, a paragraph is still open. */
  predicate Open(lines: seq<string>) { |lines| > 0 && lines[|lines| - 1] != "" }

  /** The maximal runs of non-empty lines, in order; blank lines only close a
      paragraph, so consecutive blank lines make no empty paragraph. */
  function Paragraphs(lines: seq<string>): (ps: seq<seq<string>>)
    ensures Open(lines) ==> |ps| > 0
  {
    if |lines| == 0 then []
    else
      var init := lines[..|lines| - 1];
      var line := lines[|lines| - 1];
      var ps := Paragraphs(init);
      if line == "" then ps
      else if Open(init) then ps[..|ps| - 1] + [ps[|ps| - 1] + [line]]
      else ps + [[line]]
  }

  lemma {:induction false} ParagraphsNonEmpty(lines: seq<string>)
    ensures forall k :: 0 <= k < |Paragraphs(lines)| ==> |Paragraphs(lines)[k]| > 0
    ensures forall k, m :: 0 <= k < |Paragraphs(lines)| && 0 <= m < |Paragraphs(lines)[k]| ==> Paragraphs(lines)[k][m] != ""
  {
    if |lines| > 0 {
      ParagraphsNonEmpty(lines[..|lines| - 1]);
    }
  }
}
