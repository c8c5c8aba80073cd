/** Day 13: bus schedules. Part two looks for the earliest time `t` at which
    the bus in position `i` of the schedule leaves at `t + i`, by the Chinese
    remainder theorem with modular inverses from the extended Euclidean
    algorithm. */
module Day13 {
  import opened Common

  const U64Limit: nat := 0x1_0000_0000_0000_0000
  const I64Limit: int := 0x8000_0000_0000_0000

  // ---------------------------------------------------------------------------
  // Division with remainder. Dafny's `%` is the mathematical remainder (never
  // negative); `d` divides `n` when `n % d == 0`.

  /** Division with remainder has one answer. */
  lemma DivModUnique(n: int, d: int, q: int, r: int)
    requires d > 0 && n == d * q + r && 0 <= r < d
    ensures n / d == q && n % d == r
  {
    var q0 := n / d;
    var r0 := n % d;
    assert d * q0 + r0 == d * q + r;
    assert d * (q0 - q) == r - r0;
    NonZeroMultiple(d, q0 - q);
  }

  lemma {:induction false} NonZeroMultiple(d: int, k: int)
    requires d > 0
    ensures k == 0 || d * k >= d || d * k <= -d
    decreases Abs(k)
  {
    if k > 1 {
      NonZeroMultiple(d, k - 1);
      assert d * k == d * (k - 1) + d;
    } else if k < -1 {
      NonZeroMultiple(d, k + 1);
      assert d * k == d * (k + 1) - d;
    }
  }

  lemma MultipleMod(d: int, k: int)
    requires d > 0
    ensures (d * k) % d == 0
  {
    DivModUnique(d * k, d, k, 0);
  }

  /** Adding a multiple of `d` does not change the remainder. */
  lemma ModAddMultiple(c: int, d: int, k: int)
    requires d > 0
    ensures (c + d * k) % d == c % d
  {
    assert c == d * (c / d) + c % d;
    assert c + d * k == d * (c / d + k) + c % d;
    DivModUnique(c + d * k, d, c / d + k, c % d);
  }

  lemma ModSum(a: int, b: int, d: int)
    requires d > 0
    ensures (a + b) % d == (a % d + b % d) % d
  {
    assert a == d * (a / d) + a % d;
    assert b == d * (b / d) + b % d;
    assert a + b == (a % d + b % d) + d * (a / d + b / d);
    ModAddMultiple(a % d + b % d, d, a / d + b / d);
  }

  lemma ModProduct(a: int, b: int, d: int)
    requires d > 0
    ensures (a * b) % d == ((a % d) * b) % d
  {
    assert a == d * (a / d) + a % d;
    assert a * b == (a % d) * b + d * ((a / d) * b);
    ModAddMultiple((a % d) * b, d, (a / d) * b);
  }

  /** The remainder by `a * b` keeps the remainder by `a`. */
  lemma ModOfMod(n: int, a: int, b: int)
    requires a > 0 && b > 0
    ensures (n % (a * b)) % a == n % a
  {
    assert n == (a * b) * (n / (a * b)) + n % (a * b);
    assert n == n % (a * b) + a * (b * (n / (a * b)));
    ModAddMultiple(n % (a * b), a, b * (n / (a * b)));
  }

  lemma DividesCombination(d: int, x: int, y: int, s: int, t: int)
    requires d > 0 && x % d == 0 && y % d == 0
    ensures (x * s + y * t) % d == 0
  {
    assert x == d * (x / d);
    assert y == d * (y / d);
    assert x * s + y * t == d * ((x / d) * s + (y / d) * t);
    MultipleMod(d, (x / d) * s + (y / d) * t);
  }

  /** No number above 1 divides 1. */
  lemma NoDivisorOfOne(d: int)
    requires d > 1
    ensures 1 % d != 0
  {
    DivModUnique(1, d, 0, 1);
  }

  // ---------------------------------------------------------------------------
  // Rust's remainder and `mod_fix` (main.rs:77-79)

  function Abs(n: int): nat { if n < 0 then -n else n }

  /** Rust's `%` on signed integers: the remainder takes the sign of the
      dividend. */
  function TruncRem(x: int, m: int): int
    requires m != 0
  {
    if x < 0 then -((-x) % Abs(m)) else x % Abs(m)
  }

  /** `mod_fix` (main.rs:77-79): `((x % m + m) % m) as u64` with Rust's
      remainder and a wrapping cast. */
  function ModFix(x: int, m: int): (r: nat)
    requires m != 0 && -I64Limit <= m < I64Limit
    ensures m > 0 ==> r == x % m
  {
    var v := TruncRem(TruncRem(x, m) + m, m);
    assert m > 0 ==> v == x % m by {
      if m > 0 {
        ModFixPositive(x, m);
      }
    }
    if v < 0 then v + U64Limit else v
  }

  /** For a positive modulus the Rust expression is the mathematical
      remainder, also for a negative `x`. */
  lemma ModFixPositive(x: int, m: int)
    requires m > 0
    ensures TruncRem(TruncRem(x, m) + m, m) == x % m
  {
    if x >= 0 {
      ModAddMultiple(x % m, m, 1);
      assert (x % m) % m == x % m by {
        DivModUnique(x % m, m, 0, x % m);
      }
    } else {
      var s := (-x) % m;
      assert -x == m * ((-x) / m) + s;
      var w := m - s;
      assert 0 < w <= m;
      if s == 0 {
        DivModUnique(x, m, -((-x) / m), 0);
        DivModUnique(w, m, 1, 0);
      } else {
        DivModUnique(x, m, -((-x) / m) - 1, w);
        DivModUnique(w, m, 0, w);
      }
    }
  }

  // ---------------------------------------------------------------------------
  // Greatest common divisor and modular inverse (main.rs:59-75)

  /** `d` divides both numbers only when `d` is 1. */
  ghost predicate Coprime(a: int, b: int)
  {
    forall d | d > 1 :: !(a % d == 0 && b % d == 0)
  }

  datatype ExtendedGcd = ExtendedGcd(gcd: int, x: int, y: int)

  /** The extended Euclidean algorithm: the greatest common divisor and
      Bezout coefficients `x`, `y` with `a * x + b * y == gcd`. It stands for
      `Integer::extended_gcd` of the `num-integer` crate, whose source is
      not part of this model; `modulus_inverse` only depends on the
      coefficient through its remainder, which is the same for all
      coefficients. */
  function ExtGcd(a: int, b: int): ExtendedGcd
    decreases Abs(b)
  {
    if b == 0 then
      if a >= 0 then ExtendedGcd(a, 1, 0) else ExtendedGcd(-a, -1, 0)
    else
      var rest := ExtGcd(b, a % b);
      ExtendedGcd(rest.gcd, rest.y, rest.x - rest.y * (a / b))
  }

  /** The result is a common divisor, zero only for two zeros, and the
      coefficients satisfy Bezout's equation. */
  lemma {:induction false} ExtGcdIsGcd(a: int, b: int)
    ensures ExtGcd(a, b).gcd >= 0 && a * ExtGcd(a, b).x + b * ExtGcd(a, b).y == ExtGcd(a, b).gcd
    ensures ExtGcd(a, b).gcd == 0 <==> a == 0 && b == 0
    ensures ExtGcd(a, b).gcd > 0 ==> a % ExtGcd(a, b).gcd == 0 && b % ExtGcd(a, b).gcd == 0
    decreases Abs(b)
  {
    if b == 0 {
      if a > 0 {
        MultipleMod(a, 1);
      } else if a < 0 {
        assert (-a) * 1 == -a;
        MultipleMod(-a, -1);
      }
    } else {
      ExtGcdIsGcd(b, a % b);
      EuclidStep(a, b, ExtGcd(b, a % b));
    }
  }

  /** One step of Euclid's algorithm keeps the Bezout equation and the common
      divisor. */
  lemma EuclidStep(a: int, b: int, rest: ExtendedGcd)
    requires b != 0
    requires rest.gcd >= 0 && b * rest.x + (a % b) * rest.y == rest.gcd
    requires rest.gcd > 0
    requires b % rest.gcd == 0 && (a % b) % rest.gcd == 0
    ensures a * rest.y + b * (rest.x - rest.y * (a / b)) == rest.gcd
    ensures a % rest.gcd == 0
  {
    var g := rest.gcd;
    assert a == b * (a / b) + a % b;
    assert a * rest.y + b * (rest.x - rest.y * (a / b)) == b * rest.x + (a % b) * rest.y by {
      assert b * (rest.x - rest.y * (a / b)) == b * rest.x - b * (a / b) * rest.y;
      assert a * rest.y == b * (a / b) * rest.y + (a % b) * rest.y;
    }
    DividesCombination(g, b, a % b, a / b, 1);
  }

  /** The greatest common divisor is 1 exactly for coprime numbers. */
  lemma GcdOneIffCoprime(a: int, b: int)
    requires a != 0 || b != 0
    ensures ExtGcd(a, b).gcd == 1 <==> Coprime(a, b)
  {
    var e := ExtGcd(a, b);
    ExtGcdIsGcd(a, b);
    if e.gcd == 1 {
      forall d | d > 1
        ensures !(a % d == 0 && b % d == 0)
      {
        if a % d == 0 && b % d == 0 {
          DividesCombination(d, a, b, e.x, e.y);
          NoDivisorOfOne(d);
        }
      }
    } else {
      assert e.gcd > 1;
      assert !Coprime(a, b);
    }
  }

  /** `modulus_inverse` (main.rs:59-75). A zero modulus panics in `mod_fix`
      and is excluded. */
  function ModulusInverse(x: int, y: int): (r: Option<nat>)
    requires y != 0 && -I64Limit <= y < I64Limit
    ensures y > 0 && r.Some? ==> r.value < y && (r.value * x) % y == 1 % y
  {
    var e := ExtGcd(x, y);
    BezoutInverse(x, y);
    if e.gcd == 1 then Some(ModFix(e.x, y)) else None
  }

  /** For a positive modulus there is an inverse exactly for coprime
      numbers. */
  lemma InverseIffCoprime(x: int, y: int)
    requires 0 < y < I64Limit
    ensures ModulusInverse(x, y).Some? <==> Coprime(x, y)
  {
    BezoutInverse(x, y);
  }

  lemma BezoutInverse(x: int, y: int)
    requires y != 0 && -I64Limit <= y < I64Limit
    ensures y > 0 ==> (ExtGcd(x, y).gcd == 1 <==> Coprime(x, y))
    ensures y > 0 && ExtGcd(x, y).gcd == 1 ==> (ModFix(ExtGcd(x, y).x, y) * x) % y == 1 % y
  {
    var e := ExtGcd(x, y);
    ExtGcdIsGcd(x, y);
    if y > 0 {
      GcdOneIffCoprime(x, y);
      if e.gcd == 1 {
        InverseFromBezout(x, y, e.x, e.y);
      }
    }
  }

  lemma InverseFromBezout(x: int, y: int, a: int, b: int)
    requires y > 0 && a * x + b * y == 1
    ensures ((a % y) * x) % y == 1 % y
  {
    ModProduct(a, x, y);
    assert a * x == 1 + y * (-b);
    ModAddMultiple(1, y, -b);
  }

  /** There is no inverse when `modulus_inverse` answers `None`: any `z` with
      `z * x` one more than a multiple of `y` makes the two coprime. */
  lemma InverseOnlyWhenCoprime(x: int, y: int, z: int)
    requires y > 0 && (z * x) % y == 1 % y
    ensures Coprime(x, y)
  {
    var q := (z * x) / y;
    assert z * x == y * q + 1 % y;
    forall d | d > 1
      ensures !(x % d == 0 && y % d == 0)
    {
      if x % d == 0 && y % d == 0 {
        if y == 1 {
          NoDivisorOfOne(d);
        } else {
          DivModUnique(1, y, 0, 1);
          assert x * z + y * (-q) == 1;
          DividesCombination(d, x, y, z, -q);
          NoDivisorOfOne(d);
        }
      }
    }
  }

  /** A product of numbers coprime to `n` is coprime to `n`. */
  lemma CoprimeProduct(a: int, b: int, n: int)
    requires n > 0 && Coprime(a, n) && Coprime(b, n)
    ensures Coprime(a * b, n)
  {
    GcdOneIffCoprime(a, n);
    var e := ExtGcd(a, n);
    ExtGcdIsGcd(a, n);
    forall d | d > 1
      ensures !((a * b) % d == 0 && n % d == 0)
    {
      if (a * b) % d == 0 && n % d == 0 {
        BezoutScale(a, b, n, e.x, e.y);
        DividesCombination(d, a * b, n, e.x, b * e.y);
      }
    }
  }

  /** Bezout's identity for `a` and `n`, scaled by `b`. */
  lemma BezoutScale(a: int, b: int, n: int, x: int, y: int)
    requires a * x + n * y == 1
    ensures b == (a * b) * x + n * (b * y)
  {
    calc {
      (a * b) * x + n * (b * y);
      b * (a * x) + b * (n * y);
      b * (a * x + n * y);
    }
  }

  // ---------------------------------------------------------------------------
  // The schedule (main.rs:11-23)

  /** `Schedule::from_str` (main.rs:19-22): the comma-separated tokens, each a
      bus id when it reads as a `u64` and `None` otherwise; it never fails. */
  function ParseSchedule(s: string): (ids: seq<Option<nat>>)
    ensures |ids| == |Split(s, ',')|
    ensures forall k | 0 <= k < |ids| :: ids[k].Some? ==> ids[k].value < U64Limit
  {
    var tokens := Split(s, ',');
    seq(|tokens|, k requires 0 <= k < |tokens| => ParseUnsigned(tokens[k], U64Limit))
  }

  /** A schedule entry as the puzzle writes it: the id, or `x`. */
  function RenderId(id: Option<nat>): string
  {
    match id
    case Some(n) => Decimal(n)
    case None => "x"
  }

  function RenderSchedule(ids: seq<Option<nat>>): string
  {
    Join(seq(|ids|, k requires 0 <= k < |ids| => RenderId(ids[k])), [','])
  }

  /** Reading a written schedule gives it back. */
  lemma ParseRenderSchedule(ids: seq<Option<nat>>)
    requires |ids| > 0
    requires forall k | 0 <= k < |ids| :: ids[k].Some? ==> ids[k].value < U64Limit
    ensures ParseSchedule(RenderSchedule(ids)) == ids
  {
    var tokens := seq(|ids|, k requires 0 <= k < |ids| => RenderId(ids[k]));
    forall k | 0 <= k < |ids|
      ensures ',' !in tokens[k]
      ensures ParseUnsigned(tokens[k], U64Limit) == ids[k]
    {
      match ids[k]
      case Some(n) =>
        assert AllDigits(Decimal(n));
        ParseUnsignedDecimal(n, U64Limit);
      case None =>
        assert !IsDigit('x');
    }
    SplitJoin(tokens, ',');
  }

  // ---------------------------------------------------------------------------
  // Part two (main.rs:101-128)

  /** `iter.map(|x| x % modulo).sum() % modulo` (main.rs:38-43). The values are
      never negative, where Rust's `%` and Dafny's agree. */
  function SumRem(xs: seq<int>, m: int): (r: int)
    requires m > 0
    ensures r == Sum(xs) % m && 0 <= r < m
  {
    var rems := seq(|xs|, k requires 0 <= k < |xs| => xs[k] % m);
    SumOfRemainders(xs, m);
    Sum(rems) % m
  }

  lemma {:induction false} SumOfRemainders(xs: seq<int>, m: int)
    requires m > 0
    ensures Sum(seq(|xs|, k requires 0 <= k < |xs| => xs[k] % m)) % m == Sum(xs) % m
  {
    var rems := seq(|xs|, k requires 0 <= k < |xs| => xs[k] % m);
    if |xs| > 0 {
      var init := xs[..|xs| - 1];
      var last := xs[|xs| - 1];
      SumOfRemainders(init, m);
      var initRems := seq(|init|, k requires 0 <= k < |init| => init[k] % m);
      assert rems[..|xs| - 1] == initRems;
      calc {
        Sum(rems) % m;
        (Sum(initRems) + last % m) % m;
        { ModSum(Sum(initRems), last % m, m); }
        (Sum(initRems) % m + (last % m) % m) % m;
        { DivModUnique(last % m, m, 0, last % m); }
        (Sum(init) % m + last % m) % m;
        { ModSum(Sum(init), last, m); }
        Sum(xs) % m;
      }
    }
  }

  /** A bus of the schedule: its position and its id. */
  datatype Bus = Bus(pos: nat, id: nat)

  /** The buses of the schedule with their positions: `enumerate` then
      `filter_map` (main.rs:102-107). Its properties are in `BusesOfSchedule`. */
  function Buses(ids: seq<Option<nat>>): seq<Bus>
  {
    if |ids| == 0 then []
    else
      var init := Buses(ids[..|ids| - 1]);
      if ids[|ids| - 1].None? then init
      else init + [Bus(|ids| - 1, ids[|ids| - 1].value)]
  }

  /** The buses are exactly the ids of the schedule, in order of position. */
  lemma {:induction false} BusesOfSchedule(ids: seq<Option<nat>>)
    ensures forall k | 0 <= k < |Buses(ids)| :: Buses(ids)[k].pos < |ids| && ids[Buses(ids)[k].pos] == Some(Buses(ids)[k].id)
    ensures forall a, b | 0 <= a < b < |Buses(ids)| :: Buses(ids)[a].pos < Buses(ids)[b].pos
    ensures forall i | 0 <= i < |ids| && ids[i].Some? :: exists k | 0 <= k < |Buses(ids)| :: Buses(ids)[k].pos == i
  {
    if |ids| > 0 {
      var init := ids[..|ids| - 1];
      BusesOfSchedule(init);
      assert forall i | 0 <= i < |init| :: init[i] == ids[i];
      var buses := Buses(ids);
      if ids[|ids| - 1].Some? {
        assert buses == Buses(init) + [Bus(|ids| - 1, ids[|ids| - 1].value)];
        forall i | 0 <= i < |ids| && ids[i].Some?
          ensures exists k | 0 <= k < |buses| :: buses[k].pos == i
        {
          if i == |ids| - 1 {
            assert buses[|Buses(init)|].pos == i;
          } else {
            var k :| 0 <= k < |Buses(init)| && Buses(init)[k].pos == i;
            assert buses[k].pos == i;
          }
        }
      } else {
        assert buses == Buses(init);
      }
    }
  }

  function Moduli(buses: seq<Bus>): (ns: seq<int>)
    ensures |ns| == |buses| && forall k | 0 <= k < |buses| :: ns[k] == buses[k].id
  {
    seq(|buses|, k requires 0 <= k < |buses| => buses[k].id)
  }

  /** `mod_fix(x - i, x)` (main.rs:112-115): the time left until bus `x`
      leaves `i` minutes after a multiple of `x`. */
  function Residue(bus: Bus): (r: nat)
    requires 0 < bus.id < I64Limit
    ensures r == (bus.id - bus.pos) % bus.id
  {
    ModFix(bus.id - bus.pos, bus.id)
  }

  /** `residue * m * modulus_inverse(m, modulus).unwrap()` (main.rs:120-125)
      with `m = product / modulus`; the `unwrap` panics when `m` has no
      inverse, modelled as `None`. */
  function Term(bus: Bus, product: int): Option<int>
    requires 0 < bus.id < I64Limit
  {
    var m := product / bus.id;
    match ModulusInverse(m, bus.id)
    case None => None
    case Some(inverse) => Some(Residue(bus) * m * inverse)
  }

  /** The terms of all buses, or `None` when one of them has none. */
  function Terms(buses: seq<Bus>, product: int): Option<seq<int>>
    requires forall k | 0 <= k < |buses| :: 0 < buses[k].id < I64Limit
  {
    if |buses| == 0 then Some([])
    else
      var init := buses[..|buses| - 1];
      var ts := Terms(init, product);
      var t := Term(buses[|buses| - 1], product);
      if ts.None? || t.None? then None else Some(ts.value + [t.value])
  }

  /** There are terms exactly when every bus has one, and then they are
      the terms of the buses in order. */
  lemma {:induction false} TermsOfBuses(buses: seq<Bus>, product: int)
    requires forall k | 0 <= k < |buses| :: 0 < buses[k].id < I64Limit
    ensures Terms(buses, product).Some? <==> forall k | 0 <= k < |buses| :: Term(buses[k], product).Some?
    ensures Terms(buses, product).Some? ==>
      |Terms(buses, product).value| == |buses| &&
      forall k | 0 <= k < |buses| :: Some(Terms(buses, product).value[k]) == Term(buses[k], product)
  {
    if |buses| > 0 {
      var init := buses[..|buses| - 1];
      assert forall k | 0 <= k < |init| :: init[k] == buses[k];
      TermsOfBuses(init, product);
    }
  }

  /** `solve_part_two` (main.rs:101-128): the Chinese remainder construction
      over the buses of the schedule. */
  function SolvePartTwo(ids: seq<Option<nat>>): Option<int>
    requires forall k | 0 <= k < |ids| && ids[k].Some? :: ids[k].value < I64Limit
  {
    BusesOfSchedule(ids);
    SolveBuses(Buses(ids))
  }

  /** The construction on the buses (main.rs:110-127). A zero id makes
      `mod_fix` divide by zero, and an id without an inverse makes `unwrap`
      panic; both are `None`. */
  function SolveBuses(buses: seq<Bus>): Option<int>
    requires forall k | 0 <= k < |buses| :: buses[k].id < I64Limit
  {
    if exists k | 0 <= k < |buses| :: buses[k].id == 0 then None
    else
      var product := Product(Moduli(buses));
      ProductPositive(Moduli(buses));
      match Terms(buses, product)
      case None => None
      case Some(ts) => Some(SumRem(ts, product))
  }

  lemma {:induction false} ProductPositive(ns: seq<int>)
    requires forall k | 0 <= k < |ns| :: ns[k] > 0
    ensures Product(ns) > 0
  {
    if |ns| > 0 {
      ProductPositive(ns[..|ns| - 1]);
    }
  }

  /** The sequence without its element at `j`. */
  function Remove(ns: seq<int>, j: nat): (r: seq<int>)
    requires j < |ns|
    ensures |r| == |ns| - 1
    ensures forall k | 0 <= k < |r| :: r[k] == if k < j then ns[k] else ns[k + 1]
  {
    ns[..j] + ns[j + 1..]
  }

  /** Taking one factor out of a product. */
  lemma {:induction false} ProductRemove(ns: seq<int>, j: nat)
    requires j < |ns|
    ensures Product(ns) == ns[j] * Product(Remove(ns, j))
  {
    var init := ns[..|ns| - 1];
    var last := ns[|ns| - 1];
    if j == |ns| - 1 {
      assert Remove(ns, j) == init;
    } else {
      ProductRemove(init, j);
      var rest := Remove(init, j);
      assert init[..j] == ns[..j];
      assert ns[j + 1..] == init[j + 1..] + [last];
      assert Remove(ns, j) == rest + [last];
      assert (rest + [last])[..|rest|] == rest;
      assert Product(Remove(ns, j)) == Product(rest) * last;
      assert Product(ns) == Product(init) * last;
      MulAssociative(ns[j], Product(rest), last);
    }
  }

  lemma MulAssociative(a: int, b: int, c: int)
    ensures (a * b) * c == a * (b * c)
  {
  }

  /** A product is a multiple of each of its positive factors. */
  lemma ProductMultiple(ns: seq<int>, j: nat)
    requires j < |ns| && ns[j] > 0
    ensures Product(ns) % ns[j] == 0
  {
    ProductRemove(ns, j);
    MultipleMod(ns[j], Product(Remove(ns, j)));
  }

  /** A product of numbers coprime to `n` is coprime to `n`. */
  lemma {:induction false} ProductCoprime(ns: seq<int>, n: int)
    requires n > 0 && forall k | 0 <= k < |ns| :: Coprime(ns[k], n)
    ensures Coprime(Product(ns), n)
  {
    if |ns| == 0 {
      forall d | d > 1
        ensures !(1 % d == 0 && n % d == 0)
      {
        NoDivisorOfOne(d);
      }
    } else {
      ProductCoprime(ns[..|ns| - 1], n);
      CoprimeProduct(Product(ns[..|ns| - 1]), ns[|ns| - 1], n);
    }
  }

  /** The remainder of a sum whose terms all but one are multiples of `n`. */
  lemma {:induction false} SumOneTerm(ts: seq<int>, j: nat, n: int)
    requires n > 0 && j < |ts|
    requires forall k | 0 <= k < |ts| && k != j :: ts[k] % n == 0
    ensures Sum(ts) % n == ts[j] % n
  {
    var init := ts[..|ts| - 1];
    var last := ts[|ts| - 1];
    assert forall k | 0 <= k < |init| :: init[k] == ts[k];
    assert Sum(ts) == Sum(init) + last;
    if j == |ts| - 1 {
      SumMultiple(init, n);
      AddMultiple(last, Sum(init), n);
    } else {
      SumOneTerm(init, j, n);
      AddMultiple(Sum(init), last, n);
    }
  }

  /** Adding a multiple of `n` leaves the remainder unchanged. */
  lemma AddMultiple(a: int, b: int, n: int)
    requires n > 0 && b % n == 0
    ensures (a + b) % n == a % n && (b + a) % n == a % n
  {
    ModSum(a, b, n);
    DivModUnique(a % n, n, 0, a % n);
  }

  lemma {:induction false} SumMultiple(ts: seq<int>, n: int)
    requires n > 0 && forall k | 0 <= k < |ts| :: ts[k] % n == 0
    ensures Sum(ts) % n == 0
  {
    if |ts| > 0 {
      var init := ts[..|ts| - 1];
      var last := ts[|ts| - 1];
      assert forall k | 0 <= k < |init| :: init[k] == ts[k];
      SumMultiple(init, n);
      MultiplesAdd(Sum(init), last, n);
      assert Sum(ts) == Sum(init) + last;
    }
  }

  lemma MultiplesAdd(a: int, b: int, n: int)
    requires n > 0 && a % n == 0 && b % n == 0
    ensures (a + b) % n == 0
  {
    ModSum(a, b, n);
    DivModUnique(0, n, 0, 0);
  }

  ghost predicate PairwiseCoprime(ns: seq<int>)
  {
    forall a, b {:trigger Coprime(ns[a], ns[b])} | 0 <= a < |ns| && 0 <= b < |ns| && a != b :: Coprime(ns[a], ns[b])
  }

  lemma CoprimeSymmetric(a: int, b: int)
    requires Coprime(a, b)
    ensures Coprime(b, a)
  {
    forall d | d > 1
      ensures !(b % d == 0 && a % d == 0)
    {
      assert !(a % d == 0 && b % d == 0);
    }
  }

  /** `product / modulus` is the product of the other moduli. */
  lemma QuotientIsRest(ns: seq<int>, j: nat)
    requires j < |ns| && ns[j] > 0
    ensures Product(ns) / ns[j] == Product(Remove(ns, j))
  {
    ProductRemove(ns, j);
    DivModUnique(Product(ns), ns[j], Product(Remove(ns, j)), 0);
  }

  /** With pairwise coprime moduli every `m` has an inverse, so no `unwrap`
      panics. */
  lemma TermsExist(buses: seq<Bus>, product: int)
    requires forall k | 0 <= k < |buses| :: 0 < buses[k].id < I64Limit
    requires PairwiseCoprime(Moduli(buses)) && product == Product(Moduli(buses))
    ensures Terms(buses, product).Some?
  {
    var ns := Moduli(buses);
    forall k | 0 <= k < |buses|
      ensures Term(buses[k], product).Some?
    {
      QuotientIsRest(ns, k);
      var rest := Remove(ns, k);
      forall m | 0 <= m < |rest|
        ensures Coprime(rest[m], ns[k])
      {
        var other := if m < k then m else m + 1;
        assert rest[m] == ns[other] && other != k;
      }
      ProductCoprime(rest, ns[k]);
      InverseIffCoprime(product / ns[k], ns[k]);
    }
    TermsOfBuses(buses, product);
  }

  /** A term whose `m` is a multiple of `n` vanishes modulo `n`. */
  lemma OtherTerm(residue: int, m: int, inverse: int, n: int)
    requires n > 0 && m % n == 0
    ensures (residue * m * inverse) % n == 0
  {
    assert residue * m * inverse == m * (residue * inverse) + 0 * 0;
    DividesCombination(n, m, 0, residue * inverse, 0);
  }

  /** A term whose `m * inverse` is 1 modulo `n` leaves its residue. */
  lemma OwnTerm(residue: int, m: int, inverse: int, n: int)
    requires n > 0 && 0 <= residue < n && (inverse * m) % n == 1 % n
    ensures (residue * m * inverse) % n == residue
  {
    assert residue * m * inverse == (inverse * m) * residue;
    ModProduct(inverse * m, residue, n);
    if n == 1 {
      DivModUnique(residue * m * inverse, 1, residue * m * inverse, 0);
    } else {
      DivModUnique(1, n, 0, 1);
      DivModUnique(residue, n, 0, residue);
    }
  }

  /** The `m` of bus `k` is a multiple of the id of every other bus `j`. */
  lemma OtherQuotientMultiple(ns: seq<int>, k: nat, j: nat)
    requires k < |ns| && j < |ns| && j != k
    requires forall i | 0 <= i < |ns| :: ns[i] > 0
    ensures (Product(ns) / ns[k]) % ns[j] == 0
  {
    QuotientIsRest(ns, k);
    var rest := Remove(ns, k);
    var at := if j < k then j else j - 1;
    assert rest[at] == ns[j];
    ProductMultiple(rest, at);
  }

  /** Modulo bus `j`, the sum of the terms is its residue: every other term
      is a multiple of its id, and its own term is the residue times
      `m * inverse`, which is 1 modulo the id. */
  lemma SumOfTermsModulo(buses: seq<Bus>, product: int, ts: seq<int>, j: nat)
    requires forall k | 0 <= k < |buses| :: 0 < buses[k].id < I64Limit
    requires product == Product(Moduli(buses))
    requires Terms(buses, product) == Some(ts) && j < |buses|
    ensures Sum(ts) % buses[j].id == Residue(buses[j])
  {
    var ns := Moduli(buses);
    var n := buses[j].id;
    TermsOfBuses(buses, product);
    forall k | 0 <= k < |ts| && k != j
      ensures ts[k] % n == 0
    {
      OtherQuotientMultiple(ns, k, j);
      var m := product / buses[k].id;
      OtherTerm(Residue(buses[k]), m, ModulusInverse(m, buses[k].id).value, n);
    }
    var m := product / n;
    OwnTerm(Residue(buses[j]), m, ModulusInverse(m, n).value, n);
    SumOneTerm(ts, j, n);
  }

  /** Pairwise coprime ids give pairwise coprime moduli. */
  lemma BusesPairwiseCoprime(ids: seq<Option<nat>>)
    requires forall a, b {:trigger Coprime(ids[a].value, ids[b].value)} | 0 <= a < b < |ids| && ids[a].Some? && ids[b].Some? :: Coprime(ids[a].value, ids[b].value)
    ensures PairwiseCoprime(Moduli(Buses(ids)))
  {
    BusesOfSchedule(ids);
    var buses := Buses(ids);
    var ns := Moduli(buses);
    forall a, b | 0 <= a < |ns| && 0 <= b < |ns| && a != b
      ensures Coprime(ns[a], ns[b])
    {
      if a < b {
        assert Coprime(ids[buses[a].pos].value, ids[buses[b].pos].value);
      } else {
        assert Coprime(ids[buses[b].pos].value, ids[buses[a].pos].value);
        CoprimeSymmetric(ns[b], ns[a]);
      }
    }
  }

  /** The remainder of `t` by the `j`-th modulus is the remainder of the sum,
      since the product is a multiple of the modulus. */
  lemma RemainderOfSumRem(ns: seq<int>, j: nat, total: int)
    requires j < |ns| && forall k | 0 <= k < |ns| :: ns[k] > 0
    requires Product(ns) > 0
    ensures (total % Product(ns)) % ns[j] == total % ns[j]
  {
    var rest := Remove(ns, j);
    ProductRemove(ns, j);
    ProductPositive(rest);
    ModOfMod(total, ns[j], Product(rest));
  }

  /** The sum `s` of the terms taken modulo the product `p`, when `s` leaves
      remainder `(n - i) mod n`, is a time at which bus `n` leaves `i`
      minutes later. */
  lemma LeavesAfterSum(s: int, p: int, residue: int, i: int, n: int)
    requires n > 0 && p > 0
    requires (s % p) % n == s % n && s % n == residue && residue == (n - i) % n
    ensures (s % p + i) % n == 0
  {
    LeavesAfter(s % p, i, n);
  }

  /** A time `t` with remainder `(n - i) mod n` is one at which bus `n`
      leaves `i` minutes later. */
  lemma LeavesAfter(t: int, i: int, n: int)
    requires n > 0 && t % n == (n - i) % n
    ensures (t + i) % n == 0
  {
    ModSum(t, i, n);
    ModSum(n - i, i, n);
    MultipleMod(n, 1);
  }

  /** When every id is positive and every term exists, the construction
      gives the sum of the terms modulo the product. */
  lemma SolveBusesValue(buses: seq<Bus>)
    requires forall k | 0 <= k < |buses| :: 0 < buses[k].id < I64Limit
    requires Product(Moduli(buses)) > 0
    requires Terms(buses, Product(Moduli(buses))).Some?
    ensures SolveBuses(buses) == Some(SumRem(Terms(buses, Product(Moduli(buses))).value, Product(Moduli(buses))))
  {
  }

  /** Every bus leaves as many minutes after `t` as its position. */
  predicate BusesDepart(buses: seq<Bus>, t: int)
  {
    forall j | 0 <= j < |buses| :: buses[j].id > 0 && (t + buses[j].pos) % buses[j].id == 0
  }

  /** Every bus of the schedule leaves as many minutes after `t` as its
      position in the schedule: the puzzle's condition. */
  predicate ScheduleDeparts(ids: seq<Option<nat>>, t: int)
  {
    forall i | 0 <= i < |ids| && ids[i].Some? :: ids[i].value > 0 && (t + i) % ids[i].value == 0
  }

  /** With pairwise coprime ids the construction succeeds, and every bus
      leaves as many minutes after the time it finds as its position. */
  lemma SolveBusesCongruence(buses: seq<Bus>)
    requires forall k | 0 <= k < |buses| :: 0 < buses[k].id < I64Limit
    requires PairwiseCoprime(Moduli(buses))
    ensures SolveBuses(buses).Some?
    ensures 0 <= SolveBuses(buses).value < Product(Moduli(buses))
    ensures BusesDepart(buses, SolveBuses(buses).value)
  {
    var ns := Moduli(buses);
    var product := Product(ns);
    ProductPositive(ns);
    TermsExist(buses, product);
    var ts := Terms(buses, product).value;
    var t := SumRem(ts, product);
    SolveBusesValue(buses);
    assert SolveBuses(buses).value == t;
    AllBusesLeave(buses, ts, t);
  }

  lemma AllBusesLeave(buses: seq<Bus>, ts: seq<int>, t: int)
    requires forall k | 0 <= k < |buses| :: 0 < buses[k].id < I64Limit
    requires Product(Moduli(buses)) > 0
    requires Terms(buses, Product(Moduli(buses))) == Some(ts)
    requires t == Sum(ts) % Product(Moduli(buses))
    ensures BusesDepart(buses, t)
  {
    forall j | 0 <= j < |buses|
      ensures buses[j].id > 0 && (t + buses[j].pos) % buses[j].id == 0
    {
      SumOfTermsModulo(buses, Product(Moduli(buses)), ts, j);
      BusLeaves(buses, ts, j, t);
    }
  }

  /** Bus `j` leaves as many minutes after the sum of the terms, taken
      modulo the product, as its position. */
  lemma BusLeaves(buses: seq<Bus>, ts: seq<int>, j: nat, t: int)
    requires forall k | 0 <= k < |buses| :: 0 < buses[k].id < I64Limit
    requires Product(Moduli(buses)) > 0 && j < |buses|
    requires Sum(ts) % buses[j].id == Residue(buses[j])
    requires t == Sum(ts) % Product(Moduli(buses))
    ensures (t + buses[j].pos) % buses[j].id == 0
  {
    var ns := Moduli(buses);
    RemainderOfSumRem(ns, j, Sum(ts));
    LeavesAfterSum(Sum(ts), Product(ns), Residue(buses[j]), buses[j].pos, buses[j].id);
  }

  /** Part two's answer for pairwise coprime ids: a time below the product of
      the ids at which every bus leaves as many minutes after as its position
      in the schedule. */
  lemma SolvePartTwoIsCrt(ids: seq<Option<nat>>)
    requires forall k | 0 <= k < |ids| && ids[k].Some? :: 0 < ids[k].value < I64Limit
    requires forall a, b {:trigger Coprime(ids[a].value, ids[b].value)} | 0 <= a < b < |ids| && ids[a].Some? && ids[b].Some? :: Coprime(ids[a].value, ids[b].value)
    ensures SolvePartTwo(ids).Some?
    ensures 0 <= SolvePartTwo(ids).value < Product(Moduli(Buses(ids)))
    ensures ScheduleDeparts(ids, SolvePartTwo(ids).value)
  {
    BusesPairwiseCoprime(ids);
    SolveCoprimeBuses(ids);
  }

  /** The ids of the buses are the ids of the schedule. */
  lemma BusIdsInRange(ids: seq<Option<nat>>)
    requires forall k | 0 <= k < |ids| && ids[k].Some? :: 0 < ids[k].value < I64Limit
    ensures forall k | 0 <= k < |Buses(ids)| :: 0 < Buses(ids)[k].id < I64Limit
  {
    BusesOfSchedule(ids);
  }

  /** With pairwise coprime bus ids, part two's answer is the construction's
      on the buses. */
  lemma SolveCoprimeBuses(ids: seq<Option<nat>>)
    requires forall k | 0 <= k < |ids| && ids[k].Some? :: 0 < ids[k].value < I64Limit
    requires PairwiseCoprime(Moduli(Buses(ids)))
    ensures SolvePartTwo(ids).Some?
    ensures 0 <= SolvePartTwo(ids).value < Product(Moduli(Buses(ids)))
    ensures ScheduleDeparts(ids, SolvePartTwo(ids).value)
  {
    var buses := Buses(ids);
    BusIdsInRange(ids);
    SolveBusesCongruence(buses);
    var t := SolveBuses(buses).value;
    assert SolvePartTwo(ids) == Some(t);
    ScheduleLeaves(ids, t);
  }

  /** A time at which every bus leaves as many minutes after as its position
      among the buses is one at which it leaves as many minutes after as its
      position in the schedule. */
  lemma ScheduleLeaves(ids: seq<Option<nat>>, t: int)
    requires BusesDepart(Buses(ids), t)
    ensures ScheduleDeparts(ids, t)
  {
    BusesOfSchedule(ids);
    var buses := Buses(ids);
    forall i | 0 <= i < |ids| && ids[i].Some?
      ensures ids[i].value > 0 && (t + i) % ids[i].value == 0
    {
      var k :| 0 <= k < |buses| && buses[k].pos == i;
      assert ids[i].value == buses[k].id;
    }
  }
}
