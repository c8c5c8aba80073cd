/** Day 15: the memory game. Starting from some numbers, each next number is
    0 if the last number was new, and otherwise how many turns ago it was
    last spoken before. */
module Day15 {
  import opened Common

  /** The last position before `k` at which `s` holds `x`, if any. */
  function LastBefore(s: seq<nat>, x: nat, k: nat): (r: Option<nat>)
    requires k <= |s|
    ensures r.Some? ==> r.value < k && s[r.value] == x
  {
    if k == 0 then None
    else if s[k - 1] == x then Some(k - 1)
    else LastBefore(s, x, k - 1)
  }

  /** `LastBefore` finds nothing exactly when `x` is not among the first `k`
      entries, and otherwise no later one of them is `x`. */
  lemma {:induction false} LastBeforeIsLast(s: seq<nat>, x: nat, k: nat)
    requires k <= |s|
    ensures LastBefore(s, x, k).None? <==> forall m | 0 <= m < k :: s[m] != x
    ensures LastBefore(s, x, k).Some? ==> forall m | LastBefore(s, x, k).value < m < k :: s[m] != x
  {
    if k > 0 && s[k - 1] != x {
      LastBeforeIsLast(s, x, k - 1);
    }
  }

  /** Only the entries before `k` matter. */
  lemma {:induction false} LastBeforePrefix(s: seq<nat>, t: seq<nat>, x: nat, k: nat)
    requires k <= |s| && s <= t
    ensures LastBefore(t, x, k) == LastBefore(s, x, k)
  {
    if k > 0 {
      assert t[k - 1] == s[k - 1];
      LastBeforePrefix(s, t, x, k - 1);
    }
  }

  /** The number spoken after `s`: how far back the last number was spoken
      before, or 0 when it is new. */
  function Age(s: seq<nat>): nat
    requires |s| > 0
  {
    match LastBefore(s, s[|s| - 1], |s| - 1)
    case None => 0
    case Some(i) => |s| - 1 - i
  }

  /** The first `n` numbers spoken when the game starts with `data`. */
  function Game(data: seq<nat>, n: nat): (s: seq<nat>)
    requires 0 < |data| <= n
    ensures |s| == n
  {
    if n == |data| then data
    else
      var s := Game(data, n - 1);
      s + [Age(s)]
  }

  /** The game opens with the starting numbers. */
  lemma {:induction false} GameStartsWithData(data: seq<nat>, n: nat)
    requires 0 < |data| <= n
    ensures Game(data, n)[..|data|] == data
  {
    if n > |data| {
      var s := Game(data, n - 1);
      GameStartsWithData(data, n - 1);
      assert (s + [Age(s)])[..|data|] == s[..|data|];
    }
  }

  /** `SpokenNumbers` (main.rs:10-14): `storage` maps each number spoken
      before the last turn to the last turn (from 0) it was spoken on, `last`
      is the number spoken on the last turn and `step` counts the turns. */
  class SpokenNumbers {
    var storage: map<nat, nat>
    var step: nat
    var last: nat
    /** All numbers spoken so far. */
    ghost var spoken: seq<nat>

    ghost predicate Valid()
      reads this
    {
      && |spoken| == step > 0
      && last == spoken[step - 1]
      && (forall x :: LastBefore(spoken, x, step - 1) == if x in storage then Some(storage[x]) else None)
    }

    /** Every stored turn is before the last turn, so `step - 1 - index` in
        `next` is at least 1 (main.rs:53-54). */
    lemma StoredTurnsBeforeLast()
      requires Valid()
      ensures forall x | x in storage :: storage[x] + 2 <= step
    {
      forall x | x in storage
        ensures storage[x] + 2 <= step
      {
        assert LastBefore(spoken, x, step - 1) == Some(storage[x]);
      }
    }

    /** `with_capacity` (main.rs:21-38): the starting numbers are spoken,
        and each one before the last is stored with its latest turn. The
        capacity only sizes the map. */
    constructor WithCapacity(data: seq<nat>)
      requires |data| > 0
      ensures Valid() && spoken == data
    {
      var m: map<nat, nat> := map[];
      var l := 0;
      for i := 0 to |data|
        invariant i > 0 ==> l == data[i - 1]
        invariant i == 0 ==> m == map[]
        invariant i > 0 ==> forall x :: LastBefore(data, x, i - 1) == if x in m then Some(m[x]) else None
      {
        if i > 0 {
          m := m[l := i - 1];
        }
        l := data[i];
      }
      storage := m;
      step := |data|;
      last := l;
      spoken := data;
    }

    /** `push` (main.rs:40-44): the last number is stored with its turn,
        and `value` becomes the last number. */
    method Push(value: nat)
      requires Valid()
      modifies this
      ensures storage == old(storage)[old(last) := old(step) - 1]
      ensures last == value && step == old(step) + 1
      ensures spoken == old(spoken) + [value]
      ensures Valid()
    {
      ghost var before := spoken;
      forall x
        ensures LastBefore(before + [value], x, step) == if x == last then Some(step - 1) else LastBefore(before, x, step - 1)
      {
        LastBeforePrefix(before, before + [value], x, step - 1);
      }
      storage := storage[last := step - 1];
      last := value;
      step := step + 1;
      spoken := spoken + [value];
    }

    /** `next` (main.rs:50-61): the age of the last number, which is then
        spoken. Every stored turn is before the last one, so the age never
        underflows. */
    method Next() returns (age: nat)
      requires Valid()
      modifies this
      ensures age == Age(old(spoken))
      ensures spoken == old(spoken) + [age]
      ensures Valid()
    {
      if last in storage {
        StoredTurnsBeforeLast();
        age := step - 1 - storage[last];
      } else {
        age := 0;
      }
      Push(age);
    }
  }

  /** `spoken_number` (main.rs:64-71): the `n`-th number spoken (counting
      from 1), reached by `nth(n - 1 - len)` on the game. `None` stands for
      the failed assertions that the start is non-empty and that `n` lies
      beyond it. */
  method SpokenNumber(data: seq<nat>, n: nat) returns (r: Option<nat>)
    ensures r.Some? <==> 0 < |data| < n
    ensures r.Some? ==> r.value == Game(data, n)[n - 1]
  {
    if |data| == 0 || n <= |data| {
      return None;
    }
    var s := new SpokenNumbers.WithCapacity(data);
    var count := |data|;
    var last := 0;
    while count < n
      invariant |data| <= count <= n
      invariant s.Valid() && s.spoken == Game(data, count)
      invariant count > |data| ==> last == s.spoken[count - 1]
      decreases n - count
    {
      GameNext(data, count);
      last := s.Next();
      count := count + 1;
    }
    r := Some(last);
  }

  lemma GameNext(data: seq<nat>, n: nat)
    requires 0 < |data| <= n
    ensures Game(data, n + 1) == Game(data, n) + [Age(Game(data, n))]
  {
  }

  /** The game goes on with 0 after a number not spoken before. */
  lemma GameStepNew(data: seq<nat>, n: nat)
    requires 0 < |data| <= n
    requires forall m | 0 <= m < n - 1 :: Game(data, n)[m] != Game(data, n)[n - 1]
    ensures Game(data, n + 1) == Game(data, n) + [0]
  {
    var s := Game(data, n);
    LastBeforeIsLast(s, s[n - 1], n - 1);
  }

  /** The game goes on with the distance back to the last time the number
      was spoken, at position `k`. */
  lemma GameStepSeen(data: seq<nat>, n: nat, k: nat)
    requires 0 < |data| <= n && k < n - 1
    requires Game(data, n)[k] == Game(data, n)[n - 1]
    requires forall m | k < m < n - 1 :: Game(data, n)[m] != Game(data, n)[n - 1]
    ensures Game(data, n + 1) == Game(data, n) + [n - 1 - k]
  {
    var s := Game(data, n);
    LastBeforeIsLast(s, s[n - 1], n - 1);
    var i := LastBefore(s, s[n - 1], n - 1).value;
    assert !(i < k) && !(k < i);
  }

  /** The starting numbers of the first unit test (main.rs:111). */
  const SampleStart: seq<nat> := [0, 3, 6]

  /** With 0, 3, 6 the turns go 0, 3, 6, 0, 3, 3, 1, 0, 4, 0: the tenth
      number is 0 (main.rs:110-113). The turn is a parameter so that the
      game is evaluated only once, in the assertion. */
  lemma SampleTurnTen(turn: nat)
    requires turn == 10
    ensures Game(SampleStart, turn)[turn - 1] == 0
  {
    assert Game(SampleStart, 6) == [0, 3, 6, 0, 3, 3];
    assert Game(SampleStart, 8) == [0, 3, 6, 0, 3, 3, 1, 0];
    assert Game(SampleStart, 10) == [0, 3, 6, 0, 3, 3, 1, 0, 4, 0];
  }
}
