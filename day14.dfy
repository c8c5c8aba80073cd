/** Day 14: docking data. A program of `mask` and `mem` instructions writes to
    a memory of 36-bit cells. Part one masks the written value; part two masks
    the address, whose floating bits take every combination of values. */
module Day14 {
  import opened Common

  /** `2^64`: addresses are `usize` and values `u64`. */
  const U64Limit: nat := 0x1_0000_0000_0000_0000

  /** `1 << 36`: the bound asserted on part-two addresses. */
  const AddressLimit: nat := 0x10_0000_0000

  datatype Bit = Zero | One | Floating

  datatype Instruction = Mask(bits: seq<Bit>) | Mem(address: nat, value: nat)

  // ---------------------------------------------------------------------------
  // Bits of a number

  /** Bit `n` of `v` (`v & (1 << n) > 0`). */
  predicate TestBit(v: nat, n: nat)
  {
    if n == 0 then v % 2 == 1 else TestBit(v / 2, n - 1)
  }

  /** `v | (1 << n)`. */
  function SetBit(v: nat, n: nat): nat
  {
    if n == 0 then (if v % 2 == 1 then v else v + 1) else 2 * SetBit(v / 2, n - 1) + v % 2
  }

  /** `v & !(1 << n)`. */
  function ClearBit(v: nat, n: nat): nat
  {
    if n == 0 then v - v % 2 else 2 * ClearBit(v / 2, n - 1) + v % 2
  }

  lemma {:induction false} SetBitBits(v: nat, i: nat, n: nat)
    ensures TestBit(SetBit(v, i), n) == (n == i || TestBit(v, n))
  {
    if i == 0 {
      if n > 0 {
        assert SetBit(v, 0) / 2 == v / 2;
      }
    } else if n > 0 {
      assert SetBit(v, i) / 2 == SetBit(v / 2, i - 1);
      SetBitBits(v / 2, i - 1, n - 1);
    }
  }

  lemma {:induction false} ClearBitBits(v: nat, i: nat, n: nat)
    ensures TestBit(ClearBit(v, i), n) == (n != i && TestBit(v, n))
  {
    if i == 0 {
      if n > 0 {
        assert ClearBit(v, 0) / 2 == v / 2;
      }
    } else if n > 0 {
      assert ClearBit(v, i) / 2 == ClearBit(v / 2, i - 1);
      ClearBitBits(v / 2, i - 1, n - 1);
    }
  }

  /** A number is determined by its bits. */
  lemma {:induction false} BitsDetermine(a: nat, b: nat)
    requires forall n: nat :: TestBit(a, n) == TestBit(b, n)
    ensures a == b
    decreases a + b
  {
    assert TestBit(a, 0) == TestBit(b, 0);
    if a != 0 || b != 0 {
      forall n: nat ensures TestBit(a / 2, n) == TestBit(b / 2, n)
      {
        assert TestBit(a, n + 1) == TestBit(b, n + 1);
      }
      BitsDetermine(a / 2, b / 2);
    }
  }

  lemma {:induction false} BitsBelow(v: nat, w: nat, n: nat)
    requires v < Pow2(w) && n >= w
    ensures !TestBit(v, n)
  {
    if n > 0 {
      if w == 0 {
        BitsBelow(0, 0, n - 1);
      } else {
        BitsBelow(v / 2, w - 1, n - 1);
      }
    }
  }

  // ---------------------------------------------------------------------------
  // Part one: masking a value

  /** One step of `apply_mask_to_value` on bit `pos`. */
  function MaskStep(m: Bit, pos: nat, v: nat): nat
  {
    match m
    case One => SetBit(v, pos)
    case Zero => ClearBit(v, pos)
    case Floating => v
  }

  /** The value after the loop has treated the `i` last mask elements. */
  function ApplyMask(mask: seq<Bit>, v: nat, i: nat): nat
    requires i <= |mask|
  {
    if i == 0 then v else MaskStep(mask[|mask| - i], i - 1, ApplyMask(mask, v, i - 1))
  }

  function MaskedValue(mask: seq<Bit>, v: nat): nat
  {
    ApplyMask(mask, v, |mask|)
  }

  /** What the mask makes of bit `n` of `v`: the last mask element governs
      bit 0; One sets, Zero clears, Floating and bits beyond the mask keep. */
  predicate MaskBit(mask: seq<Bit>, v: nat, n: nat)
  {
    if n < |mask| then
      match mask[|mask| - 1 - n]
      case One => true
      case Zero => false
      case Floating => TestBit(v, n)
    else TestBit(v, n)
  }

  lemma {:induction false} ApplyMaskBits(mask: seq<Bit>, v: nat, i: nat, n: nat)
    requires i <= |mask|
    ensures TestBit(ApplyMask(mask, v, i), n) == if n < i then MaskBit(mask, v, n) else TestBit(v, n)
  {
    if i > 0 {
      var before := ApplyMask(mask, v, i - 1);
      ApplyMaskBits(mask, v, i - 1, n);
      match mask[|mask| - i]
      case One => SetBitBits(before, i - 1, n);
      case Zero => ClearBitBits(before, i - 1, n);
      case Floating =>
    }
  }

  /** The masked value, bit by bit. */
  lemma MaskedValueBits(mask: seq<Bit>, v: nat)
    ensures forall n: nat :: TestBit(MaskedValue(mask, v), n) == MaskBit(mask, v, n)
  {
    forall n: nat ensures TestBit(MaskedValue(mask, v), n) == MaskBit(mask, v, n)
    {
      ApplyMaskBits(mask, v, |mask|, n);
    }
  }

  /** An all-Floating mask (the initial mask of part one) leaves every value
      as it is. */
  lemma FloatingMaskIsIdentity(mask: seq<Bit>, v: nat)
    requires forall k | 0 <= k < |mask| :: mask[k] == Floating
    ensures MaskedValue(mask, v) == v
  {
    MaskedValueBits(mask, v);
    BitsDetermine(MaskedValue(mask, v), v);
  }

  /** `apply_mask_to_value` (main.rs:73-82). */
  method ApplyMaskToValue(mask: seq<Bit>, value0: nat) returns (value: nat)
    ensures value == MaskedValue(mask, value0)
    ensures forall n: nat :: TestBit(value, n) == MaskBit(mask, value0, n)
  {
    value := value0;
    for i := 0 to |mask|
      invariant value == ApplyMask(mask, value0, i)
    {
      var m := mask[|mask| - 1 - i];
      match m
      case One => value := SetBit(value, i);
      case Zero => value := ClearBit(value, i);
      case Floating =>
    }
    MaskedValueBits(mask, value0);
  }

  function AllFloating(n: nat): (m: seq<Bit>)
    ensures |m| == n && forall k | 0 <= k < n :: m[k] == Floating
  {
    seq(n, k => Floating)
  }

  /** Memory and current mask of part one after the given instructions. */
  datatype Machine = Machine(memory: map<nat, nat>, mask: seq<Bit>)

  function RunOne(data: seq<Instruction>): Machine
  {
    if |data| == 0 then Machine(map[], AllFloating(36))
    else
      var m := RunOne(data[..|data| - 1]);
      match data[|data| - 1]
      case Mask(bits) => m.(mask := bits)
      case Mem(a, v) => m.(memory := m.memory[a := MaskedValue(m.mask, v)])
  }

  /** The mask in force before instruction `k`: the last `mask` before it, or
      the initial all-Floating mask. */
  function MaskBefore(data: seq<Instruction>, k: nat, initial: seq<Bit>): seq<Bit>
    requires k <= |data|
  {
    if k == 0 then initial
    else if data[k - 1].Mask? then data[k - 1].bits
    else MaskBefore(data, k - 1, initial)
  }

  lemma {:induction false} RunOneMask(data: seq<Instruction>)
    ensures RunOne(data).mask == MaskBefore(data, |data|, AllFloating(36))
  {
    if |data| > 0 {
      var init := data[..|data| - 1];
      RunOneMask(init);
      MaskBeforePrefix(data, |data| - 1, AllFloating(36));
    }
  }

  lemma {:induction false} MaskBeforePrefix(data: seq<Instruction>, k: nat, initial: seq<Bit>)
    requires k <= |data|
    ensures MaskBefore(data[..k], k, initial) == MaskBefore(data, k, initial)
    decreases k
  {
    if k > 0 {
      MaskBeforePrefix(data, k - 1, initial);
      assert data[..k][..k - 1] == data[..k - 1];
      MaskBeforePrefix(data[..k], k - 1, initial);
    }
  }

  /** Part one: the cell of the last write to an address holds the written
      value under the mask in force at that write. */
  lemma {:induction false} LastWriteWins(data: seq<Instruction>, k: nat)
    requires k < |data| && data[k].Mem?
    requires forall j | k < j < |data| :: !(data[j].Mem? && data[j].address == data[k].address)
    ensures data[k].address in RunOne(data).memory
    ensures RunOne(data).memory[data[k].address] == MaskedValue(MaskBefore(data, k, AllFloating(36)), data[k].value)
  {
    var init := data[..|data| - 1];
    if k == |data| - 1 {
      RunOneMask(init);
      MaskBeforePrefix(data, k, AllFloating(36));
    } else {
      assert forall j | k < j < |init| :: init[j] == data[j];
      LastWriteWins(init, k);
      MaskBeforePrefix(data, k, AllFloating(36));
      assert data[..k] == init[..k];
      MaskBeforePrefix(init, k, AllFloating(36));
    }
  }

  /** A set of numbers holding `x` has a least element. */
  lemma {:induction false} LeastExists(keys: set<nat>, x: nat)
    requires x in keys
    ensures exists k :: k in keys && forall j | j in keys :: k <= j
    decreases x
  {
    if !(forall j | j in keys :: x <= j) {
      var y :| y in keys && y < x;
      LeastExists(keys, y);
    }
  }

  /** The sum of the cells at `keys`, taken in increasing order of address. */
  function SumOver(memory: map<nat, nat>, keys: set<nat>): nat
    requires keys <= memory.Keys
    decreases keys
  {
    if keys == {} then 0
    else
      var x :| x in keys;
      LeastExists(keys, x);
      var k :| k in keys && forall j | j in keys :: k <= j;
      memory[k] + SumOver(memory, keys - {k})
  }

  /** `memory.values().sum()`. */
  function SumValues(memory: map<nat, nat>): nat
  {
    SumOver(memory, memory.Keys)
  }

  /** `solve_part_one` (main.rs:84-101). */
  method SolvePartOne(data: seq<Instruction>) returns (memory: map<nat, nat>, sum: nat)
    ensures memory == RunOne(data).memory && sum == SumValues(memory)
  {
    memory := map[];
    var globalMask := AllFloating(36);
    for q := 0 to |data|
      invariant Machine(memory, globalMask) == RunOne(data[..q])
    {
      assert data[..q + 1][..q] == data[..q];
      match data[q]
      case Mask(bits) =>
        globalMask := bits;
      case Mem(address, value) =>
        var masked := ApplyMaskToValue(globalMask, value);
        memory := memory[address := masked];
    }
    assert data[..|data|] == data;
    sum := SumValues(memory);
  }

  // ---------------------------------------------------------------------------
  // Part two: floating addresses

  /** `get_bit` (main.rs:103-105). */
  function GetBit(v: nat, n: nat): (b: Bit)
    ensures b == One <==> TestBit(v, n)
    ensures b != Floating
  {
    if TestBit(v, n) then One else Zero
  }

  /** `bits_to_u64` (main.rs:107-117): the last element is bit 0; a Floating
      element panics (`None`). */
  function BitsToNumber(bits: seq<Bit>): (r: Option<nat>)
    ensures r.None? <==> Floating in bits
    ensures r.Some? ==> r.value < Pow2(|bits|)
  {
    if |bits| == 0 then Some(0)
    else
      var init := bits[..|bits| - 1];
      assert bits == init + [bits[|bits| - 1]];
      match BitsToNumber(init)
      case None => None
      case Some(high) =>
        match bits[|bits| - 1]
        case Zero => Some(2 * high)
        case One => Some(2 * high + 1)
        case Floating => None
  }

  lemma {:induction false} BitsToNumberBits(bits: seq<Bit>, n: nat)
    requires Floating !in bits
    ensures TestBit(BitsToNumber(bits).value, n) == (n < |bits| && bits[|bits| - 1 - n] == One)
  {
    if |bits| > 0 {
      var init := bits[..|bits| - 1];
      assert Floating !in init by {
        assert forall k | 0 <= k < |init| :: init[k] == bits[k];
      }
      if n > 0 {
        BitsToNumberBits(init, n - 1);
        assert BitsToNumber(bits).value / 2 == BitsToNumber(init).value;
      }
    } else {
      BitsBelow(0, 0, n);
    }
  }

  /** `masked` (main.rs:142-150): the address bit where the mask is Zero, the
      mask bit (One or Floating) elsewhere; element `i` is bit `|mask| - i - 1`. */
  function Masked(mask: seq<Bit>, address: nat): (ms: seq<Bit>)
    ensures |ms| == |mask|
    ensures forall i | 0 <= i < |mask| :: ms[i] == if mask[i] == Zero then GetBit(address, |mask| - i - 1) else mask[i]
  {
    seq(|mask|, i requires 0 <= i < |mask| => if mask[i] == Zero then GetBit(address, |mask| - i - 1) else mask[i])
  }

  /** `floating_bits` (main.rs:134-139): the indices of the Floating elements,
      in increasing order. */
  function FloatingPositions(mask: seq<Bit>): (ps: seq<nat>)
    ensures forall k | 0 <= k < |ps| :: ps[k] < |mask| && mask[ps[k]] == Floating
    ensures forall i | 0 <= i < |mask| && mask[i] == Floating :: i in ps
    ensures forall k, m | 0 <= k < m < |ps| :: ps[k] < ps[m]
  {
    if |mask| == 0 then []
    else
      var init := mask[..|mask| - 1];
      var ps := FloatingPositions(init);
      ps + if mask[|mask| - 1] == Floating then [|mask| - 1] else []
  }

  /** `Itertools::powerset`: every subset of the elements, as a sequence. The
      program's order (by size) is not modelled: every subset leads to a write
      of the same value, so the order does not change the final memory. */
  function Powerset(ps: seq<nat>): (ss: seq<set<nat>>)
    ensures |ss| == Pow2(|ps|)
    ensures forall k | 0 <= k < |ss| :: forall x | x in ss[k] :: x in ps
  {
    if |ps| == 0 then [{}]
    else
      var init := ps[..|ps| - 1];
      var last := ps[|ps| - 1];
      var ss := Powerset(init);
      ss + seq(|ss|, k requires 0 <= k < |ss| => ss[k] + {last})
  }

  lemma {:induction false} PowersetComplete(ps: seq<nat>, t: set<nat>)
    requires forall x | x in t :: x in ps
    ensures t in Powerset(ps)
  {
    if |ps| == 0 {
      assert t == {};
    } else {
      var init := ps[..|ps| - 1];
      var last := ps[|ps| - 1];
      var ss := Powerset(init);
      var t' := t - {last};
      assert forall x | x in t' :: x in init by {
        forall x | x in t' ensures x in init
        {
          var k :| 0 <= k < |ps| && ps[k] == x;
          assert k < |ps| - 1;
          assert init[k] == x;
        }
      }
      PowersetComplete(init, t');
      var k :| 0 <= k < |ss| && ss[k] == t';
      if last in t {
        assert t == ss[k] + {last};
        assert Powerset(ps)[|ss| + k] == t;
      } else {
        assert t == t';
        assert Powerset(ps)[k] == t;
      }
    }
  }

  /** Over distinct elements, every subset appears exactly once. */
  lemma {:induction false} PowersetDistinct(ps: seq<nat>)
    requires forall k, m | 0 <= k < m < |ps| :: ps[k] < ps[m]
    ensures forall k, m | 0 <= k < m < |Powerset(ps)| :: Powerset(ps)[k] != Powerset(ps)[m]
  {
    if |ps| > 0 {
      var init := ps[..|ps| - 1];
      var last := ps[|ps| - 1];
      PowersetDistinct(init);
      var ss := Powerset(init);
      assert forall k | 0 <= k < |ss| :: last !in ss[k] by {
        forall k | 0 <= k < |ss| ensures last !in ss[k]
        {
          LastNotInEarlier(ps, ss[k]);
        }
      }
      PowersetStepDistinct(ss, last);
    }
  }

  lemma LastNotInEarlier(ps: seq<nat>, t: set<nat>)
    requires |ps| > 0 && forall k, m | 0 <= k < m < |ps| :: ps[k] < ps[m]
    requires forall x | x in t :: x in ps[..|ps| - 1]
    ensures ps[|ps| - 1] !in t
  {
  }

  lemma PowersetStepDistinct(ss: seq<set<nat>>, last: nat)
    requires forall k, m | 0 <= k < m < |ss| :: ss[k] != ss[m]
    requires forall k | 0 <= k < |ss| :: last !in ss[k]
    ensures var all := ss + seq(|ss|, k requires 0 <= k < |ss| => ss[k] + {last});
      forall k, m | 0 <= k < m < |all| :: all[k] != all[m]
  {
    var all := ss + seq(|ss|, k requires 0 <= k < |ss| => ss[k] + {last});
    forall k, m | 0 <= k < m < |all| ensures all[k] != all[m]
    {
      if m < |ss| {
      } else if k >= |ss| {
        assert all[k] - {last} == ss[k - |ss|];
        assert all[m] - {last} == ss[m - |ss|];
      } else {
        assert last in all[m] && last !in all[k];
      }
    }
  }

  /** The address bits for one subset of floating positions (main.rs:171-180):
      a Floating element becomes One iff its index is in the subset. */
  function Fill(masked: seq<Bit>, subset: set<nat>): (bits: seq<Bit>)
    ensures |bits| == |masked| && Floating !in bits
  {
    seq(|masked|, i requires 0 <= i < |masked| =>
      if masked[i] == Floating then (if i in subset then One else Zero) else masked[i])
  }

  /** The address written for `subset`. */
  function AddressFor(mask: seq<Bit>, address: nat, subset: set<nat>): nat
  {
    BitsToNumber(Fill(Masked(mask, address), subset)).value
  }

  /** Bit `n` of a written address: past the mask it is clear; under a Zero
      it is the address bit, under a One it is set, under a Floating it says
      whether the position is in the subset. */
  lemma AddressBits(mask: seq<Bit>, address: nat, subset: set<nat>, n: nat)
    ensures TestBit(AddressFor(mask, address, subset), n) ==
      (n < |mask| && match mask[|mask| - 1 - n]
        case Zero => TestBit(address, n)
        case One => true
        case Floating => |mask| - 1 - n in subset)
  {
    BitsToNumberBits(Fill(Masked(mask, address), subset), n);
  }

  /** Different subsets of the floating positions give different addresses. */
  lemma DistinctSubsetsDistinctAddresses(mask: seq<Bit>, address: nat, s1: set<nat>, s2: set<nat>)
    requires forall x | x in s1 :: x < |mask| && mask[x] == Floating
    requires forall x | x in s2 :: x < |mask| && mask[x] == Floating
    requires s1 != s2
    ensures AddressFor(mask, address, s1) != AddressFor(mask, address, s2)
  {
    var x :| (x in s1 && x !in s2) || (x in s2 && x !in s1);
    var n := |mask| - 1 - x;
    AddressBits(mask, address, s1, n);
    AddressBits(mask, address, s2, n);
  }

  /** The addresses written by one part-two `mem` instruction. */
  function WrittenAddresses(mask: seq<Bit>, address: nat): set<nat>
  {
    var ss := Powerset(FloatingPositions(mask));
    set k | 0 <= k < |ss| :: AddressFor(mask, address, ss[k])
  }

  /** One write per subset of the k floating positions: 2^k subsets, each
      subset listed once, each giving its own address. */
  lemma OneAddressPerSubset(mask: seq<Bit>, address: nat)
    ensures |Powerset(FloatingPositions(mask))| == Pow2(|FloatingPositions(mask)|)
    ensures var ss := Powerset(FloatingPositions(mask));
      forall k, m | 0 <= k < m < |ss| :: AddressFor(mask, address, ss[k]) != AddressFor(mask, address, ss[m])
  {
    var fs := FloatingPositions(mask);
    var ss := Powerset(fs);
    PowersetDistinct(fs);
    forall k, m | 0 <= k < m < |ss| ensures AddressFor(mask, address, ss[k]) != AddressFor(mask, address, ss[m])
    {
      DistinctSubsetsDistinctAddresses(mask, address, ss[k], ss[m]);
    }
  }

  /** Every address that agrees with the masked address outside the floating
      positions is written. */
  lemma EveryMatchingAddressWritten(mask: seq<Bit>, address: nat, subset: set<nat>)
    requires forall x | x in subset :: x < |mask| && mask[x] == Floating
    ensures AddressFor(mask, address, subset) in WrittenAddresses(mask, address)
  {
    var fs := FloatingPositions(mask);
    PowersetComplete(fs, subset);
  }

  /** Writes of `value` at the addresses of subsets `ss[..j]`. */
  function WriteSubsets(memory: map<nat, nat>, mask: seq<Bit>, address: nat, value: nat, ss: seq<set<nat>>, j: nat): map<nat, nat>
    requires j <= |ss|
  {
    if j == 0 then memory
    else WriteSubsets(memory, mask, address, value, ss, j - 1)[AddressFor(mask, address, ss[j - 1]) := value]
  }

  /** All the writes of one instruction: the memory gains `value` at every
      written address and is unchanged elsewhere. */
  lemma WriteSubsetsEffect(memory: map<nat, nat>, mask: seq<Bit>, address: nat, value: nat, ss: seq<set<nat>>, j: nat)
    requires j <= |ss|
    ensures var m := WriteSubsets(memory, mask, address, value, ss, j);
      && (forall a | a in memory :: a in m)
      && (forall k | 0 <= k < j :: AddressFor(mask, address, ss[k]) in m && m[AddressFor(mask, address, ss[k])] == value)
      && (forall a | a in m && !(exists k | 0 <= k < j :: AddressFor(mask, address, ss[k]) == a) :: a in memory && m[a] == memory[a])
  {
    WriteSubsetsKeeps(memory, mask, address, value, ss, j);
    WriteSubsetsWrites(memory, mask, address, value, ss, j);
    WriteSubsetsOthers(memory, mask, address, value, ss, j);
  }

  lemma {:induction false} WriteSubsetsKeeps(memory: map<nat, nat>, mask: seq<Bit>, address: nat, value: nat, ss: seq<set<nat>>, j: nat)
    requires j <= |ss|
    ensures forall a | a in memory :: a in WriteSubsets(memory, mask, address, value, ss, j)
  {
    if j > 0 {
      WriteSubsetsKeeps(memory, mask, address, value, ss, j - 1);
    }
  }

  lemma {:induction false} WriteSubsetsWrites(memory: map<nat, nat>, mask: seq<Bit>, address: nat, value: nat, ss: seq<set<nat>>, j: nat)
    requires j <= |ss|
    ensures var m := WriteSubsets(memory, mask, address, value, ss, j);
      forall k | 0 <= k < j :: AddressFor(mask, address, ss[k]) in m && m[AddressFor(mask, address, ss[k])] == value
  {
    if j > 0 {
      WriteSubsetsWrites(memory, mask, address, value, ss, j - 1);
    }
  }

  lemma {:induction false} WriteSubsetsOthers(memory: map<nat, nat>, mask: seq<Bit>, address: nat, value: nat, ss: seq<set<nat>>, j: nat)
    requires j <= |ss|
    ensures var m := WriteSubsets(memory, mask, address, value, ss, j);
      forall a | a in m && !(exists k | 0 <= k < j :: AddressFor(mask, address, ss[k]) == a) :: a in memory && m[a] == memory[a]
  {
    if j > 0 {
      WriteSubsetsOthers(memory, mask, address, value, ss, j - 1);
    }
  }

  /** The `for_each` of main.rs:168-185 for one `mem` instruction. */
  method WriteFloating(memory0: map<nat, nat>, mask: seq<Bit>, address: nat, value: nat) returns (memory: map<nat, nat>)
    ensures memory == WriteSubsets(memory0, mask, address, value, Powerset(FloatingPositions(mask)), |Powerset(FloatingPositions(mask))|)
  {
    var masked := Masked(mask, address);
    var subsets := Powerset(FloatingPositions(mask));
    memory := memory0;
    for j := 0 to |subsets|
      invariant memory == WriteSubsets(memory0, mask, address, value, subsets, j)
    {
      var bits := Fill(masked, subsets[j]);
      var addr := BitsToNumber(bits).value;
      memory := memory[addr := value];
    }
  }

  /** Part two on the instructions; `None` when an address fails the 36-bit
      assertion. */
  function RunTwo(data: seq<Instruction>): Option<Machine>
  {
    if |data| == 0 then Some(Machine(map[], seq(36, k => Zero)))
    else
      match RunTwo(data[..|data| - 1])
      case None => None
      case Some(m) =>
        match data[|data| - 1]
        case Mask(bits) => Some(m.(mask := bits))
        case Mem(a, v) =>
          if a >= AddressLimit then None
          else
            var ss := Powerset(FloatingPositions(m.mask));
            Some(m.(memory := WriteSubsets(m.memory, m.mask, a, v, ss, |ss|)))
  }

  /** `solve_part_two` (main.rs:119-192). */
  method SolvePartTwo(data: seq<Instruction>) returns (r: Option<(map<nat, nat>, nat)>)
    ensures r.None? <==> RunTwo(data).None?
    ensures r.Some? ==> r.value.0 == RunTwo(data).value.memory && r.value.1 == SumValues(r.value.0)
  {
    var memory: map<nat, nat> := map[];
    var globalMask := seq(36, k => Zero);
    for q := 0 to |data|
      invariant RunTwo(data[..q]) == Some(Machine(memory, globalMask))
    {
      assert data[..q + 1][..q] == data[..q];
      match data[q]
      case Mask(bits) =>
        globalMask := bits;
      case Mem(address, value) =>
        if address >= AddressLimit {
          RunTwoStaysFailed(data, q + 1);
          assert data[..|data|] == data;
          return None;
        }
        memory := WriteFloating(memory, globalMask, address, value);
    }
    assert data[..|data|] == data;
    r := Some((memory, SumValues(memory)));
  }

  /** A failed assertion ends the program: later instructions do not revive
      it. */
  lemma {:induction false} RunTwoStaysFailed(data: seq<Instruction>, q: nat)
    requires q <= |data| && RunTwo(data[..q]).None?
    ensures RunTwo(data).None?
    decreases |data| - q
  {
    if q < |data| {
      assert data[..q + 1][..q] == data[..q];
      RunTwoStaysFailed(data, q + 1);
    } else {
      assert data[..q] == data;
    }
  }

  // ---------------------------------------------------------------------------
  // Parsing (main.rs:25-61)

  /** `Bit::try_from(char)` (main.rs:53-60). */
  function BitOf(c: char): (r: Option<Bit>)
    ensures r.Some? <==> c in "X01"
  {
    match c
    case '0' => Some(Zero)
    case '1' => Some(One)
    case 'X' => Some(Floating)
    case _ => None
  }

  function BitChar(b: Bit): char
  {
    match b
    case Zero => '0'
    case One => '1'
    case Floating => 'X'
  }

  /** `Instruction::from_str` (main.rs:28-47): `mask = ` and exactly 36 of
      `X01`, or `mem[a] = v` with `a` a `usize` and `v` a `u64`; anything else
      is an error (`None`). */
  function ParseInstruction(s: string): (r: Option<Instruction>)
    ensures r.Some? && r.value.Mask? ==> |r.value.bits| == 36
    ensures r.Some? && r.value.Mem? ==> r.value.address < U64Limit && r.value.value < U64Limit
  {
    if "mask = " <= s && |s| == 43 && forall k | 7 <= k < 43 :: s[k] in "X01" then
      Some(Mask(seq(36, k requires 0 <= k < 36 => BitOf(s[7 + k]).value)))
    else if "mem[" <= s then
      match DigitsThen(s[4..], "] = ")
      case None => None
      case Some((a, v)) =>
        if |v| == 0 || !AllDigits(v) then None
        else
          match (ParseUnsigned(a, U64Limit), ParseUnsigned(v, U64Limit))
          case (Some(address), Some(value)) => Some(Mem(address, value))
          case _ => None
    else None
  }

  function RenderInstruction(i: Instruction): string
  {
    match i
    case Mask(bits) => "mask = " + seq(|bits|, k requires 0 <= k < |bits| => BitChar(bits[k]))
    case Mem(a, v) => "mem[" + (Decimal(a) + ("] = " + Decimal(v)))
  }

  /** `s` is the line `mem[a] = v` with two non-empty digit runs. */
  predicate MemText(s: string, a: string, v: string)
  {
    |a| > 0 && AllDigits(a) && |v| > 0 && AllDigits(v) && s == "mem[" + (a + ("] = " + v))
  }

  /** Only the two line shapes are accepted: an accepted mask line is the
      text of its mask, and an accepted `mem` line is `mem[a] = v` whose digit
      runs read as the address and the value. */
  lemma ParseInstructionText(s: string)
    requires ParseInstruction(s).Some?
    ensures ParseInstruction(s).value.Mask? ==> s == RenderInstruction(ParseInstruction(s).value)
    ensures ParseInstruction(s).value.Mem? ==>
      && |s| >= 4 && DigitsThen(s[4..], "] = ").Some?
      && var (a, v) := DigitsThen(s[4..], "] = ").value;
      && MemText(s, a, v)
      && ParseUnsigned(a, U64Limit) == Some(ParseInstruction(s).value.address)
      && ParseUnsigned(v, U64Limit) == Some(ParseInstruction(s).value.value)
  {
    var i := ParseInstruction(s).value;
    if "mask = " <= s && |s| == 43 && forall k | 7 <= k < 43 :: s[k] in "X01" {
      MaskTextRender(s, i.bits);
    } else {
      var (a, v) := DigitsThen(s[4..], "] = ").value;
      MemTextJoin(s, a, v);
    }
  }

  lemma MaskTextRender(s: string, bits: seq<Bit>)
    requires "mask = " <= s && |s| == 43 && forall k | 7 <= k < 43 :: s[k] in "X01"
    requires bits == seq(36, k requires 0 <= k < 36 => BitOf(s[7 + k]).value)
    ensures s == RenderInstruction(Mask(bits))
  {
    var t := RenderInstruction(Mask(bits));
    forall k | 0 <= k < 43
      ensures s[k] == t[k]
    {
      if k >= 7 {
        assert s[k] in "X01";
        assert t[k] == BitChar(bits[k - 7]);
      } else {
        assert s[k] == "mask = "[k];
      }
    }
  }

  lemma MemTextJoin(s: string, a: string, v: string)
    requires "mem[" <= s && s[4..] == a + "] = " + v
    ensures s == "mem[" + (a + ("] = " + v))
  {
    assert s == s[..4] + s[4..] && s[..4] == "mem[";
  }

  /** Conversely, every `mem[a] = v` line whose digit runs fit a `u64` is
      accepted with their values, leading zeros included. */
  lemma MemTextParses(s: string, a: string, v: string)
    requires MemText(s, a, v)
    requires ParseUnsigned(a, U64Limit).Some? && ParseUnsigned(v, U64Limit).Some?
    ensures ParseInstruction(s) == Some(Mem(ParseUnsigned(a, U64Limit).value, ParseUnsigned(v, U64Limit).value))
  {
    assert !("mask = " <= s) by {
      assert s[1] == 'e' && "mask = "[1] == 'a';
    }
    assert "mem[" <= s;
    assert s[4..] == a + "] = " + v;
    DigitsThenOf(a, "] = ", v);
  }

  predicate WellFormedInstruction(i: Instruction)
  {
    match i
    case Mask(bits) => |bits| == 36
    case Mem(a, v) => a < U64Limit && v < U64Limit
  }

  /** Every well-formed instruction reads back from its text. */
  lemma ParseRenderInstruction(i: Instruction)
    requires WellFormedInstruction(i)
    ensures ParseInstruction(RenderInstruction(i)) == Some(i)
  {
    var s := RenderInstruction(i);
    match i
    case Mask(bits) =>
      assert forall k | 7 <= k < 43 :: s[k] == BitChar(bits[k - 7]);
      assert forall k | 7 <= k < 43 :: s[k] in "X01";
      var parsed := seq(36, k requires 0 <= k < 36 => BitOf(s[7 + k]).value);
      assert forall k | 0 <= k < 36 :: parsed[k] == bits[k];
      assert parsed == bits;
    case Mem(a, v) =>
      var da, dv := Decimal(a), Decimal(v);
      assert !("mask = " <= s) by {
        assert s[1] == 'e' && "mask = "[1] == 'a';
      }
      assert s[4..] == da + "] = " + dv;
      DigitsThenOf(da, "] = ", dv);
      ParseUnsignedDecimal(a, U64Limit);
      ParseUnsignedDecimal(v, U64Limit);
  }
}
