/** The docking program's bitmasks (`y2020/src/d14/mod.rs`). A mask is 36
    characters of `X`, `0` and `1`, most significant first. In part one a
    mask overwrites a value's bits where it has `0` or `1` and keeps them
    where it has `X`; in part two it sets an address's bits where it has
    `1` and lets every `X` bit float, so one write reaches every
    combination of the floating bits. Values and addresses are `u64`. */
module Bitmask {
  import opened Wrappers

  datatype MaskBit = X | Zero | One

  /** The regular expression admits exactly 36 mask characters. */
  const Width: int := 36

  type Mask = m: seq<MaskBit> | |m| == Width witness seq(36, _ => X)

  /** Bit `p` of `v`, counting from the least significant. */
  predicate Bit(v: bv64, p: bv7)
    requires p < 64
  {
    (v >> p) & 1 == 1
  }

  lemma OrBit(a: bv64, b: bv64, q: bv7)
    requires q < 64
    ensures Bit(a | b, q) == (Bit(a, q) || Bit(b, q))
  {
  }

  lemma AndBit(a: bv64, b: bv64, q: bv7)
    requires q < 64
    ensures Bit(a & b, q) == (Bit(a, q) && Bit(b, q))
  {
  }

  /** `u64::from_str_radix(_, 2)`: binary digits, most significant first. */
  function FromBinary(bits: seq<bool>): bv64
    requires |bits| <= 64
    decreases |bits|
  {
    if |bits| == 0 then 0
    else (FromBinary(bits[..|bits| - 1]) << 1) | (if bits[|bits| - 1] then 1 else 0)
  }

  lemma ShiftInBit(v: bv64, x: bool, q: bv7)
    requires q < 64
    ensures Bit((v << 1) | (if x then 1 else 0), q) == if q == 0 then x else Bit(v, q - 1)
  {
  }

  lemma ZeroBit(q: bv7)
    requires q < 64
    ensures !Bit(0, q)
  {
  }

  lemma Predecessor(q: bv7)
    requires q > 0
    ensures (q - 1) as int == q as int - 1
  {
  }

  /** Bit `q` of a parsed number is the `q`-th digit from the right, and 0
      beyond the digits. */
  lemma {:induction false} FromBinaryBit(bits: seq<bool>, q: bv7)
    requires |bits| <= 64 && q < 64
    ensures Bit(FromBinary(bits), q) == ((q as int) < |bits| && bits[|bits| - 1 - q as int])
    decreases |bits|
  {
    if |bits| == 0 {
      ZeroBit(q);
    } else {
      var init := bits[..|bits| - 1];
      var last := bits[|bits| - 1];
      var v := FromBinary(init);
      assert FromBinary(bits) == (v << 1) | (if last then 1 else 0);
      ShiftInBit(v, last, q);
      if q > 0 {
        FromBinaryBit(init, q - 1);
        Predecessor(q);
      }
    }
  }

  /** The mask with every `X` read as `x`. */
  function Replace(mask: Mask, x: bool): (r: seq<bool>)
    ensures |r| == Width
  {
    seq(Width, i requires 0 <= i < Width => if mask[i] == X then x else mask[i] == One)
  }

  /** The mask character that governs bit `q`. */
  function Governing(mask: Mask, q: bv7): MaskBit
    requires q < 36
  {
    mask[Width - 1 - q as int]
  }

  // Part one.

  /** `and_mask` reads `X` as 1, `or_mask` reads it as 0. */
  function AndMask(mask: Mask): bv64 {
    FromBinary(Replace(mask, true))
  }

  function OrMask(mask: Mask): bv64 {
    FromBinary(Replace(mask, false))
  }

  /** What a write stores: `(value & and_mask) | or_mask`. */
  function Masked(value: bv64, andMask: bv64, orMask: bv64): bv64 {
    (value & andMask) | orMask
  }

  /** Bit `q` of a parsed mask is what its governing character says, with
      `X` read as `x`, and 0 above bit 35. */
  lemma MaskBitOf(mask: Mask, x: bool, q: bv7)
    requires q < 64
    ensures Bit(FromBinary(Replace(mask, x)), q) ==
      (q < 36 && (if Governing(mask, q) == X then x else Governing(mask, q) == One))
  {
    FromBinaryBit(Replace(mask, x), q);
  }

  lemma MaskedBitOf(value: bv64, andMask: bv64, orMask: bv64, q: bv7)
    requires q < 64
    ensures Bit(Masked(value, andMask, orMask), q) == ((Bit(value, q) && Bit(andMask, q)) || Bit(orMask, q))
  {
    var kept := value & andMask;
    AndBit(value, andMask, q);
    OrBit(kept, orMask, q);
    assert Masked(value, andMask, orMask) == kept | orMask;
  }

  /** Under a parsed mask a stored value takes the mask's bit where it has
      `0` or `1`, keeps its own where it has `X`, and is 0 above bit 35. */
  lemma MaskedBit(value: bv64, mask: Mask, q: bv7)
    requires q < 64
    ensures Bit(Masked(value, AndMask(mask), OrMask(mask)), q) ==
      if q >= 36 then false
      else match Governing(mask, q)
        case X => Bit(value, q)
        case Zero => false
        case One => true
  {
    MaskedBitOf(value, AndMask(mask), OrMask(mask), q);
    MaskBitOf(mask, true, q);
    MaskBitOf(mask, false, q);
  }

  datatype Instruction1 = SetMask(andMask: bv64, orMask: bv64) | SetMemory(address: bv64, value: bv64)

  /** The mask line of part one's `from_packed`. */
  function MaskLine1(mask: Mask): Instruction1 {
    SetMask(AndMask(mask), OrMask(mask))
  }

  /** A memory word: an address or a stored value. */
  datatype U64 = U64(bits: bv64)

  datatype Program1 = Program1(andMask: bv64, orMask: bv64, mem: map<U64, U64>)

  /** Part one's `execute_instruction`. */
  function Execute1(p: Program1, ins: Instruction1): (r: Program1)
    ensures ins.SetMask? ==> r.mem == p.mem
    ensures ins.SetMemory? ==> r.andMask == p.andMask && r.orMask == p.orMask
    ensures ins.SetMemory? ==> r.mem.Keys == p.mem.Keys + {U64(ins.address)}
  {
    match ins
    case SetMask(andMask, orMask) => p.(andMask := andMask, orMask := orMask)
    case SetMemory(address, value) => p.(mem := p.mem[U64(address) := U64(Masked(value, p.andMask, p.orMask))])
  }

  /** The program after the instructions, from the default state. */
  function Run1(instrs: seq<Instruction1>): Program1
    decreases |instrs|
  {
    if |instrs| == 0 then Program1(0, 0, map[])
    else Execute1(Run1(instrs[..|instrs| - 1]), instrs[|instrs| - 1])
  }

  predicate WritesTo(ins: Instruction1, address: bv64) {
    ins.SetMemory? && ins.address == address
  }

  /** The last write to an address decides what it holds: its value under
      the masks in force when it ran. */
  lemma {:induction false} LastWriteWins(instrs: seq<Instruction1>, i: nat)
    requires i < |instrs| && instrs[i].SetMemory?
    requires forall j :: i < j < |instrs| ==> !WritesTo(instrs[j], instrs[i].address)
    ensures U64(instrs[i].address) in Run1(instrs).mem
    ensures var before := Run1(instrs[..i]);
      Run1(instrs).mem[U64(instrs[i].address)] == U64(Masked(instrs[i].value, before.andMask, before.orMask))
    decreases |instrs|
  {
    var n := |instrs|;
    assert instrs[..n][..i] == instrs[..i];
    if i < n - 1 {
      var init := instrs[..n - 1];
      assert init[..i] == instrs[..i];
      assert init[i] == instrs[i];
      LastWriteWins(init, i);
      var address := instrs[i].address;
      assert !WritesTo(instrs[n - 1], address);
      assert Run1(instrs) == Execute1(Run1(init), instrs[n - 1]);
      OtherAddress(Run1(init), instrs[n - 1], address);
    } else {
      assert instrs[..n - 1] == instrs[..i];
      assert Run1(instrs) == Execute1(Run1(instrs[..i]), instrs[i]);
    }
  }

  /** An instruction that does not write to an address leaves it alone. */
  lemma OtherAddress(p: Program1, ins: Instruction1, address: bv64)
    requires !WritesTo(ins, address)
    ensures U64(address) in Execute1(p, ins).mem <==> U64(address) in p.mem
    ensures U64(address) in p.mem ==> Execute1(p, ins).mem[U64(address)] == p.mem[U64(address)]
  {
  }

  /** An address no instruction writes to holds nothing. */
  lemma {:induction false} NeverWritten(instrs: seq<Instruction1>, address: bv64)
    requires forall j :: 0 <= j < |instrs| ==> !WritesTo(instrs[j], address)
    ensures U64(address) !in Run1(instrs).mem
    decreases |instrs|
  {
    if |instrs| > 0 {
      NeverWritten(instrs[..|instrs| - 1], address);
    }
  }

  // Part two.

  /** The floating positions: `mask_raw.len() - 1 - i` for every `X` at
      index `i`, in mask order, so the most significant comes first. */
  function Floating(mask: Mask): (r: seq<bv7>)
    ensures forall j :: 0 <= j < |r| ==> r[j] < 36
    ensures forall j, k :: 0 <= j < k < |r| ==> r[j] > r[k]
    ensures forall q: bv7 :: q < 36 ==> (q in r <==> Governing(mask, q) == X)
  {
    FloatingBelow(mask, 36)
  }

  /** The floating positions below bit `n`, the most significant first. */
  function FloatingBelow(mask: Mask, n: bv7): (r: seq<bv7>)
    requires n <= 36
    ensures forall j :: 0 <= j < |r| ==> r[j] < n
    ensures forall j, k :: 0 <= j < k < |r| ==> r[j] > r[k]
    ensures forall q: bv7 :: q < n ==> (q in r <==> Governing(mask, q) == X)
    decreases n as int
  {
    if n == 0 then []
    else
      var rest := FloatingBelow(mask, n - 1);
      if Governing(mask, n - 1) == X then [n - 1] + rest else rest
  }

  /** The floating positions are distinct bits of a `u64`. */
  predicate ValidFloating(floating: seq<bv7>) {
    && (forall j :: 0 <= j < |floating| ==> floating[j] < 64)
    && (forall j, k :: 0 <= j < k < |floating| ==> floating[j] != floating[k])
  }

  datatype Instruction2 = SetMask2(baseMask: bv64, floating: seq<bv7>) | SetMemory2(address: bv64, value: bv64)

  /** The mask line of part two's `from_packed`: `base_mask` reads `X` as
      0. */
  function MaskLine2(mask: Mask): (r: Instruction2)
    ensures r.SetMask2? && ValidFloating(r.floating)
  {
    SetMask2(FromBinary(Replace(mask, false)), Floating(mask))
  }

  datatype Program2 = Program2(baseMask: bv64, floating: seq<bv7>, mem: map<U64, U64>)

  /** `2.pow(n)`. */
  function Pow2(n: nat): (r: nat)
    ensures r >= 1
  {
    if n == 0 then 1 else 2 * Pow2(n - 1)
  }

  /** Binary digit `j` of `i`. */
  function Digit(i: nat, j: nat): bool {
    if j == 0 then i % 2 == 1 else Digit(i / 2, j - 1)
  }

  /** The inner loop of a part-two write: the floating bits in order take
      the binary digits of `i`, least significant first. */
  function Decorate(address: bv64, floating: seq<bv7>, i: nat): bv64
    requires forall j :: 0 <= j < |floating| ==> floating[j] < 64
    decreases |floating|
  {
    if |floating| == 0 then address
    else Decorate(SetTo(address, floating[0], i % 2 == 1), floating[1..], i / 2)
  }

  /** `current_address |= mask` or `current_address &= !mask`. */
  function SetTo(v: bv64, p: bv7, one: bool): bv64
    requires p < 64
  {
    if one then v | (1 << p) else v & !(1 << p)
  }

  lemma SetOne(v: bv64, p: bv7, q: bv7)
    requires p < 64 && q < 64
    ensures Bit(v | (1 << p), q) == (q == p || Bit(v, q))
  {
  }

  lemma SetZero(v: bv64, p: bv7, q: bv7)
    requires p < 64 && q < 64
    ensures Bit(v & !(1 << p), q) == (q != p && Bit(v, q))
  {
  }

  lemma SetToBit(v: bv64, p: bv7, one: bool, q: bv7)
    requires p < 64 && q < 64
    ensures Bit(SetTo(v, p, one), q) == if q == p then one else Bit(v, q)
  {
    if one {
      SetOne(v, p, q);
    } else {
      SetZero(v, p, q);
    }
  }

  /** A decorated address has the `j`-th floating bit equal to digit `j`
      of `i`, and every other bit as in the base address. */
  lemma DecorateBit(address: bv64, floating: seq<bv7>, i: nat, q: bv7)
    requires ValidFloating(floating) && q < 64
    ensures q !in floating ==> Bit(Decorate(address, floating, i), q) == Bit(address, q)
    ensures forall j :: 0 <= j < |floating| && floating[j] == q ==>
      Bit(Decorate(address, floating, i), q) == Digit(i, j)
  {
    if q !in floating {
      DecorateKeeps(address, floating, i, q);
    }
    forall j | 0 <= j < |floating| && floating[j] == q
      ensures Bit(Decorate(address, floating, i), q) == Digit(i, j)
    {
      DecorateSets(address, floating, i, j);
    }
  }

  /** A bit that is not floating keeps its value. */
  lemma {:induction false} DecorateKeeps(address: bv64, floating: seq<bv7>, i: nat, q: bv7)
    requires ValidFloating(floating) && q < 64 && q !in floating
    ensures Bit(Decorate(address, floating, i), q) == Bit(address, q)
    decreases |floating|
  {
    if |floating| > 0 {
      var p := floating[0];
      var rest := floating[1..];
      assert ValidFloating(rest) && q !in rest;
      DecorateKeeps(SetTo(address, p, i % 2 == 1), rest, i / 2, q);
      SetToBit(address, p, i % 2 == 1, q);
    }
  }

  /** The `j`-th floating bit takes digit `j` of the counter. */
  lemma {:induction false} DecorateSets(address: bv64, floating: seq<bv7>, i: nat, j: nat)
    requires ValidFloating(floating) && j < |floating|
    ensures Bit(Decorate(address, floating, i), floating[j]) == Digit(i, j)
    decreases |floating|
  {
    var p := floating[0];
    var rest := floating[1..];
    var next := SetTo(address, p, i % 2 == 1);
    assert ValidFloating(rest);
    if j == 0 {
      forall k | 0 <= k < |rest| ensures rest[k] != p {
        assert rest[k] == floating[k + 1];
      }
      DecorateKeeps(next, rest, i / 2, p);
      SetToBit(address, p, i % 2 == 1, p);
    } else {
      assert rest[j - 1] == floating[j];
      DecorateSets(next, rest, i / 2, j - 1);
    }
  }

  /** Numbers below `2^k` with the same first `k` binary digits are
      equal. */
  lemma {:induction false} DigitsDetermine(a: nat, b: nat, k: nat)
    requires a < Pow2(k) && b < Pow2(k)
    requires forall j :: 0 <= j < k ==> Digit(a, j) == Digit(b, j)
    ensures a == b
    decreases k
  {
    if k > 0 {
      assert Digit(a, 0) == Digit(b, 0);
      forall j | 0 <= j < k - 1 ensures Digit(a / 2, j) == Digit(b / 2, j) {
        assert Digit(a, j + 1) == Digit(b, j + 1);
      }
      DigitsDetermine(a / 2, b / 2, k - 1);
    }
  }

  /** Different combinations reach different addresses. */
  lemma DecorateInjective(address: bv64, floating: seq<bv7>, a: nat, b: nat)
    requires ValidFloating(floating)
    requires a < Pow2(|floating|) && b < Pow2(|floating|) && a != b
    ensures Decorate(address, floating, a) != Decorate(address, floating, b)
  {
    if forall j :: 0 <= j < |floating| ==> Digit(a, j) == Digit(b, j) {
      DigitsDetermine(a, b, |floating|);
    } else {
      var j :| 0 <= j < |floating| && Digit(a, j) != Digit(b, j);
      DecorateBit(address, floating, a, floating[j]);
      DecorateBit(address, floating, b, floating[j]);
    }
  }

  /** The first `n` writes of one part-two store. */
  function WriteAll(mem: map<U64, U64>, address: bv64, floating: seq<bv7>, n: nat, value: bv64): map<U64, U64>
    requires forall j :: 0 <= j < |floating| ==> floating[j] < 64
  {
    if n == 0 then mem
    else WriteAll(mem, address, floating, n - 1, value)[U64(Decorate(address, floating, n - 1)) := U64(value)]
  }

  /** After the writes, exactly the decorated addresses hold the value and
      the rest of memory is as before. */
  lemma {:induction false} WriteAllEffect(mem: map<U64, U64>, address: bv64, floating: seq<bv7>, n: nat, value: bv64, x: bv64)
    requires forall j :: 0 <= j < |floating| ==> floating[j] < 64
    ensures (exists i: nat :: i < n && Decorate(address, floating, i) == x) ==>
      U64(x) in WriteAll(mem, address, floating, n, value) && WriteAll(mem, address, floating, n, value)[U64(x)] == U64(value)
    ensures (forall i: nat :: i < n ==> Decorate(address, floating, i) != x) ==>
      (U64(x) in WriteAll(mem, address, floating, n, value) <==> U64(x) in mem)
      && (U64(x) in mem ==> WriteAll(mem, address, floating, n, value)[U64(x)] == mem[U64(x)])
    decreases n
  {
    if n > 0 {
      WriteAllEffect(mem, address, floating, n - 1, value, x);
    }
  }

  /** The addresses one part-two store reaches. */
  function Reached(address: bv64, floating: seq<bv7>, n: nat): set<U64>
    requires forall j :: 0 <= j < |floating| ==> floating[j] < 64
  {
    set i: nat | i < n :: U64(Decorate(address, floating, i))
  }

  /** A store with `k` floating bits reaches exactly `2^k` addresses, all
      with the base address's bits outside the floating positions. */
  lemma ReachesPowerOfTwo(address: bv64, floating: seq<bv7>)
    requires ValidFloating(floating)
    ensures |Reached(address, floating, Pow2(|floating|))| == Pow2(|floating|)
    ensures forall a, q: bv7 :: a in Reached(address, floating, Pow2(|floating|)) && q < 64 && q !in floating ==>
      Bit(a.bits, q) == Bit(address, q)
  {
    ReachedCount(address, floating, Pow2(|floating|));
    forall a, q: bv7 | a in Reached(address, floating, Pow2(|floating|)) && q < 64 && q !in floating
      ensures Bit(a.bits, q) == Bit(address, q)
    {
      var i: nat :| i < Pow2(|floating|) && U64(Decorate(address, floating, i)) == a;
      DecorateBit(address, floating, i, q);
    }
  }

  /** Every address a store under a parsed mask reaches has every bit the
      base mask sets: those bits come from `1` characters, which never
      float. */
  lemma ReachedHasBaseMask(mask: Mask, address: bv64, a: U64, q: bv7)
    requires q < 64
    requires a in Reached(address | MaskLine2(mask).baseMask, Floating(mask), Pow2(|Floating(mask)|))
    requires Bit(MaskLine2(mask).baseMask, q)
    ensures Bit(a.bits, q)
  {
    var base := MaskLine2(mask).baseMask;
    MaskBitOf(mask, false, q);
    ReachesPowerOfTwo(address | base, Floating(mask));
    OrBit(address, base, q);
  }

  lemma {:induction false} ReachedCount(address: bv64, floating: seq<bv7>, n: nat)
    requires ValidFloating(floating) && n <= Pow2(|floating|)
    ensures |Reached(address, floating, n)| == n
    decreases n
  {
    if n > 0 {
      ReachedCount(address, floating, n - 1);
      var last := U64(Decorate(address, floating, n - 1));
      ReachedGrows(address, floating, n);
      forall i: nat | i < n - 1 ensures U64(Decorate(address, floating, i)) != last {
        DecorateInjective(address, floating, i, n - 1);
      }
    }
  }

  lemma ReachedGrows(address: bv64, floating: seq<bv7>, n: nat)
    requires (forall j :: 0 <= j < |floating| ==> floating[j] < 64) && n > 0
    ensures Reached(address, floating, n) == Reached(address, floating, n - 1) + {U64(Decorate(address, floating, n - 1))}
  {
  }

  /** Why part two's `execute_instruction` panics: `2.pow(k)` overflows a
      `u32` from 32 floating bits on, and `1 << bit` overflows a `u64` for a
      bit of 64 or more. */
  datatype Panic = PowOverflow | ShiftOverflow

  /** `self.floating_bits.len() as u32`. */
  function FloatingCount(floating: seq<bv7>): nat {
    |floating| % 0x1_0000_0000
  }

  /** Part two's `execute_instruction`: a mask replaces the base mask and
      floating bits; a store writes the value to every address made from
      `address | base_mask` by giving the floating bits each combination
      in turn. */
  method Execute2(p: Program2, ins: Instruction2) returns (r: Result<Program2, Panic>)
    ensures ins.SetMask2? ==> r == Ok(Program2(ins.baseMask, ins.floating, p.mem))
    ensures ins.SetMemory2? && FloatingCount(p.floating) >= 32 ==> r == Err(PowOverflow)
    ensures ins.SetMemory2? && FloatingCount(p.floating) < 32 ==>
      (r == Err(ShiftOverflow) <==> exists j :: 0 <= j < |p.floating| && p.floating[j] >= 64)
    ensures ins.SetMemory2? && r.Ok? ==> r.value.baseMask == p.baseMask && r.value.floating == p.floating
    ensures ins.SetMemory2? && r.Ok? ==>
      r.value.mem == WriteAll(p.mem, ins.address | p.baseMask, p.floating, Pow2(FloatingCount(p.floating)), ins.value)
  {
    match ins {
      case SetMask2(baseMask, floating) =>
        return Ok(Program2(baseMask, floating, p.mem));
      case SetMemory2(address, value) =>
        var floating := p.floating;
        if FloatingCount(floating) >= 32 {
          return Err(PowOverflow);
        }
        if exists j :: 0 <= j < |floating| && floating[j] >= 64 {
          return Err(ShiftOverflow);
        }
        var mem := StoreFloating(p.mem, address | p.baseMask, floating, Pow2(FloatingCount(floating)), value);
        return Ok(Program2(p.baseMask, floating, mem));
    }
  }

  /** The outer loop of a part-two store: one write for each `i` below
      `count`, to the address the digits of `i` make. */
  method StoreFloating(mem: map<U64, U64>, address: bv64, floating: seq<bv7>, count: nat, value: bv64) returns (r: map<U64, U64>)
    requires forall j :: 0 <= j < |floating| ==> floating[j] < 64
    ensures r == WriteAll(mem, address, floating, count, value)
  {
    r := mem;
    for i := 0 to count
      invariant r == WriteAll(mem, address, floating, i, value)
    {
      var current := Decorated(address, floating, i);
      r := r[U64(current) := U64(value)];
    }
  }

  /** The inner loop: the floating bits in order, each taking the lowest
      remaining bit of `i`, which is then shifted out. */
  method Decorated(address: bv64, floating: seq<bv7>, i: nat) returns (current: bv64)
    requires forall j :: 0 <= j < |floating| ==> floating[j] < 64
    ensures current == Decorate(address, floating, i)
  {
    current := address;
    var rest := i;
    for t := 0 to |floating|
      invariant Decorate(current, floating[t..], rest) == Decorate(address, floating, i)
    {
      assert floating[t..][1..] == floating[t + 1..];
      var isOne := rest % 2 == 1;
      rest := rest / 2;
      current := SetTo(current, floating[t], isOne);
    }
  }
}
