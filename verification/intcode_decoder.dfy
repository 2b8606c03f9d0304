/** Splitting a raw Intcode instruction cell into its opcode and parameter
    modes. The newer machine knows three modes, the older one two; the digit
    arithmetic is the same and uses Rust's truncating `/` and `%`. */
module IntcodeDecoder {
  import opened Wrappers
  import opened RustInt

  datatype Mode = Position | Immediate | Relative

  datatype Instruction = Instruction(opcode: nat, modes: seq<Mode>)

  function ModeDigit(m: Mode): nat {
    match m
    case Position => 0
    case Immediate => 1
    case Relative => 2
  }

  /** The mode a digit selects, for a machine that knows `modeCount` modes
      (`FromPrimitive::from_i64` followed by `unwrap`). */
  function ModeOfDigit(d: int, modeCount: nat): (r: Option<Mode>)
    requires modeCount <= 3
    ensures r.Some? <==> 0 <= d < modeCount
    ensures r.Some? ==> ModeDigit(r.value) == d
  {
    if d < 0 || d >= modeCount then None
    else if d == 0 then Some(Position)
    else if d == 1 then Some(Immediate)
    else Some(Relative)
  }

  lemma TDivTenShrinks(r: int)
    requires r != 0
    ensures Abs(TDiv(r, 10)) < Abs(r)
  {
  }

  /** The modes packed in `r`, least-significant digit first; `Err(d)` names
      the first digit that is not a mode. */
  function DecodeModes(r: int, modeCount: nat): Result<seq<Mode>, int>
    requires modeCount <= 3
    decreases Abs(r)
  {
    if r == 0 then Ok([])
    else
      var d := TMod(r, 10);
      match ModeOfDigit(d, modeCount)
      case None => Err(d)
      case Some(m) =>
        TDivTenShrinks(r);
        var rest :- DecodeModes(TDiv(r, 10), modeCount);
        Ok([m] + rest)
  }

  /** `decompose_op_code`: the opcode is the raw value `% 100` cast to a byte,
      and every remaining digit must be a mode, even beyond the operation's
      arity. */
  function Decode(raw: int, modeCount: nat): Result<Instruction, int>
    requires modeCount <= 3
  {
    var opcode := TMod(raw, 100) % 256;
    var modes :- DecodeModes(TDiv(raw, 100), modeCount);
    Ok(Instruction(opcode, modes))
  }

  /** The mode of parameter `i`: a parameter without a digit is in Position mode. */
  function ModeAt(modes: seq<Mode>, i: nat): Mode {
    if i < |modes| then modes[i] else Position
  }

  /** The `k`-th decimal digit of `x`, counting from the least significant. */
  function Digit(x: nat, k: nat): nat {
    if k == 0 then x % 10 else Digit(x / 10, k - 1)
  }

  /** The inverse of decoding: an instruction cell with the given opcode and modes. */
  function Encode(opcode: nat, modes: seq<Mode>): nat {
    opcode + 100 * ModesValue(modes)
  }

  function ModesValue(modes: seq<Mode>): nat {
    if |modes| == 0 then 0 else ModeDigit(modes[0]) + 10 * ModesValue(modes[1..])
  }

  ghost predicate ValidModes(modes: seq<Mode>, modeCount: nat) {
    forall i :: 0 <= i < |modes| ==> ModeDigit(modes[i]) < modeCount
  }

  /** Decoding's mode list never ends in a Position mode: a trailing 0 digit is not written. */
  ghost predicate Canonical(modes: seq<Mode>) {
    |modes| == 0 || modes[|modes| - 1] != Position
  }

  /** For a non-negative cell, parameter `k` takes its mode from digit `k + 2`
      (0 when the cell has no such digit), and decoding fails exactly when some
      such digit names no mode. */
  lemma {:induction false} DecodeModesDigits(r: nat, modeCount: nat)
    requires 1 <= modeCount <= 3
    ensures DecodeModes(r, modeCount).Ok? ==>
      forall k: nat :: Digit(r, k) < modeCount && ModeDigit(ModeAt(DecodeModes(r, modeCount).value, k)) == Digit(r, k)
    ensures DecodeModes(r, modeCount).Err? ==> exists k: nat :: Digit(r, k) >= modeCount
    decreases r
  {
    if r == 0 {
      forall k: nat ensures Digit(0, k) == 0 {
        DigitOfZero(k);
      }
    } else {
      var d := TMod(r, 10);
      var q := TDiv(r, 10);
      NonNegativeDivMod(r, 10);
      assert d == Digit(r, 0);
      DecodeModesDigits(q, modeCount);
      if d >= modeCount {
        assert DecodeModes(r, modeCount) == Err(d);
        assert Digit(r, 0) >= modeCount;
      } else {
        var m := ModeOfDigit(d, modeCount).value;
        assert DecodeModes(r, modeCount) ==
          if DecodeModes(q, modeCount).Err? then Err(DecodeModes(q, modeCount).error)
          else Ok([m] + DecodeModes(q, modeCount).value);
        if DecodeModes(q, modeCount).Ok? {
          var ms := DecodeModes(r, modeCount).value;
          var rest := DecodeModes(q, modeCount).value;
          forall k: nat ensures ModeDigit(ModeAt(ms, k)) == Digit(r, k) && Digit(r, k) < modeCount {
            if k > 0 {
              assert ModeAt(ms, k) == ModeAt(rest, k - 1);
              assert Digit(r, k) == Digit(q, k - 1);
              assert Digit(q, k - 1) < modeCount;
            }
          }
        } else {
          var k: nat :| Digit(q, k) >= modeCount;
          assert Digit(r, k + 1) == Digit(q, k);
        }
      }
    }
  }

  lemma {:induction false} DigitOfZero(k: nat)
    ensures Digit(0, k) == 0
  {
    if k > 0 {
      DigitOfZero(k - 1);
    }
  }

  /** The decoder's contract for cells a program can hold without tripping the
      sign rules: opcode is `raw % 100`, parameter `k`'s mode is digit `k + 2`
      (Position when absent), and a digit outside the known modes is an error. */
  lemma DecodeNonNegative(raw: nat, modeCount: nat)
    requires 1 <= modeCount <= 3
    ensures Decode(raw, modeCount).Ok? ==>
      && Decode(raw, modeCount).value.opcode == raw % 100
      && forall k: nat :: ModeDigit(ModeAt(Decode(raw, modeCount).value.modes, k)) == Digit(raw / 100, k)
    ensures Decode(raw, modeCount).Err? <==> exists k: nat :: Digit(raw / 100, k) >= modeCount
  {
    NonNegativeDivMod(raw, 100);
    DecodeModesDigits(raw / 100, modeCount);
  }

  /** A negative mode field always holds a negative digit before it runs out. */
  lemma {:induction false} NegativeModesFail(r: int, modeCount: nat)
    requires 1 <= modeCount <= 3
    requires r < 0
    ensures DecodeModes(r, modeCount).Err? && DecodeModes(r, modeCount).error < 0
    decreases Abs(r)
  {
    var d := TMod(r, 10);
    if d == 0 {
      var q := TDiv(r, 10);
      assert q < 0;
      TDivTenShrinks(r);
      NegativeModesFail(q, modeCount);
      assert ModeOfDigit(d, modeCount) == Some(Position);
      assert DecodeModes(r, modeCount) == DecodeModes(q, modeCount).PropagateFailure();
    }
  }

  /** A negative cell never decodes to an operation of the table: either its
      mode digits fail, or it has none and its opcode byte is at least 157. */
  lemma NegativeRawHasNoValidOpcode(raw: int, modeCount: nat)
    requires 1 <= modeCount <= 3
    requires raw < 0
    ensures Decode(raw, modeCount).Ok? ==>
      Decode(raw, modeCount).value.opcode >= 157 && Decode(raw, modeCount).value.modes == []
  {
    if TDiv(raw, 100) != 0 {
      NegativeModesFail(TDiv(raw, 100), modeCount);
    }
  }

  /** Encoding then decoding gives back the opcode and the modes, as long as
      the mode list is canonical (a trailing Position digit cannot be seen). */
  lemma DecodeEncode(opcode: nat, modes: seq<Mode>, modeCount: nat)
    requires modeCount <= 3
    requires opcode < 100
    requires ValidModes(modes, modeCount) && Canonical(modes)
    ensures Decode(Encode(opcode, modes), modeCount) == Ok(Instruction(opcode, modes))
  {
    var raw := Encode(opcode, modes);
    NonNegativeDivMod(raw, 100);
    assert raw / 100 == ModesValue(modes);
    DecodeModesValue(modes, modeCount);
  }

  lemma {:induction false} DecodeModesValue(modes: seq<Mode>, modeCount: nat)
    requires modeCount <= 3
    requires ValidModes(modes, modeCount) && Canonical(modes)
    ensures DecodeModes(ModesValue(modes), modeCount) == Ok(modes)
    decreases |modes|
  {
    if |modes| > 0 {
      var v := ModesValue(modes);
      var tail := modes[1..];
      assert ValidModes(tail, modeCount);
      assert Canonical(tail);
      if |tail| > 0 {
        ModesValuePositive(tail);
      } else {
        assert modes[0] != Position;
      }
      assert v != 0;
      SplitLastDigit(ModeDigit(modes[0]), ModesValue(tail));
      DecodeModesValue(tail, modeCount);
      assert ModeOfDigit(TMod(v, 10), modeCount) == Some(modes[0]);
      assert modes == [modes[0]] + tail;
    }
  }

  /** The last decimal digit of `d + 10 * q` is `d` and the rest is `q`. */
  lemma SplitLastDigit(d: nat, q: nat)
    requires d < 10
    ensures TMod(d + 10 * q, 10) == d && TDiv(d + 10 * q, 10) == q
  {
    NonNegativeDivMod(d + 10 * q, 10);
  }

  lemma {:induction false} ModesValuePositive(modes: seq<Mode>)
    requires |modes| > 0 && Canonical(modes)
    ensures ModesValue(modes) > 0
    decreases |modes|
  {
    if |modes| > 1 {
      ModesValuePositive(modes[1..]);
    }
  }

  /** Decoding a non-negative cell and encoding the result gives the cell back,
      and the decoded mode list is canonical. */
  lemma EncodeDecode(raw: nat, modeCount: nat)
    requires modeCount <= 3
    requires Decode(raw, modeCount).Ok?
    ensures Encode(Decode(raw, modeCount).value.opcode, Decode(raw, modeCount).value.modes) == raw
    ensures Canonical(Decode(raw, modeCount).value.modes)
  {
    NonNegativeDivMod(raw, 100);
    ModesValueDecodeModes(raw / 100, modeCount);
  }

  lemma {:induction false} ModesValueDecodeModes(r: nat, modeCount: nat)
    requires modeCount <= 3
    requires DecodeModes(r, modeCount).Ok?
    ensures ModesValue(DecodeModes(r, modeCount).value) == r
    ensures Canonical(DecodeModes(r, modeCount).value)
    decreases r
  {
    if r != 0 {
      NonNegativeDivMod(r, 10);
      ModesValueDecodeModes(r / 10, modeCount);
      var ms := DecodeModes(r, modeCount).value;
      var rest := DecodeModes(r / 10, modeCount).value;
      assert ms[1..] == rest;
      assert ModeDigit(ms[0]) == r % 10;
      if |rest| == 0 {
        assert r / 10 == 0;
        assert r % 10 != 0;
      }
    }
  }

  /** A cell the two-mode decoder accepts decodes identically with three modes. */
  lemma {:induction false} DecodeModesWidens(r: int, narrow: nat, wide: nat)
    requires narrow <= wide <= 3
    requires DecodeModes(r, narrow).Ok?
    ensures DecodeModes(r, wide) == DecodeModes(r, narrow)
    decreases Abs(r)
  {
    if r != 0 {
      TDivTenShrinks(r);
      DecodeModesWidens(TDiv(r, 10), narrow, wide);
    }
  }
}
