/** The flag register of the lifter: six flags, and the operands of the last subtraction while they say it all. */
module FlagCache {
  import opened Bits
  import opened Ledger
  import opened LiftedFlags

  /** Flags; None is undefined. */
  datatype FlagSet = FlagSet(af: Option<bool>, cf: Option<bool>, of: Option<bool>, sf: Option<bool>, zf: Option<bool>,
                             pf: Option<bool>)

  const UNDEFINED := FlagSet(None, None, None, None, None, None)

  // ----- what the flags of an operation are

  function Ones(x: nat, n: nat): nat {
    if n == 0 then 0 else x % 2 + Ones(x / 2, n - 1)
  }

  /** An even number of ones in the low byte. */
  predicate Parity(r: nat) { Ones(r % 256, 8) % 2 == 0 }

  /** Flags of a - b at width w, by their meaning. */
  function Difference(w: nat, a: nat, b: nat): FlagSet
    requires w >= 8
  {
    var r := SubW(w, a, b);
    FlagSet(Some(a % 16 < b % 16), Some(a < b), Some(!InSignedRange(w, Signed(w, a) - Signed(w, b))),
            Some(r >= Pow2(w - 1)), Some(a == b), Some(Parity(r)))
  }

  function Sum(w: nat, a: nat, b: nat): FlagSet
    requires w >= 8
  {
    var r := AddW(w, a, b);
    FlagSet(Some(a % 16 + b % 16 >= 16), Some(a + b >= Pow2(w)), Some(!InSignedRange(w, Signed(w, a) + Signed(w, b))),
            Some(r >= Pow2(w - 1)), Some(r == 0), Some(Parity(r)))
  }

  // ----- the formulas of the lifter

  /** ((lhs ^ result) ^ rhs) & 16 */
  predicate Af(r: nat, a: nat, b: nat) { And(Xor(Xor(a, r), b), 16) != 0 }

  lemma {:induction false} AndPower(x: nat, i: nat)
    ensures And(x, Pow2(i)) != 0 <==> Bit(x, i)
    decreases i
  {
    if x == 0 { ZeroBit(i); } else if i > 0 { AndPower(x / 2, i - 1); } else { assert Pow2(0) == 1; }
  }

  lemma AfBit(r: nat, a: nat, b: nat)
    ensures Af(r, a, b) == ((Bit(a, 4) != Bit(r, 4)) != Bit(b, 4))
  {
    assert Pow2(4) == 16;
    AndPower(Xor(Xor(a, r), b), 4);
    XorBit(Xor(a, r), b, 4);
    XorBit(a, r, 4);
  }

  lemma AfSub(w: nat, a: nat, b: nat)
    requires w >= 8 && IsWord(w, a) && IsWord(w, b)
    ensures Af(SubW(w, a, b), a, b) == (a % 16 < b % 16)
  {
    AfBit(SubW(w, a, b), a, b);
    ModBit(a - b, w, 4);
    DifferenceBit(a, b, 0, 4);
    assert Pow2(4) == 16;
  }

  lemma NibbleCarry(a: nat, b: nat)
    ensures (a + b) % 16 < b % 16 <==> a % 16 + b % 16 >= 16
  {}

  lemma AfAdd(w: nat, a: nat, b: nat)
    requires w >= 8 && IsWord(w, a) && IsWord(w, b)
    ensures Af(AddW(w, a, b), a, b) == (a % 16 + b % 16 >= 16)
  {
    AfBit(AddW(w, a, b), a, b);
    ModBit(a + b, w, 4);
    DifferenceBit(a + b, b, 0, 4);
    assert Pow2(4) == 16;
    hide Pow2, Bit, Af;
    NibbleCarry(a, b);
  }

  lemma SameIsZero(w: nat, a: nat, b: nat)
    requires IsWord(w, a) && IsWord(w, b)
    ensures SubW(w, a, b) == 0 <==> a == b
  {
    var m := Pow2(w);
    if a < b { ModUnique(a - b, m, -1, a - b + m); } else { ModUnique(a - b, m, 0, a - b); }
  }

  // ----- conditions

  function OrU(x: Option<bool>, y: Option<bool>): Option<bool> {
    if x == None || y == None then None else Some(x.value || y.value)
  }

  function NeU(x: Option<bool>, y: Option<bool>): Option<bool> {
    if x == None || y == None then None else Some(x.value != y.value)
  }

  function NotU(x: Option<bool>): Option<bool> {
    if x == None then None else Some(!x.value)
  }

  /** Condition types in the order of the opcode map: o, c, z, be, s, p, l, le. */
  function Base(k: nat, f: FlagSet): Option<bool>
    requires k < 8
  {
    match k
    case 0 => f.of
    case 1 => f.cf
    case 2 => f.zf
    case 3 => OrU(f.cf, f.zf)
    case 4 => f.sf
    case 5 => f.pf
    case 6 => NeU(f.sf, f.of)
    case _ => OrU(NeU(f.sf, f.of), f.zf)
  }

  /** Every condition is followed by its negation. */
  function FromFlags(n: nat, f: FlagSet): Option<bool>
    requires n < 16
  {
    if n % 2 == 1 then NotU(Base(n / 2, f)) else Base(n / 2, f)
  }

  /** After a comparison the conditions compare its operands, signed or unsigned, at every width. */
  lemma ConditionsCompare(w: nat, a: nat, b: nat)
    requires w >= 8 && IsWord(w, a) && IsWord(w, b)
    ensures var f := Difference(w, a, b);
            && FromFlags(2, f) == Some(a < b) && FromFlags(3, f) == Some(a >= b)
            && FromFlags(4, f) == Some(a == b) && FromFlags(5, f) == Some(a != b)
            && FromFlags(6, f) == Some(a <= b) && FromFlags(7, f) == Some(a > b)
            && FromFlags(12, f) == Some(Signed(w, a) < Signed(w, b))
            && FromFlags(13, f) == Some(Signed(w, a) >= Signed(w, b))
            && FromFlags(14, f) == Some(Signed(w, a) <= Signed(w, b))
            && FromFlags(15, f) == Some(Signed(w, a) > Signed(w, b))
  {
    OperandsCompare(w, a, b);
  }

  lemma OperandsCompare(w: nat, a: nat, b: nat)
    requires w >= 8 && IsWord(w, a) && IsWord(w, b)
    ensures var f := Difference(w, a, b);
            && Base(1, f) == Some(a < b) && Base(2, f) == Some(a == b) && Base(3, f) == Some(a <= b)
            && Base(6, f) == Some(Signed(w, a) < Signed(w, b)) && Base(7, f) == Some(Signed(w, a) <= Signed(w, b))
  {
    SignOfDifference(w, a, b);
  }

  /** Sign and overflow differ exactly for a signed less. */
  lemma SignOfDifference(w: nat, a: nat, b: nat)
    requires w >= 1 && IsWord(w, a) && IsWord(w, b)
    ensures (SubW(w, a, b) >= Pow2(w - 1)) != !InSignedRange(w, Signed(w, a) - Signed(w, b))
            <==> Signed(w, a) < Signed(w, b)
    ensures Signed(w, a) == Signed(w, b) <==> a == b
  {
    var m := Pow2(w);
    assert m == 2 * Pow2(w - 1);
    if a < b { ModUnique(a - b, m, -1, a - b + m); } else { ModUnique(a - b, m, 0, a - b); }
  }

  class FlagRegister {
    const intrinsics: bool
    var flags: FlagSet
    var valid: bool
    var operand1: nat
    var operand2: nat
    var width: nat

    /** While the cache is valid the flags are those of operand1 - operand2. */
    predicate Valid()
      reads this
    {
      valid ==> width >= 8 && IsWord(width, operand1) && IsWord(width, operand2)
                && flags == Difference(width, operand1, operand2)
    }

    constructor (intrinsics: bool)
      ensures Valid() && !valid && flags == UNDEFINED && this.intrinsics == intrinsics
    {
      this.intrinsics := intrinsics;
      flags, valid := UNDEFINED, false;
      operand1, operand2, width := 0, 0, 8;
    }

    // ----- single flags; the invariant is restored by the operations that use them

    method SetAf(r: nat, a: nat, b: nat)
      modifies this`flags
      ensures flags == old(flags).(af := Some(Af(r, a, b)))
    {
      flags := flags.(af := Some(And(Xor(Xor(a, r), b), 16) != 0));
    }

    method SetZf(r: nat)
      modifies this`flags
      ensures flags == old(flags).(zf := Some(r == 0))
    {
      flags := flags.(zf := Some(r == 0));
    }

    method SetSf(w: nat, r: nat)
      requires w >= 1 && IsWord(w, r)
      modifies this`flags
      ensures flags == old(flags).(sf := Some(r >= Pow2(w - 1)))
    {
      flags := flags.(sf := Some(Signed(w, r) < 0));
    }

    method SetPf(r: nat)
      modifies this`flags
      ensures flags == old(flags).(pf := Some(Parity(r)))
    {
      var count: nat, x: nat := 0, r % 256;
      for i := 0 to 8
        invariant count + Ones(x, 8 - i) == Ones(r % 256, 8)
      {
        count, x := count + x % 2, x / 2;
      }
      flags := flags.(pf := Some(count % 2 == 0));
    }

    method SetOfSub(w: nat, r: nat, a: nat, b: nat)
      requires w >= 1 && IsWord(w, a) && IsWord(w, b) && r == SubW(w, a, b)
      modifies this`flags
      ensures flags == old(flags).(of := Some(!InSignedRange(w, Signed(w, a) - Signed(w, b))))
    {
      OfSubExact(w, a, b);
      var of := if intrinsics then !InSignedRange(w, Signed(w, a) - Signed(w, b)) else OfSub(w, r, a, b);
      flags := flags.(of := Some(of));
    }

    method SetOfAdd(w: nat, r: nat, a: nat, b: nat)
      requires w >= 1 && IsWord(w, a) && IsWord(w, b) && r == AddW(w, a, b)
      modifies this`flags
      ensures flags == old(flags).(of := Some(!InSignedRange(w, Signed(w, a) + Signed(w, b))))
    {
      OfAddExact(w, a, b);
      var of := if intrinsics then !InSignedRange(w, Signed(w, a) + Signed(w, b)) else OfAdd(w, r, a, b);
      flags := flags.(of := Some(of));
    }

    /** The result may have single or double width. */
    method SetOfImul(w: nat, wide: bool, r: nat, a: nat, b: nat)
      requires w >= 1 && IsWord(w, a) && IsWord(w, b)
      requires r == if wide then MulW(2 * w, SExt(w, a), SExt(w, b)) else MulW(w, a, b)
      modifies this`flags
      ensures var o := Some(!InSignedRange(w, Signed(w, a) * Signed(w, b))); flags == old(flags).(of := o, cf := o)
    {
      OfImulExact(w, a, b);
      OfImulWideExact(w, a, b);
      var o := if intrinsics then !InSignedRange(w, Signed(w, a) * Signed(w, b))
               else if wide then OfImulWide(w, r) else OfImul(w, r, a, b);
      flags := flags.(of := Some(o), cf := Some(o));
    }

    // ----- operations

    method SetSub(w: nat, r: nat, a: nat, b: nat)
      requires w >= 8 && IsWord(w, a) && IsWord(w, b) && r == SubW(w, a, b)
      modifies this
      ensures Valid() && valid && flags == Difference(w, a, b)
      ensures operand1 == a && operand2 == b && width == w
    {
      AfSub(w, a, b);
      SameIsZero(w, a, b);
      SetAf(r, a, b);
      SetZf(r);
      SetSf(w, r);
      flags := flags.(cf := Some(a < b));
      SetOfSub(w, r, a, b);
      SetPf(r);
      valid, operand1, operand2, width := true, a, b, w;
    }

    method SetAdd(w: nat, r: nat, a: nat, b: nat)
      requires w >= 8 && IsWord(w, a) && IsWord(w, b) && r == AddW(w, a, b)
      modifies this
      ensures Valid() && !valid && flags == Sum(w, a, b)
    {
      AfAdd(w, a, b);
      CarryExact(w, a, b);
      SetAf(r, a, b);
      SetZf(r);
      SetSf(w, r);
      flags := flags.(cf := Some(r < a));
      SetOfAdd(w, r, a, b);
      SetPf(r);
      valid := false;
    }

    method SetBit(w: nat, r: nat)
      requires w >= 8 && IsWord(w, r)
      modifies this
      ensures Valid() && !valid
      ensures flags == FlagSet(None, Some(false), Some(false), Some(r >= Pow2(w - 1)), Some(r == 0), Some(Parity(r)))
    {
      flags := flags.(af := None, cf := Some(false), of := Some(false));
      SetZf(r);
      SetSf(w, r);
      SetPf(r);
      valid := false;
    }

    /** Increment: the flags of a + 1 but for the carry, which stays. */
    method SetInc(w: nat, r: nat, a: nat)
      requires w >= 8 && IsWord(w, a) && r == AddW(w, a, 1)
      modifies this
      ensures Valid() && !valid && flags == Sum(w, a, 1).(cf := old(flags).cf)
    {
      Pow2Mono(8, w);
      AfAdd(w, a, 1);
      SetAf(r, a, 1);
      SetZf(r);
      SetSf(w, r);
      SetOfAdd(w, r, a, 1);
      SetPf(r);
      valid := false;
    }

    method SetDec(w: nat, r: nat, a: nat)
      requires w >= 8 && IsWord(w, a) && r == SubW(w, a, 1)
      modifies this
      ensures Valid() && !valid && flags == Difference(w, a, 1).(cf := old(flags).cf)
    {
      Pow2Mono(8, w);
      AfSub(w, a, 1);
      SameIsZero(w, a, 1);
      SetAf(r, a, 1);
      SetZf(r);
      SetSf(w, r);
      SetOfSub(w, r, a, 1);
      SetPf(r);
      valid := false;
    }

    method Invalidate()
      modifies this
      ensures Valid() && !valid && flags == UNDEFINED
    {
      flags, valid := UNDEFINED, false;
    }

    /** Shifts leave carry, overflow and adjust undefined. */
    method SetShift(w: nat, r: nat)
      requires w >= 8 && IsWord(w, r)
      modifies this
      ensures Valid() && !valid
      ensures flags == FlagSet(None, None, None, Some(r >= Pow2(w - 1)), Some(r == 0), Some(Parity(r)))
    {
      Invalidate();
      SetZf(r);
      SetSf(w, r);
      SetPf(r);
    }

    /** Negation: the flags of 0 - a, without using the cache for them. */
    method SetNeg(w: nat, r: nat, a: nat)
      requires w >= 8 && IsWord(w, a) && r == SubW(w, 0, a)
      modifies this
      ensures Valid() && !valid && flags == Difference(w, 0, a)
    {
      AfSub(w, 0, a);
      SameIsZero(w, 0, a);
      Invalidate();
      flags := flags.(cf := Some(a != 0));
      SetPf(r);
      SetZf(r);
      SetSf(w, r);
      SetAf(r, 0, a);
      SetOfSub(w, r, 0, a);
    }

    method SetImul(w: nat, wide: bool, r: nat, a: nat, b: nat)
      requires w >= 8 && IsWord(w, a) && IsWord(w, b)
      requires r == if wide then MulW(2 * w, SExt(w, a), SExt(w, b)) else MulW(w, a, b)
      modifies this
      ensures Valid() && !valid
      ensures var o := Some(!InSignedRange(w, Signed(w, a) * Signed(w, b)));
              flags == FlagSet(None, o, o, Some(r % Pow2(w) >= Pow2(w - 1)), None, None)
    {
      Invalidate();
      SetSf(w, r % Pow2(w));
      SetOfImul(w, wide, r, a, b);
    }

    /** Condition n. With a valid cache the comparisons use the operands instead of the flags: the answer is
        the same. */
    method Condition(n: nat) returns (c: Option<bool>)
      requires Valid() && n < 16
      ensures c == FromFlags(n, flags)
    {
      if valid { OperandsCompare(width, operand1, operand2); }
      match n / 2 {
        case 0 => c := flags.of;
        case 1 => c := flags.cf;
        case 2 => c := flags.zf;
        case 3 => c := if valid then Some(operand1 <= operand2) else OrU(flags.cf, flags.zf);
        case 4 => c := flags.sf;
        case 5 => c := flags.pf;
        case 6 =>
          c := if valid then Some(Signed(width, operand1) < Signed(width, operand2)) else NeU(flags.sf, flags.of);
        case _ =>
          c := if valid then Some(Signed(width, operand1) <= Signed(width, operand2))
               else OrU(NeU(flags.sf, flags.of), flags.zf);
      }
      if n % 2 == 1 { c := NotU(c); }
    }
  }
}
