/** Where the emulator departs from the processor, and exactly when it does not. */
module Departures {
  import opened Machine
  import opened Emulator
  import opened Relation
  import opened Access
  import opened Simulation
  import Bits

  // ----- flags of an addition

  /** Carry out of bit i of d + s. */
  predicate CarryOut(d: nat, s: nat, i: nat) {
    d % Bits.Pow2(i + 1) + s % Bits.Pow2(i + 1) >= Bits.Pow2(i + 1)
  }

  lemma CarryIsBorrow(d: nat, s: nat, i: nat)
    ensures Bits.Borrow(d + s, s, 0, i + 1) == CarryOut(d, s, i)
  {
    var p := Bits.Pow2(i + 1);
    var x, y := d % p, s % p;
    Bits.ModUnique(d + s, p, d / p + s / p + (if x + y >= p then 1 else 0), if x + y >= p then x + y - p else x + y);
  }

  /** Bit i of (r & (~d | s)) | (~d & s) is the carry out of bit i of the sum r = d + s exactly if bit i
      of the sum is bit i of d. */
  lemma CarryWordBit(w: nat, d: nat, s: nat, i: nat)
    requires d < Bits.Pow2(w) && s < Bits.Pow2(w) && i < w
    ensures var r, n := (d + s) % Bits.Pow2(w), Bits.Not(w, d);
            Bits.Bit(Bits.Or(Bits.And(r, Bits.Or(n, s)), Bits.And(n, s)), i) == CarryOut(d, s, i)
            <==> Bits.Bit(r, i) == Bits.Bit(d, i)
  {
    hide Bits.And, Bits.Or, Bits.Not, Bits.Bit;
    var r, n := (d + s) % Bits.Pow2(w), Bits.Not(w, d);
    Bits.ModBit(d + s, w, i);
    Bits.DifferenceBit(d + s, s, 0, i);
    Bits.BorrowOut(d + s, s, 0, i);
    CarryIsBorrow(d, s, i);
    Bits.NotBit(w, d, i);
    Bits.OrBit(n, s, i);
    Bits.AndBit(r, Bits.Or(n, s), i);
    Bits.AndBit(n, s, i);
    Bits.OrBit(Bits.And(r, Bits.Or(n, s)), Bits.And(n, s), i);
  }

  lemma TopCarries(d: Word, s: Word)
    ensures CarryOut(d, s, 63) == (d + s >= M64)
    ensures (CarryOut(d, s, 63) != CarryOut(d, s, 62)) == !SignedFits(Signed(d) + Signed(s))
  {
    hide Bits.Pow2;
    Pow64();
    Bits.ModUnique(d, M64, 0, d);
    Bits.ModUnique(s, M64, 0, s);
    Bits.ModUnique(d, M63, Bits.BitVal(d >= M63), if d >= M63 then d - M63 else d);
    Bits.ModUnique(s, M63, Bits.BitVal(s >= M63), if s >= M63 then s - M63 else s);
  }

  /** Flags set by an addition: zero and sign are right; carry is right exactly if the sum has the sign of
      the first operand; overflow is right exactly if the two top bits of sum and first operand agree or both
      differ. */
  lemma AddFlagsExact(d: Word, s: Word, f: Flags)
    ensures var e, a, r := AddFlags(d, s), ResultFlags(Add, d, s, f), Wrap(d + s);
            && e.zf == a.zf && e.sf == a.sf
            && (e.cf == a.cf <==> (r >= M63) == (d >= M63))
            && (e.of == a.of <==>
                  ((r >= M63) == (d >= M63)) == (Bits.Bit(r, 62) == Bits.Bit(d, 62)))
  {
    hide Bits.Pow2, Bits.Bit, Bits.And, Bits.Or, Bits.Not;
    Pow64();
    CarryWordBit(64, d, s, 63);
    CarryWordBit(64, d, s, 62);
    TopCarries(d, s);
    Bits.TopBit(Wrap(d + s), 64);
    Bits.TopBit(d, 64);
  }

  /** 2^63 + 2^63 carries and overflows; the emulator misses both. */
  lemma AddCarryMissed()
    ensures var e, a := AddFlags(M63, M63), ResultFlags(Add, M63, M63, Flags(false, false, false, false));
            a.cf && a.of && !e.cf && !e.of
  {
    hide AddFlags, Bits.Bit;
    AddFlagsExact(M63, M63, Flags(false, false, false, false));
    assert Wrap(M63 + M63) == 0;
    Pow64();
    assert !Bits.Bit(0, 62) && !Bits.Bit(M63, 62) by { TopAlone(); }
  }

  lemma TopAlone()
    ensures !Bits.Bit(0, 62) && !Bits.Bit(M63, 62)
  {
    hide Bits.Bit, Bits.Pow2;
    Pow64();
    Bits.ZeroBit(62);
    Bits.ModBit(M63, 63, 62);
    Bits.ModUnique(M63, M63, 1, 0);
  }

  /** What SumKnown leaves out. */
  lemma SumKnownExact(d: Word, s: Word)
    ensures var r := Wrap(d + s);
            && ZF in SumKnown(d, s) && SF in SumKnown(d, s)
            && (CF in SumKnown(d, s) <==> (r >= M63) == (d >= M63))
            && (OF in SumKnown(d, s) <==> ((r >= M63) == (d >= M63)) == (Bits.Bit(r, 62) == Bits.Bit(d, 62)))
  {
    hide AddFlags, ResultFlags, Bits.Bit;
    AddFlagsExact(d, s, AddFlags(d, s));
  }

  /** A product leaves the emulator's flags alone: what it then takes for overflow is right exactly if it was. */
  lemma ProductFlags(es: EState, v1: Ev, v2: Ev, f: Flags)
    ensures var e := FlagsAfter(es, Imul, v1, v2, false);
            && e == es
            && (e.flags.of == ResultFlags(Imul, v1.val, v2.val, f).of <==>
                  es.flags.of == !SignedFits(Signed(v1.val) * Signed(v2.val)))
  {}

  // ----- addresses on the stack

  function Moved(v: Ev, delta: int): Word {
    if v.st == StackRel then Wrap(v.val + delta) else v.val
  }

  /** The result of an operation with one stack-relative operand moves with the stack, wherever the stack lies. */
  ghost predicate MovesAlong(op: AluOp, v1: Ev, v2: Ev) {
    forall delta: int :: Result(op, Moved(v1, delta), Moved(v2, delta)) == Wrap(Result(op, v1.val, v2.val) + delta)
  }

  lemma NotByOne(op: AluOp, v1: Ev, v2: Ev)
    requires op in {Add, Sub, Imul} && CombineState(v1.st, v2.st, false) == StackRel && !AnchorExact(op, v1, v2)
    ensures Result(op, Moved(v1, 1), Moved(v2, 1)) != Wrap(Result(op, v1.val, v2.val) + 1)
  {
    hide Wrap;
    if op == Sub {
      SubMoves(v1.val, v2.val);
    } else if v1.st == StackRel {
      ProductMoves(v2.val, v1.val);
    } else {
      ProductMoves(v1.val, v2.val);
    }
  }

  /** Calling such a result stack-relative is right exactly for additions, for a stack address minus a known
      value, and for a product with the known value one. */
  lemma AnchorIff(op: AluOp, v1: Ev, v2: Ev)
    requires op in {Add, Sub, Imul} && CombineState(v1.st, v2.st, false) == StackRel
    requires op == Imul ==> !StaticZero(v1) && !StaticZero(v2)
    ensures AnchorExact(op, v1, v2) <==> MovesAlong(op, v1, v2)
  {
    if AnchorExact(op, v1, v2) {
      forall delta: int
        ensures Result(op, Moved(v1, delta), Moved(v2, delta)) == Wrap(Result(op, v1.val, v2.val) + delta)
      {
        AnchoredResult(op, v1, v2, Moved(v1, delta), Moved(v2, delta), delta);
      }
    } else {
      NotByOne(op, v1, v2);
      assert Result(op, Moved(v1, 1), Moved(v2, 1)) != Wrap(Result(op, v1.val, v2.val) + 1);
    }
  }

  /** A known value minus a stack address, and twice a stack address, count as stack addresses but are none. */
  lemma AnchorWrong()
    ensures var one, two, top := Ev(1, W64, Static), Ev(2, W64, Static), Ev(0, W64, StackRel);
            && ResultState(Sub, one, top, false) == StackRel && !MovesAlong(Sub, one, top)
            && ResultState(Imul, top, two, false) == StackRel && !MovesAlong(Imul, top, two)
  {
    AnchorIff(Sub, Ev(1, W64, Static), Ev(0, W64, StackRel));
    AnchorIff(Imul, Ev(0, W64, StackRel), Ev(2, W64, Static));
  }

  /** An address with its stack-relative registers moved. */
  function MovedAddress(es: EState, m: MemRef, ip: Word, delta: int): Word
    requires es.Valid()
  {
    var b := match m.base
      case NoBase => 0
      case Gp(r) => Moved(Ev(es.reg[r], W64, es.rs[r]), delta)
      case Rip => ip;
    Wrap(m.disp + b + Times(m.scale, Moved(Ev(es.reg[m.idx], W64, es.rs[m.idx]), delta)))
  }

  /** An address counts as stack-relative also when its stack-relative index is scaled. It moves with the stack,
      wherever the stack lies, exactly if it is not. */
  lemma ScaledAnchorIff(es: EState, m: MemRef, ip: Word)
    requires es.Valid() && OpAddr(es, m, ip).st == StackRel
    ensures AddrExact(es, m, ip) <==>
            forall delta: int :: MovedAddress(es, m, ip, delta) == Wrap(OpAddr(es, m, ip).val + delta)
  {
    if AddrExact(es, m, ip) {
      forall delta: int ensures MovedAddress(es, m, ip, delta) == Wrap(OpAddr(es, m, ip).val + delta) {
        UnscaledMoves(es, m, ip, delta);
      }
    } else {
      OpAddrSum(es, m, ip);
      var b := match m.base case NoBase => 0 case Gp(r) => es.reg[r] case Rip => ip;
      var i: int := es.reg[m.idx];
      assert MovedAddress(es, m, ip, 1) == Wrap(m.disp + b + Times(m.scale, Wrap(i + 1)));
      hide Times, Wrap, OpAddr;
      ScaledMoves(m.scale, m.disp + b, i);
      WrapAdd(m.disp + b + Times(m.scale, i), 1);
    }
  }

  lemma UnscaledMoves(es: EState, m: MemRef, ip: Word, delta: int)
    requires es.Valid() && OpAddr(es, m, ip).st == StackRel && AddrExact(es, m, ip)
    ensures MovedAddress(es, m, ip, delta) == Wrap(OpAddr(es, m, ip).val + delta)
  {
    hide Times, Wrap;
    OpAddrSum(es, m, ip);
    var b := match m.base case NoBase => 0 case Gp(r) => es.reg[r] case Rip => ip;
    var i := es.reg[m.idx];
    if m.scale > 0 && es.rs[m.idx] == StackRel {
      WrapShift(m.disp + b, i, delta);
      TimesOne(m.scale, i);
      TimesOne(m.scale, Wrap(i + delta));
    } else {
      WrapShift(m.disp + Times(m.scale, i), b, delta);
      TimesZero(m.scale, i, Moved(Ev(i, W64, es.rs[m.idx]), delta));
    }
  }

  lemma TimesOne(k: Scale, x: int)
    requires k == 1
    ensures Times(k, x) == x
  {}

  lemma TimesZero(k: Scale, x: int, y: int)
    requires k == 0 || x == y
    ensures Times(k, x) == Times(k, y)
  {}

  lemma ScaledMoves(k: Scale, d: int, i: Word)
    requires k > 1
    ensures Wrap(d + Times(k, Wrap(i + 1))) != Wrap(d + Times(k, i) + 1)
  {
    var x := Wrap(i + 1);
    var c := if i + 1 == M64 then 1 else 0;
    assert x == i + 1 - c * M64;
    var y, z := d + Times(k, x), d + Times(k, i) + 1;
    assert y - z == k - 1 - k * c * M64;
    if Wrap(y) == Wrap(z) {
      SameWrap(y, z);
      SmallMultiple(k - 1, (y - z) / M64 + k * c);
    }
  }

  lemma SubMoves(a: Word, b: Word)
    ensures Wrap(a - Wrap(b + 1)) == Wrap(a - b - 1)
    ensures Wrap(a - Wrap(b + 1)) != Wrap(Wrap(a - b) + 1)
  {
    var k := if b + 1 >= M64 then 1 else 0;
    assert Wrap(b + 1) == b + 1 - k * M64;
    Bits.ModUnique(b + 1, M64, k, b + 1 - k * M64);
  }

  /** Multiplied by c != 1, a value moved by one does not move by one. */
  lemma ProductMoves(c: Word, x: Word)
    requires c != 1
    ensures Wrap(c * Wrap(x + 1)) != Wrap(Wrap(c * x) + 1)
    ensures Wrap(Wrap(x + 1) * c) != Wrap(Wrap(x * c) + 1)
  {
    var k := (x + 1) / M64;
    assert Wrap(x + 1) == x + 1 - k * M64;
    var q := c * x / M64;
    assert c * x == q * M64 + Wrap(c * x);
    if Wrap(c * Wrap(x + 1)) == Wrap(Wrap(c * x) + 1) {
      var y, z := c * Wrap(x + 1), Wrap(c * x) + 1;
      assert y == c * x + c - c * k * M64;
      assert y - z == c - 1 + (q - c * k) * M64;
      SameWrap(y, z);
      var j := (y - z) / M64;
      assert c - 1 == (j - q + c * k) * M64;
      SmallMultiple(c - 1, j - q + c * k);
    }
    assert Wrap(x + 1) * c == c * Wrap(x + 1) && x * c == c * x;
  }

  lemma SameWrap(y: int, z: int)
    requires Wrap(y) == Wrap(z)
    ensures (y - z) % M64 == 0 && y - z == (y - z) / M64 * M64
  {
    assert y - z == (y / M64 - z / M64) * M64;
    Bits.ModUnique(y - z, M64, y / M64 - z / M64, 0);
  }

  lemma SmallMultiple(a: int, j: int)
    requires a == j * M64 && -1 <= a < M64 - 1
    ensures a == 0
  {}

  // ----- materialising a stack slot

  predicate KnownIn(es: EState, m: MemRef)
    requires es.Valid()
  {
    (m.base.Gp? && IsStatic(es.rs[m.base.r])) || (m.scale > 0 && IsStatic(es.rs[m.idx]))
  }

  /** A known register in an address, which the residual program need not hold. */
  function KnownReg(es: EState, m: MemRef): (r: Reg)
    requires es.Valid() && KnownIn(es, m)
    ensures IsStatic(es.rs[r])
  {
    if m.base.Gp? && IsStatic(es.rs[m.base.r]) then m.base.r else m.idx
  }

  /** How often it is counted. */
  function Weight(m: MemRef, r: Reg): (c: nat)
    ensures c <= 9
  {
    (if m.base == Gp(r) then 1 else 0) + (if m.idx == r then m.scale else 0)
  }

  lemma WeightCounts(es: EState, m: MemRef)
    requires es.Valid() && KnownIn(es, m)
    ensures Weight(m, KnownReg(es, m)) >= 1
  {}

  /** The sum of an address before it is reduced. */
  function Sum(reg: seq<Word>, m: MemRef): int
    requires |reg| == 16
  {
    m.disp + (if m.base.Gp? then reg[m.base.r] else 0) + Times(m.scale, reg[m.idx])
  }

  /** With n added to the register the address grows by its weight. */
  lemma AddressGrows(t: Mach, m: MemRef, r: Reg, n: nat)
    requires t.Valid() && !m.base.Rip?
    ensures EffAddr(t.(reg := t.reg[r := Wrap(t.reg[r] + n)]), m, 0) == Wrap(EffAddr(t, m, 0) + Weight(m, r) * n)
  {
    hide Sum, EffAddr, Wrap, Weight;
    var x: int, w := t.reg[r], Weight(m, r);
    var c := Reduced(x + n);
    AddressSum(t, m);
    AddressSum(t.(reg := t.reg[r := Wrap(x + n)]), m);
    Linear(m, r, t.reg, n - c * M64);
    Distribute(w, n, c);
    WrapMultiple(Sum(t.reg, m) + w * n, -(w * c));
    WrapAdd(Sum(t.reg, m), w * n);
  }

  lemma AddressSum(t: Mach, m: MemRef)
    requires t.Valid() && !m.base.Rip?
    ensures EffAddr(t, m, 0) == Wrap(Sum(t.reg, m))
  {
    hide Times;
  }

  lemma Reduced(x: int) returns (c: int)
    ensures Wrap(x) == x - c * M64
  {
    c := x / M64;
  }

  lemma Distribute(w: int, n: int, c: int)
    ensures w * (n - c * M64) == w * n + (-(w * c)) * M64
  {}

  lemma Linear(m: MemRef, r: Reg, reg: seq<Word>, d: int)
    requires |reg| == 16 && 0 <= reg[r] + d < M64
    ensures Sum(reg[r := reg[r] + d], m) == Sum(reg, m) + Weight(m, r) * d
  {}

  /** The captured move that materialises a known stack slot keeps the registers of the operand, the operation
      after it has them folded: whatever machine the residual program runs on, both address the same slot exactly if
      no register of the operand is known. */
  lemma MaterialisedAddress(es: EState, fr: Frame, s: Mach, t: Mach, m: MemRef, ip: Word)
    requires StateRel(es, fr, s, t) && !m.base.Rip?
    ensures (forall u: Mach :: u.Valid() && StateRel(es, fr, s, u) ==>
               EffAddr(u, m, 0) == EffAddr(u, FoldMem(es, m, ip), 0))
            <==> !KnownIn(es, m)
  {
    if KnownIn(es, m) {
      var r := KnownReg(es, m);
      var next: int := t.reg[r] as int + 1;
      var u := t.(reg := t.reg[r := Wrap(next)]);
      MaterialiseReg(es, fr, s, t, r, Wrap(next));
      hide StateRel, FoldMem;
      WeightCounts(es, m);
      AddressGrows(t, m, r, 1);
      assert EffAddr(u, m, 0) != EffAddr(t, m, 0) by { WrapMoves(EffAddr(t, m, 0), Weight(m, r)); }
      FoldedAlone(es, t, u, m, ip, r);
      assert EffAddr(t, m, 0) != EffAddr(t, FoldMem(es, m, ip), 0) ||
             EffAddr(u, m, 0) != EffAddr(u, FoldMem(es, m, ip), 0);
    } else {
      assert FoldMem(es, m, ip) == m;
    }
  }

  lemma WrapMoves(a: Word, w: nat)
    requires 1 <= w < M64
    ensures Wrap(a + w) != a
  {}

  /** The folded operand does not depend on a known register. */
  lemma FoldedAlone(es: EState, t: Mach, u: Mach, m: MemRef, ip: Word, r: Reg)
    requires es.Valid() && t.Valid() && u.Valid() && IsStatic(es.rs[r])
    requires forall q: Reg :: q != r ==> u.reg[q] == t.reg[q]
    ensures EffAddr(u, FoldMem(es, m, ip), 0) == EffAddr(t, FoldMem(es, m, ip), 0)
  {
    var f := FoldMem(es, m, ip);
    assert f.base != Gp(r) && (f.scale > 0 ==> f.idx != r);
  }

  const FAR: nat := 0x1000_0000_0000_0000

  /** The register can be such that the address is off the private stack. */
  lemma FarAddress(es: EState, fr: Frame, s: Mach, t: Mach, m: MemRef) returns (u: Mach)
    requires StateRel(es, fr, s, t) && !m.base.Rip? && KnownIn(es, m) && fr.size <= FAR / 2
    ensures u.Valid() && StateRel(es, fr, s, u) && !InWindow(es, fr, EffAddr(u, m, 0))
  {
    u := t;
    if InWindow(es, fr, EffAddr(t, m, 0)) {
      var r := KnownReg(es, m);
      u := t.(reg := t.reg[r := Wrap(t.reg[r] + FAR)]);
      MaterialiseReg(es, fr, s, t, r, Wrap(t.reg[r] + FAR));
      WeightCounts(es, m);
      AddressGrows(t, m, r, FAR);
      hide StateRel;
      var a, w := EffAddr(t, m, 0), Weight(m, r);
      assert FAR <= w * FAR <= 9 * FAR;
      FarApart(a, w * FAR);
    }
  }

  lemma FarApart(a: Word, d: nat)
    requires FAR <= d <= 9 * FAR
    ensures Wrap(a + d) <= a - FAR || Wrap(a + d) >= a + FAR
  {}

  /** Memory off the private stack is not described, only the same in both machines. */
  lemma ByteChanged(es: EState, fr: Frame, s: Mach, t: Mach, a: Word, v: Byte)
    requires StateRel(es, fr, s, t) && !InWindow(es, fr, a)
    ensures StateRel(es, fr, s.(mem := Poke(s.mem, a, v)), t.(mem := Poke(t.mem, a, v)))
  {
    WindowSame(es, fr, s, t, Poke(s.mem, a, v), Poke(t.mem, a, v));
  }

  function Poke(mem: Memory, a: Word, v: Byte): Memory {
    (x: int) => if x == a then v else mem(x)
  }

  /** A known word stored through an operand with a known register can hit memory of the original program. */
  lemma UnfoldedStore(es: EState, fr: Frame, s: Mach, t: Mach, m: MemRef, v: Word)
    requires StateRel(es, fr, s, t) && !m.base.Rip? && KnownIn(es, m) && fr.size <= FAR / 2
    ensures exists x: Mach, y: Mach :: StateRel(es, fr, x, y) && !StateRel(es, fr, x, Assign(y, M(m), v, 0))
  {
    var u := FarAddress(es, fr, s, t, m);
    var a := EffAddr(u, m, 0);
    var b: Byte := (Bytes8(v)[0] as int + 1) % 256;
    ByteChanged(es, fr, s, u, a, b);
    var x, y := s.(mem := Poke(s.mem, a, b)), u.(mem := Poke(u.mem, a, b));
    var z := Assign(y, M(m), v, 0);
    assert EffAddr(y, m, 0) == a && Wrap(a - a) == 0;
    assert z.mem(a) == Bytes8(v)[0] != x.mem(a);
    assert !OutRel(es, fr, x.mem, z.mem);
    assert StateRel(es, fr, x, y) && !StateRel(es, fr, x, z);
  }

  /** The move captured in front of an operation or comparison to load its known destination d keeps the relation,
      for all machines in relation, exactly if d is tracked and names no known register. */
  lemma MaterialisedStore(es: EState, fr: Frame, s: Mach, t: Mach, d: Operand, ip: Word, rd: Word -> Word)
    requires StateRel(es, fr, s, t) && OperandValid(d) && (d.R? || (d.M? && !d.m.base.Rip?)) && fr.size <= FAR / 2
    requires OpValue(es, d, ip, rd).Ok? && IsStatic(OpValue(es, d, ip, rd).value.st)
    requires AddressExact(es, d, ip) && LoadExact(es, fr.slots, d, ip)
    ensures (forall x: Mach, y: Mach :: x.Valid() && y.Valid() && StateRel(es, fr, x, y) ==>
               StateRel(es, fr, x, Assign(y, d, OpValue(es, d, ip, rd).value.val, 0)))
            <==> Tracked(es, d, ip) && Fold(es, d, ip) == d
  {
    var v := OpValue(es, d, ip, rd).value;
    if Tracked(es, d, ip) && Fold(es, d, ip) == d {
      hide StateRel;
      forall x: Mach, y: Mach | x.Valid() && y.Valid() && StateRel(es, fr, x, y)
        ensures StateRel(es, fr, x, Assign(y, d, v.val, 0))
      {
        Materialise(es, fr, x, y, d, ip, rd);
      }
    } else {
      KnownOperand(es, d, ip, rd);
      hide Fold, Tracked, OpValue, KnownIn;
      UnfoldedStore(es, fr, s, t, d.m, v.val);
    }
  }

  lemma KnownOperand(es: EState, d: Operand, ip: Word, rd: Word -> Word)
    requires es.Valid() && OperandValid(d) && (d.R? || (d.M? && !d.m.base.Rip?))
    requires OpValue(es, d, ip, rd).Ok? && IsStatic(OpValue(es, d, ip, rd).value.st)
    requires !(Tracked(es, d, ip) && Fold(es, d, ip) == d)
    ensures d.M? && KnownIn(es, d.m)
  {}

  lemma WrapMultiple(x: int, j: int)
    ensures Wrap(x + j * M64) == Wrap(x)
  {
    Bits.ModUnique(x + j * M64, M64, x / M64 + j, x % M64);
  }

  // ----- slots of known and unknown bytes

  /** A tracked load that mixes known and unknown bytes is captured as a load, but the residual program need
      not have the known ones in memory: some residual machine loads another value. */
  lemma MixedLoadBreaks(es: EState, fr: Frame, s: Mach, t: Mach, off: nat, k: nat)
    requires StateRel(es, fr, s, t) && off + 8 <= |es.stack| && k < 8 && IsStatic(es.ss[off + k])
    ensures exists t': Mach ::
              && StateRel(es, fr, s, t') && t'.reg == t.reg
              && Load64(t'.mem, Cell(es, fr, off)) != Load64(s.mem, Cell(es, fr, off))
  {
    var a := Cell(es, fr, off);
    var b: Byte := (s.mem(a + k) + 1) % 256;
    var t' := t.(mem := (x: int) => if x == a + k then b else t.mem(x));
    forall i | 0 <= i < |es.stack|
      ensures ByteRel(es.ss[i], es.stack[i], s.mem(Cell(es, fr, i)), t'.mem(Cell(es, fr, i)))
    {
      assert ByteRel(es.ss[i], es.stack[i], s.mem(Cell(es, fr, i)), t.mem(Cell(es, fr, i)));
    }
    assert OutRel(es, fr, s.mem, t'.mem) by {
      forall x: Word | !InWindow(es, fr, x) ensures s.mem(x) == t'.mem(x) {
        assert InWindow(es, fr, a + k);
      }
    }
    CellsInside(s.mem, a);
    CellsInside(t'.mem, a);
    assert Cells(s.mem, a)[k] != Cells(t'.mem, a)[k];
    BytesOfWord(Cells(s.mem, a));
    BytesOfWord(Cells(t'.mem, a));
  }

  /** Such a slot: one known byte, seven unknown ones. */
  lemma MixedSlot()
    ensures var es := Sample(seq(16, i => Dyn), 8, [Static, Dyn, Dyn, Dyn, Dyn, Dyn, Dyn, Dyn]);
            var x := Mach(seq(16, i => 0), es.flags, (a: int) => 0);
            SlotState(es, 0, 8) == Dyn && IsStatic(es.ss[0]) && StateRel(es, Frame(0, 8, {}), x, x)
  {
    var es := Sample(seq(16, i => Dyn), 8, [Static, Dyn, Dyn, Dyn, Dyn, Dyn, Dyn, Dyn]);
    assert SlotState(es, 0, 1) == Static && SlotState(es, 0, 2) == Dyn;
    forall n: nat | 2 <= n <= 8 ensures SlotState(es, 0, n) == Dyn { MixedStays(es, n); }
  }

  lemma {:induction false} MixedStays(es: EState, n: nat)
    requires es.Valid() && 2 <= n <= |es.stack| && SlotState(es, 0, 2) == Dyn
    requires forall i :: 2 <= i < |es.ss| ==> es.ss[i] == Dyn
    ensures SlotState(es, 0, n) == Dyn
  {
    if n > 2 { MixedStays(es, n - 1); }
  }

  /** An emulator state with given register and stack states, all values zero. */
  function Sample(rs: seq<CState>, n: nat, ss: seq<CState>): (es: EState)
    requires |rs| == 16 && |ss| == n < M64
    ensures es.Valid()
  {
    EState(seq(16, i => 0), rs, Flags(false, false, false, false), AllFlags(Dead), 0, 0, seq(n, i => 0), ss, [], 0)
  }

  /** [2 * rax] with a stack address in rax counts as a stack address. */
  lemma ScaledIndexMoves()
    ensures var es, m := Sample(seq(16, i => Dyn)[0 := StackRel], 0, []), MemRef(NoBase, 2, 0, 0);
            OpAddr(es, m, 0).st == StackRel && MovedAddress(es, m, 0, 1) != Wrap(OpAddr(es, m, 0).val + 1)
  {}

  /** cmp [rcx], rdx with [rcx] known to be constant: the captured code stores the constant through rcx. */
  lemma KnownCompareStores(rd: Word -> Word)
    ensures var es := Sample(seq(16, i => Dyn)[RCX := Static2], 0, []);
            var d := M(MemRef(Gp(RCX), 0, 0, 0));
            && StepCmp(es, d, R(RDX), 0, rd).Ok? && !Tracked(es, d, 0)
            && StepCmp(es, d, R(RDX), 0, rd).value.code ==
               [Mov(d, I64(rd(0))), Cmp(M(MemRef(NoBase, 0, 0, 0)), R(RDX))]
  {
    var es := Sample(seq(16, i => Dyn)[RCX := Static2], 0, []);
    hide SubFlags;
    assert [Mov(M(MemRef(Gp(RCX), 0, 0, 0)), I64(rd(0)))] + [Cmp(M(MemRef(NoBase, 0, 0, 0)), R(RDX))]
        == [Mov(M(MemRef(Gp(RCX), 0, 0, 0)), I64(rd(0))), Cmp(M(MemRef(NoBase, 0, 0, 0)), R(RDX))];
  }

  // ----- addresses of which nothing is known

  lemma DeadSummand(es: EState, m: MemRef, ip: Word) returns (r: Reg)
    requires es.Valid() && OpAddr(es, m, ip).st == Dead
    ensures es.rs[r] == Dead && 1 <= Weight(FoldMem(es, m, ip), r) < M64 && !FoldMem(es, m, ip).base.Rip?
  {
    r := if m.base.Gp? && es.rs[m.base.r] == Dead then m.base.r else m.idx;
  }

  lemma DeadAddressMoves(es: EState, fr: Frame, s: Mach, t: Mach, m: MemRef, ip: Word) returns (u: Mach)
    requires StateRel(es, fr, s, t) && OpAddr(es, m, ip).st == Dead
    ensures u.Valid() && StateRel(es, fr, s, u)
    ensures EffAddr(u, FoldMem(es, m, ip), 0) != EffAddr(t, FoldMem(es, m, ip), 0)
  {
    hide RegRel, OutRel, StackRelBytes, SlotRel, FoldMem, OpAddr, Weight, EffAddr, Wrap;
    var f := FoldMem(es, m, ip);
    var r := DeadSummand(es, m, ip);
    var next: int := t.reg[r] as int + 1;
    u := t.(reg := t.reg[r := Wrap(next)]);
    RegisterSet(es, fr, s, t, r, es.reg[r], Dead, s.reg[r], Wrap(next));
    assert es.(reg := es.reg[r := es.reg[r]], rs := es.rs[r := Dead]) == es && s.(reg := s.reg[r := s.reg[r]]) == s;
    AddressGrows(t, f, r, 1);
    WrapMoves(EffAddr(t, f, 0), Weight(f, r));
  }

  /** The residual program uses the original address, whatever machine it runs on, exactly if no register of it is
      dead. */
  lemma DeadAddressExact(es: EState, fr: Frame, s: Mach, t: Mach, m: MemRef, ip: Word)
    requires StateRel(es, fr, s, t)
    ensures (forall u: Mach :: u.Valid() && StateRel(es, fr, s, u) ==>
               EffAddr(u, FoldMem(es, m, ip), 0) == EffAddr(s, m, ip))
            <==> OpAddr(es, m, ip).st != Dead
  {
    if OpAddr(es, m, ip).st == Dead {
      var u := DeadAddressMoves(es, fr, s, t, m, ip);
      assert EffAddr(u, FoldMem(es, m, ip), 0) != EffAddr(t, FoldMem(es, m, ip), 0);
    } else {
      forall u: Mach | u.Valid() && StateRel(es, fr, s, u)
        ensures EffAddr(u, FoldMem(es, m, ip), 0) == EffAddr(s, m, ip)
      {
        FoldedAddress(es, fr, s, u, m, ip);
      }
    }
  }

  // ----- flags of an operation that is left out

  lemma {:induction false} MovesKeepFlags(t: Mach, code: seq<Instr>)
    requires t.Valid() && AllValid(code) && forall k :: 0 <= k < |code| ==> code[k].Mov?
    ensures ExecAll(t, code).flags == t.flags
    decreases |code|
  {
    if code != [] { MovesKeepFlags(t, code[..|code| - 1]); }
  }

  lemma OnlyMoves(es: EState, cfg: Config, op: AluOp, d: Operand, o: Operand, v1: Ev, u2: Ev, res: Ev, ip: Word)
    requires es.Valid() && !Executed(es, op, d, v1, u2, res.st, ip)
    ensures forall k :: 0 <= k < |CaptureBinary(es, cfg, op, d, o, v1, u2, res, ip).0| ==>
              CaptureBinary(es, cfg, op, d, o, v1, u2, res, ip).0[k].Mov?
  {
    hide Tracked, Fold;
  }

  /** What the captured code of an operation leaves in flag x, for every content of the flags before it. */
  ghost predicate FlagFollows(t: Mach, code: seq<Instr>, f: Flags, x: Flag)
    requires t.Valid() && AllValid(code)
  {
    forall g: Flags :: FlagVal(ExecAll(t.(flags := g), code).flags, x) == FlagVal(f, x)
  }

  /** The residual program gets the original flags of an operation, whatever its flags were, exactly if the captured
      code executes it: not if it is left out because its source is neutral, replaced by a move, or known. */
  lemma DroppedFlags(es: EState, fr: Frame, s: Mach, t: Mach, cfg: Config, op: AluOp, d: Operand, o: Operand,
                     ip: Word, rd: Word -> Word, x: Flag)
    requires es.Valid() && s.Valid() && t.Valid()
    requires AluReady(es, fr, s, t, op, d, o, ip, rd) && StepAlu(es, cfg, op, d, o, ip, rd).Ok?
    requires op == Imul ==> x in {CF, OF}
    ensures AllValid(StepAlu(es, cfg, op, d, o, ip, rd).value.code)
    ensures FlagFollows(t, StepAlu(es, cfg, op, d, o, ip, rd).value.code,
                        ResultFlags(op, Value(s, d, ip), Value(s, o, ip), s.flags), x)
            <==> Executes(es, op, d, o, ip, rd)
  {
    hide StateRel, Result, ResultFlags, FlagsAfter, CaptureBinary, OpValue, Value, ExecAll, Faithful, Safe, AddFlags,
         SubFlags;
    var l := Live({}, {});
    SimAlu(es, fr, s, t, cfg, op, d, o, l, ip, rd);
    var code := StepAlu(es, cfg, op, d, o, ip, rd).value.code;
    var f := ResultFlags(op, Value(s, d, ip), Value(s, o, ip), s.flags);
    StepAluIs(es, cfg, op, d, o, ip, rd);
    if Executes(es, op, d, o, ip, rd) {
      forall g: Flags ensures FlagVal(ExecAll(t.(flags := g), code).flags, x) == FlagVal(f, x) {
        FlagsIrrelevant(es, fr, s, t, es, s, t.(flags := g));
        SimAlu(es, fr, s, t.(flags := g), cfg, op, d, o, l, ip, rd);
        assert x in FlagsKept(es, l, Alu(op, d, o), ip, rd).same;
      }
    } else {
      var w := View(es, op, d, o, ip, rd);
      OnlyMoves(es, cfg, op, d, o, w.v1, w.u2, w.res, ip);
      var b := !FlagVal(f, x);
      var g := Flags(b, b, b, b);
      MovesKeepFlags(t.(flags := g), code);
      assert FlagVal(ExecAll(t.(flags := g), code).flags, x) == b;
    }
  }

  /** add rax, 0 on an unknown register is left out, and whatever the flags were stays. */
  lemma NeutralDropped(cfg: Config, rd: Word -> Word, t: Mach)
    requires t.Valid()
    ensures var es := Sample(seq(16, i => Dyn), 0, []);
            var r := StepAlu(es, cfg, Add, R(RAX), I64(0), 0, rd);
            r.Ok? && AllValid(r.value.code) && ExecAll(t, r.value.code) == t
  {
    hide AddFlags;
    var es := Sample(seq(16, i => Dyn), 0, []);
    assert CaptureOp(es, Add, R(RAX), I64(0), Ev(0, W64, Static), 0) == [];
    assert ExecAll(t, []) == t;
  }

  // ----- stack addresses that overlap

  /** The word at byte k of two adjacent ones. */
  function Straddle(a: Word, b: Word, k: nat): Word
    requires k <= 8
  {
    Word8((Bytes8(a) + Bytes8(b))[k..k + 8])
  }

  lemma {:induction false} WordOfConcat(x: seq<Byte>, y: seq<Byte>)
    ensures WordOf(x + y) == WordOf(x) + Pow256(|x|) * WordOf(y)
  {
    if x == [] {
      assert x + y == y;
    } else {
      WordOfConcat(x[1..], y);
      assert (x + y)[1..] == x[1..] + y && (x + y)[0] == x[0];
      Scaled(Pow256(|x| - 1), WordOf(y));
    }
  }

  lemma Scaled(p: nat, w: nat)
    ensures 256 * (p * w) == (256 * p) * w
  {}

  function Low(v: Word, k: nat): (l: nat)
    requires k <= 8
    ensures l < Pow256(k)
  {
    WordOf(Bytes8(v)[..k])
  }

  function High(v: Word, k: nat): (h: nat)
    requires k <= 8
    ensures h < Pow256(8 - k)
  {
    WordOf(Bytes8(v)[k..])
  }

  lemma TwoParts(v: Word, k: nat)
    requires k <= 8
    ensures v == Low(v, k) + Pow256(k) * High(v, k)
  {
    assert Bytes8(v) == Bytes8(v)[..k] + Bytes8(v)[k..];
    WordOfConcat(Bytes8(v)[..k], Bytes8(v)[k..]);
  }

  lemma StraddleParts(a: Word, b: Word, k: nat)
    requires k <= 8
    ensures Straddle(a, b, k) == High(a, k) + Pow256(8 - k) * Low(b, k)
  {
    hide Pow256, Bytes8;
    var x, y := Bytes8(a), Bytes8(b);
    assert (x + y)[k..k + 8] == x[k..] + y[..k];
    WordOfConcat(x[k..], y[..k]);
  }

  lemma PowersOf256(k: nat)
    requires 0 < k < 8
    ensures Pow256(k) * Pow256(8 - k) == M64 && 256 <= Pow256(k) <= M64 / 256
  {
    assert Pow256(1) == 256 && Pow256(2) == 0x1_0000 && Pow256(3) == 0x100_0000;
    assert Pow256(4) == 0x1_0000_0000 && Pow256(5) == 0x100_0000_0000 && Pow256(6) == 0x1_0000_0000_0000;
    assert Pow256(7) == 0x100_0000_0000_0000;
  }

  /** Adding 256^k leaves the low bytes and counts the high ones up. */
  lemma PartsMove(v: Word, k: nat)
    requires 0 < k < 8
    ensures var v' := Wrap(v + Pow256(k));
            Low(v', k) == Low(v, k) && High(v', k) == (if High(v, k) + 1 == Pow256(8 - k) then 0 else High(v, k) + 1)
  {
    hide Low, High, Pow256;
    var p, q := Pow256(k), Pow256(8 - k);
    PowersOf256(k);
    var v' := Wrap(v + p);
    TwoParts(v, k);
    TwoParts(v', k);
    var l, h := Low(v, k), High(v, k);
    var c := if h + 1 == q then 1 else 0;
    var h1 := h + 1 - c * q;
    assert p * (h + 1) == p * h + p;
    assert v + p == l + p * h1 + c * M64 by { if c == 1 { assert p * q == M64; } }
    assert 0 <= l + p * h1 < M64 by { Below(l, p, h1, q); }
    assert v' == l + p * h1;
    Bits.ModUnique(v', p, h1, l);
    Bits.ModUnique(v', p, High(v', k), Low(v', k));
    SameHigh(p, h1, High(v', k));
  }

  lemma Below(l: nat, p: nat, h: nat, q: nat)
    requires l < p && h < q
    ensures 0 <= l + p * h < p * q
  {
    assert p * (h + 1) <= p * q;
  }

  lemma SameHigh(p: nat, x: nat, y: nat)
    requires p > 0 && p * x == p * y
    ensures x == y
  {}

  ghost predicate StraddleMoves(a: Word, b: Word, k: nat, delta: int)
    requires k <= 8
  {
    Straddle(Wrap(a + delta), Wrap(b + delta), k) == Wrap(Straddle(a, b, k) + delta)
  }

  /** The word at byte k of two adjacent stack addresses moves with the stack, wherever the stack lies, exactly if it is
      one of them. */
  lemma StraddleExact(a: Word, b: Word, k: nat)
    requires k <= 8
    ensures (forall delta: int :: StraddleMoves(a, b, k, delta)) <==> k == 0 || k == 8
  {
    hide Straddle, Wrap;
    if 0 < k < 8 {
      StraddleBreaks(a, b, k);
    } else {
      forall delta: int ensures StraddleMoves(a, b, k, delta) {
        StraddleWhole(a, b, k);
        StraddleWhole(Wrap(a + delta), Wrap(b + delta), k);
      }
    }
  }

  lemma StraddleWhole(a: Word, b: Word, k: nat)
    requires k == 0 || k == 8
    ensures Straddle(a, b, k) == if k == 0 then a else b
  {
    hide Bytes8;
    var x, y := Bytes8(a), Bytes8(b);
    assert (x + y)[0..8] == x && (x + y)[8..16] == y;
  }

  lemma StraddleBreaks(a: Word, b: Word, k: nat)
    requires 0 < k < 8
    ensures !forall delta: int :: StraddleMoves(a, b, k, delta)
  {
    hide Pow256, Straddle, Wrap;
    var p := Pow256(k);
    StraddleStep(a, b, k);
    PowersOf256(k);
    PowersOf256(8 - k);
    MovesByOne(Straddle(a, b, k), Straddle(Wrap(a + p), Wrap(b + p), k), p, Pow256(8 - k));
    assert !StraddleMoves(a, b, k, p);
  }

  /** Two adjacent slots with stack addresses: what the emulator says about the word at byte k of them, a stack address,
      describes the original machine exactly if that word moves by the distance of the stack. */
  lemma StraddledLoad(es: EState, fr: Frame, s: Mach, t: Mach, i: nat, k: nat)
    requires StateRel(es, fr, s, t) && k <= 8 && i + 16 <= |es.stack|
    requires IsSlot(es, fr.slots, i) && IsSlot(es, fr.slots, i + 8) && AllStackRel(es, i) && AllStackRel(es, i + 8)
    ensures SlotState(es, i + k, 8) == StackRel
    ensures ValRel(StackRel, Word8(es.stack[i + k..i + k + 8]), Load64(s.mem, Cell(es, fr, i + k)),
                   Load64(t.mem, Cell(es, fr, i + k)), fr.delta)
            <==> StraddleMoves(Word8(es.stack[i..i + 8]), Word8(es.stack[i + 8..i + 16]), k, fr.delta)
  {
    hide RegRel, OutRel, StackRelBytes, SlotRel, SlotState, SlotHolds, Straddle, Word8, Wrap;
    assert forall j :: i <= j < i + 16 ==> es.ss[j] == StackRel;
    StackRelSlot(es, i + k, 8);
    assert AllStackRel(es, i + k);
    SameLoad(es, fr, s, t, i + k);
    SpilledAt(es, fr, s, t, i);
    SpilledAt(es, fr, s, t, i + 8);
    StackWord(es, i, k);
    StraddleMemory(s.mem, Cell(es, fr, i), k);
  }

  lemma SpilledAt(es: EState, fr: Frame, s: Mach, t: Mach, i: nat)
    requires StateRel(es, fr, s, t) && IsSlot(es, fr.slots, i) && AllStackRel(es, i)
    ensures 0 <= Cell(es, fr, i) && Cell(es, fr, i) + 8 <= M64
    ensures Load64(s.mem, Cell(es, fr, i)) == Wrap(Word8(es.stack[i..i + 8]) + fr.delta)
  {
    assert SlotHolds(es, fr, s.mem, i);
  }

  lemma StackWord(es: EState, i: nat, k: nat)
    requires es.Valid() && k <= 8 && i + 16 <= |es.stack|
    ensures Word8(es.stack[i + k..i + k + 8]) == Straddle(Word8(es.stack[i..i + 8]), Word8(es.stack[i + 8..i + 16]), k)
  {
    hide Straddle, Word8;
    var s := es.stack[i..i + 16];
    StraddleBytes(s, k);
    assert s[k..k + 8] == es.stack[i + k..i + k + 8];
    assert s[..8] == es.stack[i..i + 8] && s[8..] == es.stack[i + 8..i + 16];
  }

  lemma {:induction false} StackRelSlot(es: EState, off: nat, n: nat)
    requires es.Valid() && 1 <= n && off + n <= |es.stack| && forall j :: off <= j < off + n ==> es.ss[j] == StackRel
    ensures SlotState(es, off, n) == StackRel
  {
    if n > 1 { StackRelSlot(es, off, n - 1); }
  }

  lemma SameLoad(es: EState, fr: Frame, s: Mach, t: Mach, off: nat)
    requires StateRel(es, fr, s, t) && off + 8 <= |es.stack| && AllStackRel(es, off)
    ensures Load64(s.mem, Cell(es, fr, off)) == Load64(t.mem, Cell(es, fr, off))
  {
    var a := Cell(es, fr, off);
    CellsInside(s.mem, a);
    CellsInside(t.mem, a);
    forall j | 0 <= j < 8 ensures Cells(s.mem, a)[j] == Cells(t.mem, a)[j] {
      assert ByteRel(es.ss[off + j], es.stack[off + j], s.mem(Cell(es, fr, off + j)), t.mem(Cell(es, fr, off + j)));
    }
    assert Cells(s.mem, a) == Cells(t.mem, a);
  }

  lemma StraddleBytes(s: seq<Byte>, k: nat)
    requires |s| == 16 && k <= 8
    ensures Word8(s[k..k + 8]) == Straddle(Word8(s[..8]), Word8(s[8..]), k)
  {
    BytesOfWord(s[..8]);
    BytesOfWord(s[8..]);
    assert s[..8] + s[8..] == s;
  }

  lemma StraddleMemory(mem: Memory, a: Word, k: nat)
    requires k <= 8 && a + 16 <= M64
    ensures Load64(mem, a + k) == Straddle(Load64(mem, a), Load64(mem, a + 8), k)
  {
    var s := seq(16, i requires 0 <= i < 16 => mem(a + i));
    CellsInside(mem, a);
    CellsInside(mem, a + 8);
    CellsInside(mem, a + k);
    assert Cells(mem, a) == s[..8] && Cells(mem, a + 8) == s[8..] && Cells(mem, a + k) == s[k..k + 8];
    StraddleBytes(s, k);
  }

  /** Such a load: two adjacent slots hold stack addresses, and the word across them counts as one. */
  lemma StraddledSlot()
    ensures var es := Sample(seq(16, i => Dyn), 16, seq(16, i => StackRel));
            var x := Mach(seq(16, i => 0), es.flags, (a: int) => 0);
            && IsSlot(es, {8, 16}, 0) && IsSlot(es, {8, 16}, 8) && !IsSlot(es, {8, 16}, 4)
            && StateRel(es, Frame(0, 16, {8, 16}), x, x) && SlotState(es, 4, 8) == StackRel
  {
    hide StateRel, SlotState;
    var es := Sample(seq(16, i => Dyn), 16, seq(16, i => StackRel));
    StackRelSlot(es, 4, 8);
    SpilledSample();
  }

  lemma SpilledSample()
    ensures var es := Sample(seq(16, i => Dyn), 16, seq(16, i => StackRel));
            var x := Mach(seq(16, i => 0), es.flags, (a: int) => 0);
            StateRel(es, Frame(0, 16, {8, 16}), x, x)
  {
    hide Word8;
    var es := Sample(seq(16, i => Dyn), 16, seq(16, i => StackRel));
    var x := Mach(seq(16, i => 0), es.flags, (a: int) => 0);
    var fr := Frame(0, 16, {8, 16});
    forall i | IsSlot(es, fr.slots, i) ensures SlotHolds(es, fr, x.mem, i) {
      var w: Word := Word8(es.stack[i..i + 8]);
      assert Cells(x.mem, Cell(es, fr, i)) == es.stack[i..i + 8];
      assert Wrap(w + 0) == w;
    }
  }

  lemma StraddleStep(a: Word, b: Word, k: nat)
    requires 0 < k < 8
    ensures var p, q := Pow256(k), Pow256(8 - k);
            Straddle(Wrap(a + p), Wrap(b + p), k) == Straddle(a, b, k) + (if High(a, k) + 1 == q then 1 - q else 1)
  {
    hide Low, High, Pow256, Straddle, Wrap;
    PartsMove(a, k);
    PartsMove(b, k);
    StraddleParts(a, b, k);
    StraddleParts(Wrap(a + Pow256(k)), Wrap(b + Pow256(k)), k);
  }

  lemma MovesByOne(v: Word, w: Word, p: nat, q: nat)
    requires 256 <= p <= M64 / 256 && 256 <= q <= M64 / 256 && (w == v + 1 || w == v + 1 - q)
    ensures w != Wrap(v + p)
  {}

  // ----- uninitialised values

  /** The value the instruction assigns is uninitialised, as far as the emulator knows. */
  predicate Uninitialised(es: EState, i: Instr, ip: Word, rd: Word -> Word)
    requires es.Valid() && InstrValid(i)
  {
    match i
    case Mov(_, o) => OpValue(es, o, ip, rd).Ok? && OpValue(es, o, ip, rd).value.st == Dead
    case Alu(op, d, o) =>
      OpValue(es, d, ip, rd).Ok? && OpValue(es, o, ip, rd).Ok? && View(es, op, d, o, ip, rd).res.st == Dead
    case _ => false
  }

  /** A destination that the emulator does not track is off the private stack. */
  predicate OffStack(es: EState, fr: Frame, s: Mach, d: Operand, ip: Word)
    requires es.Valid() && s.Valid()
  {
    d.M? && !Tracked(es, d, ip) ==> OutsideWindow(es, fr, EffAddr(s, d.m, ip))
  }

  /** Leaving the instruction out of the residual program keeps the relation. */
  ghost predicate LeavesOut(es: EState, es': EState, fr: Frame, i: Instr, ip: Word, x: Mach, y: Mach)
    requires es.Valid() && InstrValid(i) && (i.Mov? || i.Alu?)
  {
    x.Valid() && y.Valid() && StateRel(es, fr, x, y) && OffStack(es, fr, x, i.dst, ip) ==>
      StateRel(es', fr, Exec(x, i, ip), y)
  }

  /** A move or operation whose result is uninitialised is not captured. That is right, for all machines in relation,
      exactly if its destination is tracked. */
  lemma DeadStoreExact(es: EState, fr: Frame, s: Mach, t: Mach, cfg: Config, i: Instr, ip: Word, rd: Word -> Word)
    requires StateRel(es, fr, s, t) && InstrValid(i) && (i.Mov? || i.Alu?)
    requires Step(es, cfg, i, ip, rd).Ok? && Uninitialised(es, i, ip, rd)
    requires AddressExact(es, i.dst, ip) && OffStack(es, fr, s, i.dst, ip)
    ensures Step(es, cfg, i, ip, rd).value.code == []
    ensures (forall x: Mach, y: Mach :: LeavesOut(es, Step(es, cfg, i, ip, rd).value.es, fr, i, ip, x, y))
            <==> Tracked(es, i.dst, ip)
  {
    hide RegRel, OutRel, StackRelBytes, SlotRel, Exec, OpValue, Tracked, SetOp, FlagsAfter, View, Uninitialised;
    hide AddressExact, LeavesOut, OffStack, Step;
    DeadStep(es, cfg, i, ip, rd);
    if Tracked(es, i.dst, ip) {
      forall x: Mach, y: Mach ensures LeavesOut(es, Step(es, cfg, i, ip, rd).value.es, fr, i, ip, x, y) {
        DeadTracked(es, fr, x, y, cfg, i, ip, rd);
      }
    } else {
      var x, y := DeadUntracked(es, fr, s, t, cfg, i, ip, rd);
      assert !LeavesOut(es, Step(es, cfg, i, ip, rd).value.es, fr, i, ip, x, y);
    }
  }

  /** mov [rcx], rdx with rdx uninitialised is not captured, and not tracked. */
  lemma DeadStoreDropped(cfg: Config, rd: Word -> Word)
    ensures var es := Sample(seq(16, i => Dyn)[RDX := Dead], 0, []);
            var i := Mov(M(MemRef(Gp(RCX), 0, 0, 0)), R(RDX));
            && Step(es, cfg, i, 0, rd).Ok? && Uninitialised(es, i, 0, rd) && AddressExact(es, i.dst, 0)
            && Step(es, cfg, i, 0, rd).value.code == [] && !Tracked(es, i.dst, 0)
  {}

  /** The step assigns some uninitialised word and changes flags at most. */
  predicate DeadlySet(es: EState, es': EState, d: Operand, ip: Word)
    requires es.Valid()
  {
    exists v: Word :: SetOp(es, d, v, Dead, ip).Ok? && SameButFlags(es', SetOp(es, d, v, Dead, ip).value)
  }

  predicate SameButFlags(e1: EState, e2: EState) { e1 == e2.(flags := e1.flags, fs := e1.fs) }

  lemma DeadStep(es: EState, cfg: Config, i: Instr, ip: Word, rd: Word -> Word)
    requires es.Valid() && InstrValid(i) && Step(es, cfg, i, ip, rd).Ok? && Uninitialised(es, i, ip, rd)
    ensures (i.Mov? || i.Alu?) && Step(es, cfg, i, ip, rd).value.code == []
    ensures DeadlySet(es, Step(es, cfg, i, ip, rd).value.es, i.dst, ip)
  {
    hide SetOp, OpValue, FlagsAfter, Result, Tracked, Fold;
    var r := Step(es, cfg, i, ip, rd).value;
    match i
    case Mov(d, o) =>
      var v := Extend(o, OpValue(es, o, ip, rd).value).val;
      assert SetOp(es, d, v, Dead, ip).Ok? && SameButFlags(r.es, SetOp(es, d, v, Dead, ip).value);
    case Alu(op, d, o) =>
      StepAluIs(es, cfg, op, d, o, ip, rd);
      var v := View(es, op, d, o, ip, rd).res.val;
      assert SetOp(es, d, v, Dead, ip).Ok? && SameButFlags(r.es, SetOp(es, d, v, Dead, ip).value);
  }

  lemma DeadTracked(es: EState, fr: Frame, x: Mach, y: Mach, cfg: Config, i: Instr, ip: Word, rd: Word -> Word)
    requires es.Valid() && InstrValid(i) && Step(es, cfg, i, ip, rd).Ok? && Uninitialised(es, i, ip, rd)
    requires (i.Mov? || i.Alu?) && AddressExact(es, i.dst, ip) && Tracked(es, i.dst, ip)
    ensures LeavesOut(es, Step(es, cfg, i, ip, rd).value.es, fr, i, ip, x, y)
  {
    hide StateRel, OpValue, Tracked, SetOp, Step, View, Uninitialised, AddressExact, Assign, Value, Result, ResultFlags;
    var es' := Step(es, cfg, i, ip, rd).value.es;
    DeadStep(es, cfg, i, ip, rd);
    if x.Valid() && y.Valid() && StateRel(es, fr, x, y) {
      var v: Word :| SetOp(es, i.dst, v, Dead, ip).Ok? && SameButFlags(es', SetOp(es, i.dst, v, Dead, ip).value);
      var w := if i.Mov? then Value(x, i.src, ip) else Result(i.op, Value(x, i.dst, ip), Value(x, i.src, ip));
      AssignDropped(es, fr, x, y, i.dst, v, Dead, w, ip, rd);
      FlagsIrrelevant(SetOp(es, i.dst, v, Dead, ip).value, fr, Assign(x, i.dst, w, ip), y, es', Exec(x, i, ip), y);
    }
  }

  /** Content of memory, and of the uninitialised source, for which the instruction changes memory. */
  function Witness(i: Instr): (w: (Word, Word)) {
    if i.Alu? && i.op == And then (1, 0) else if i.Alu? && i.op == Xor then (1, 1) else (0, 1)
  }

  lemma WitnessChanges(i: Instr)
    requires i.Mov? || (i.Alu? && i.op != Imul)
    ensures var (c, w) := Witness(i); (if i.Mov? then w else Result(i.op, c, w)) != c
  {
    NeutralLaws(1, 1);
    NeutralLaws(1, 0);
  }

  /** Off the tracked stack the uninitialised source is a register that the address does not use. */
  lemma DeadSource(es: EState, cfg: Config, i: Instr, ip: Word, rd: Word -> Word)
    requires es.Valid() && InstrValid(i) && Step(es, cfg, i, ip, rd).Ok? && Uninitialised(es, i, ip, rd)
    requires (i.Mov? || i.Alu?) && AddressExact(es, i.dst, ip) && !Tracked(es, i.dst, ip)
    ensures i.dst.M? && i.src.R? && es.rs[i.src.r] == Dead && (i.Alu? ==> i.op != Imul)
    ensures i.dst.m.base != Gp(i.src.r) && (i.dst.m.scale > 0 ==> i.dst.m.idx != i.src.r)
    ensures SameButFlags(Step(es, cfg, i, ip, rd).value.es, es)
  {
    hide Times, Wrap, FlagsAfter, Fold, CaptureBinary;
    DeadStep(es, cfg, i, ip, rd);
  }

  lemma DeadUntracked(es: EState, fr: Frame, s: Mach, t: Mach, cfg: Config, i: Instr, ip: Word, rd: Word -> Word)
    returns (x: Mach, y: Mach)
    requires StateRel(es, fr, s, t) && InstrValid(i) && (i.Mov? || i.Alu?)
    requires Step(es, cfg, i, ip, rd).Ok? && Uninitialised(es, i, ip, rd)
    requires AddressExact(es, i.dst, ip) && OffStack(es, fr, s, i.dst, ip) && !Tracked(es, i.dst, ip)
    ensures !LeavesOut(es, Step(es, cfg, i, ip, rd).value.es, fr, i, ip, x, y)
  {
    hide RegRel, OutRel, StackRelBytes, SlotRel, OpValue, Tracked, SetOp, Step, View, Uninitialised, AddressExact;
    hide Result, Store64, OutsideWindow;
    DeadSource(es, cfg, i, ip, rd);
    var r, a, es' := i.src.r, EffAddr(s, i.dst.m, ip), Step(es, cfg, i, ip, rd).value.es;
    var (c, w) := Witness(i);
    StoreUntracked(es, fr, s, t, a, c);
    var s1, t1 := s.(mem := Store64(s.mem, a, c)), t.(mem := Store64(t.mem, a, c));
    RegisterSet(es, fr, s1, t1, r, es.reg[r], Dead, w, t1.reg[r]);
    assert es.(reg := es.reg[r := es.reg[r]], rs := es.rs[r := Dead]) == es && t1.(reg := t1.reg[r := t1.reg[r]]) == t1;
    x, y := s1.(reg := s1.reg[r := w]), t1;
    assert EffAddr(x, i.dst.m, ip) == a;
    LoadAfterStore(s.mem, a, c);
    WitnessChanges(i);
    var z := if i.Mov? then w else Result(i.op, c, w);
    assert Exec(x, i, ip).mem == Store64(x.mem, a, z);
    MemoryDiffers(es, es', fr, x, y, Exec(x, i, ip), a, z);
  }

  /** A store off the private stack that changes memory, in one of two related machines, ends the relation. */
  lemma MemoryDiffers(es: EState, es': EState, fr: Frame, s: Mach, t: Mach, s': Mach, a: Word, x: Word)
    requires StateRel(es, fr, s, t) && SameButFlags(es', es) && OutsideWindow(es, fr, a)
    requires s'.mem == Store64(s.mem, a, x) && Load64(s.mem, a) != x
    ensures !StateRel(es', fr, s', t)
  {
    var i := DifferentByte(s.mem, a, x);
    var y := Wrap(a + i);
    assert ByteOutside(es, fr, a, i);
    assert Wrap(y - a) == i;
    assert s'.mem(y) != s.mem(y) == t.mem(y);
    assert !InWindow(es', fr, y);
  }

  lemma SameBytes(mem: Memory, a: Word, x: Word)
    requires forall k :: 0 <= k < 8 ==> Bytes8(x)[k] == Cells(mem, a)[k]
    ensures Load64(mem, a) == x
  {
    hide Bytes8;
    assert Bytes8(x) == Cells(mem, a);
  }

  lemma DifferentByte(mem: Memory, a: Word, x: Word) returns (i: nat)
    requires Load64(mem, a) != x
    ensures i < 8 && Bytes8(x)[i] != mem(Wrap(a + i))
  {
    hide Bytes8;
    if forall k :: 0 <= k < 8 ==> Bytes8(x)[k] == Cells(mem, a)[k] { SameBytes(mem, a, x); }
    i :| 0 <= i < 8 && Bytes8(x)[i] != Cells(mem, a)[i];
  }
}
