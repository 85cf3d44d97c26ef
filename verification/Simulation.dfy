/** One emulated instruction: the captured code simulates the original instruction. */
module Simulation {
  import opened Machine
  import opened Emulator
  import opened Relation
  import opened Access
  import Bits

  // ----- flags

  /** The borrow-word flags are the architectural flags of a subtraction. */
  lemma SubFlagsCorrect(d: Word, s: Word, f: Flags)
    ensures SubFlags(d, s) == ResultFlags(Sub, d, s, f)
  {
    hide Bits.Pow2, Bits.BorrowWord, Bits.Signed;
    Pow64();
    Bits.BorrowWordFlags(64, d, s);
    Bits.TopBit(Wrap(d - s), 64);
    SignedAgrees(d);
    SignedAgrees(s);
    assert Bits.InSignedRange(64, Signed(d) - Signed(s)) == SignedFits(Signed(d) - Signed(s));
    assert (Wrap(d - s) == 0) == (d == s);
  }

  lemma SignedAgrees(x: Word)
    ensures Bits.Pow2(64) == M64 && Bits.Signed(64, x) == Signed(x)
  {
    Pow64();
  }

  lemma BitFlagsCorrect(op: AluOp, a: Word, b: Word, f: Flags)
    requires op in {And, Or, Xor}
    ensures BitFlags(Result(op, a, b)) == ResultFlags(op, a, b, f)
  {
    Pow64();
    Bits.TopBit(Result(op, a, b), 64);
  }

  // ----- results

  /** A stack-relative result must move with its one stack-relative operand. */
  predicate AnchorExact(op: AluOp, v1: Ev, v2: Ev) {
    CombineState(v1.st, v2.st, false) == StackRel ==>
      match op
      case Add => true
      case Sub => v1.st == StackRel
      case Imul => (if v1.st == StackRel then v2.val else v1.val) == 1 || StaticZero(v1) || StaticZero(v2)
      case _ => true
  }

  lemma NeutralLaws(a: Word, b: Word)
    ensures AndWord(a, 0) == 0 && AndWord(0, b) == 0 && AndWord(a, M64 - 1) == a
    ensures OrWord(a, 0) == a && XorWord(a, a) == 0
    ensures Result(Imul, a, 1) == a && Result(Imul, 1, b) == b && Result(Imul, 0, b) == 0 && Result(Imul, a, 0) == 0
    ensures Result(Add, a, 0) == a && Result(Add, 0, b) == b
  {
    Pow64();
    Bits.AndOnes(a, 64);
    Bits.OrZero(a);
    Bits.XorSelf(a);
  }

  /** What the emulator computes from described operands describes the result. */
  lemma ResultRel(op: AluOp, v1: Ev, v2: Ev, same: bool, x1: Word, y1: Word, x2: Word, y2: Word, delta: int)
    requires ValRel(v1.st, v1.val, x1, y1, delta) && ValRel(v2.st, v2.val, x2, y2, delta)
    requires AnchorExact(op, v1, v2)
    requires same ==> x1 == x2 && v1.val == v2.val
    ensures var c, v, x := ResultState(op, v1, v2, same), Result(op, v1.val, v2.val), Result(op, x1, x2);
            && (IsStatic(c) ==> x == v)
            && (c == StackRel ==> x == Wrap(v + delta))
            && (c != Dead && !IsStatic(c) ==> v1.st != Dead && v2.st != Dead)
            && (c != Dead && !IsStatic(c) && IsStatic(v1.st) ==> !IsStatic(v2.st))
  {
    NeutralLaws(x1, x2);
    NeutralLaws(v1.val, v2.val);
    var c := ResultState(op, v1, v2, same);
    if same && op == Xor {
      NeutralLaws(v1.val, v1.val);
    } else if c == StackRel {
      AnchoredResult(op, v1, v2, x1, x2, delta);
    }
  }

  lemma AnchoredResult(op: AluOp, v1: Ev, v2: Ev, x1: Word, x2: Word, delta: int)
    requires op in {Add, Sub, Imul} && CombineState(v1.st, v2.st, false) == StackRel
    requires op == Imul ==> !StaticZero(v1) && !StaticZero(v2)
    requires AnchorExact(op, v1, v2)
    requires x1 == if v1.st == StackRel then Wrap(v1.val + delta) else v1.val
    requires x2 == if v2.st == StackRel then Wrap(v2.val + delta) else v2.val
    ensures Result(op, x1, x2) == Wrap(Result(op, v1.val, v2.val) + delta)
  {
    hide Wrap;
    if op == Imul {
      hide Result;
      NeutralLaws(x1, x2);
      NeutralLaws(v1.val, v2.val);
    } else if op == Sub {
      WrapShift(0 - v2.val, v1.val, delta);
    } else if v1.st == StackRel {
      WrapShift(v2.val, v1.val, delta);
    } else {
      WrapShift(v1.val, v2.val, delta);
    }
  }

  // ----- conditions on one step

  /** The captured code of an operation starts with a move that materialises its known destination. */
  predicate Preloads(es: EState, op: AluOp, d: Operand, v1: Ev, res: CState, ip: Word)
    requires es.Valid()
  {
    res != Dead && !IsStatic(res) && Materialises(es, d, v1, ip) && !MovesInstead(op, v1)
  }

  /** Conditions the emulator state must meet for the capture of an instruction to be exact. */
  predicate Faithful(es: EState, slots: set<int>, i: Instr, ip: Word, rd: Word -> Word)
    requires es.Valid() && InstrValid(i)
  {
    match i
    case Mov(d, s) =>
      && AddressExact(es, d, ip) && AddressExact(es, s, ip) && LoadExact(es, slots, s, ip)
      && (OpValue(es, s, ip, rd).Ok? ==> StoreExact(es, slots, d, OpValue(es, s, ip, rd).value.st, ip))
    case Alu(op, d, s) =>
      && AddressExact(es, d, ip) && AddressExact(es, s, ip)
      && LoadExact(es, slots, d, ip) && LoadExact(es, slots, s, ip)
      && (OpValue(es, d, ip, rd).Ok? && OpValue(es, s, ip, rd).Ok? ==>
            var v1, v2 := OpValue(es, d, ip, rd).value, Extend(s, OpValue(es, s, ip, rd).value);
            var res := ResultState(op, v1, v2, SameOperand(d, s));
            && AnchorExact(op, v1, v2)
            && StoreExact(es, slots, d, res, ip)
            && (Preloads(es, op, d, v1, res, ip) ==> Fold(es, d, ip) == d))
    case Cmp(d, s) =>
      && AddressExact(es, d, ip) && AddressExact(es, s, ip)
      && LoadExact(es, slots, d, ip) && LoadExact(es, slots, s, ip)
      && (OpValue(es, d, ip, rd).Ok? && OpValue(es, s, ip, rd).Ok? ==>
            var v1, v2 := OpValue(es, d, ip, rd).value, OpValue(es, s, ip, rd).value;
            IsStatic(v1.st) && !IsStatic(v2.st) ==> Tracked(es, d, ip) && Fold(es, d, ip) == d)
    case Lea(_, m) => AddrExact(es, m, ip)
    case _ => true
  }

  /** Run-time assumption on the memory operands of an instruction. */
  predicate Safe(es: EState, fr: Frame, s: Mach, i: Instr, ip: Word, rd: Word -> Word)
    requires es.Valid() && s.Valid()
  {
    match i
    case Mov(d, o) => AccessSafe(es, fr, s, d, ip, rd) && AccessSafe(es, fr, s, o, ip, rd)
    case Alu(_, d, o) => AccessSafe(es, fr, s, d, ip, rd) && AccessSafe(es, fr, s, o, ip, rd)
    case Cmp(d, o) => AccessSafe(es, fr, s, d, ip, rd) && AccessSafe(es, fr, s, o, ip, rd)
    case _ => true
  }

  /** Flags of a known sum that the emulator computes right. */
  function SumKnown(d: Word, s: Word): set<Flag> {
    set x | x in ALL_FLAGS && FlagVal(AddFlags(d, s), x) == FlagVal(ResultFlags(Add, d, s, AddFlags(d, s)), x)
  }

  /** The captured operation is executed, on the original operands. */
  predicate Executed(es: EState, op: AluOp, d: Operand, v1: Ev, u2: Ev, res: CState, ip: Word)
    requires es.Valid()
  {
    && res != Dead && !IsStatic(res)
    && !(Materialises(es, d, v1, ip) && MovesInstead(op, v1))
    && !(IsStatic(u2.st) && Neutral(op, u2))
  }

  predicate Compared(v1: Ev, v2: Ev) {
    v1.st != Dead && v2.st != Dead && !(IsStatic(v1.st) && IsStatic(v2.st))
  }

  /** What is known about the flags of both machines after the instruction. */
  function FlagsKept(es: EState, l: Live, i: Instr, ip: Word, rd: Word -> Word): Live
    requires es.Valid() && InstrValid(i)
  {
    match i
    case Cmp(d, s) =>
      if OpValue(es, d, ip, rd).Ok? && OpValue(es, s, ip, rd).Ok?
         && Compared(OpValue(es, d, ip, rd).value, OpValue(es, s, ip, rd).value)
      then Live(ALL_FLAGS, ALL_FLAGS)
      else Live(ALL_FLAGS, {})
    case Alu(op, d, s) =>
      if OpValue(es, d, ip, rd).Fail? || OpValue(es, s, ip, rd).Fail? then Live({}, {})
      else
        var v1, u2 := OpValue(es, d, ip, rd).value, OpValue(es, s, ip, rd).value;
        var v2 := Extend(s, u2);
        var executed := Executed(es, op, d, v1, u2, ResultState(op, v1, v2, SameOperand(d, s)), ip);
        Live(KnownAfter(op, v1, v2), if !executed then {} else if op == Imul then {CF, OF} else ALL_FLAGS)
    case _ => l
  }

  /** Flags whose emulated values, where they count as known, are right. The emulator leaves them alone in a product. */
  function KnownAfter(op: AluOp, v1: Ev, v2: Ev): set<Flag> {
    match op
    case Imul => {}
    case Add => if IsStatic(v1.st) && IsStatic(v2.st) then SumKnown(v1.val, v2.val) else ALL_FLAGS
    case _ => ALL_FLAGS
  }

  // ----- the captured code, piece by piece

  lemma SameOperandValue(es: EState, s: Mach, d: Operand, o: Operand, ip: Word, rd: Word -> Word)
    requires es.Valid() && s.Valid() && PairValid(d, o) && SameOperand(d, o)
    ensures Value(s, d, ip) == Value(s, o, ip)
    ensures OpValue(es, d, ip, rd) == OpValue(es, o, ip, rd)
  {}

  lemma ExecOne(t: Mach, i: Instr)
    requires t.Valid() && InstrValid(i)
    ensures AllValid([i]) && ExecAll(t, [i]) == Exec(t, i, 0)
  {
    assert [i][..0] == [];
    assert ExecAll(t, []) == t;
  }

  lemma ExecNone(t: Mach)
    requires t.Valid()
    ensures AllValid([]) && ExecAll(t, []) == t
  {}

  lemma SimMov(es: EState, fr: Frame, s: Mach, t: Mach, d: Operand, o: Operand, ip: Word, rd: Word -> Word)
    requires StateRel(es, fr, s, t) && InstrValid(Mov(d, o))
    requires StepMov(es, d, o, ip, rd).Ok?
    requires Faithful(es, fr.slots, Mov(d, o), ip, rd) && Safe(es, fr, s, Mov(d, o), ip, rd)
    ensures var r := StepMov(es, d, o, ip, rd).value;
            && AllValid(r.code)
            && StateRel(r.es, fr, Exec(s, Mov(d, o), ip), ExecAll(t, r.code))
            && ExecAll(t, r.code).flags == t.flags
  {
    hide RegRel, OutRel, StackRelBytes, SlotRel, Assign, LoadExact, AccessSafe, Tracked, OpValue, SetOp;
    var r := StepMov(es, d, o, ip, rd).value;
    var v := Extend(o, OpValue(es, o, ip, rd).value);
    var x := Value(s, o, ip);
    ValueRel(es, fr, s, t, o, ip, rd);
    if r.code == [] {
      AssignDropped(es, fr, s, t, d, v.val, v.st, x, ip, rd);
    } else {
      var src := if IsStatic(v.st) then I64(v.val) else Fold(es, o, ip);
      ExecOne(t, Mov(Fold(es, d, ip), src));
      AssignBoth(es, fr, s, t, d, v.val, v.st, x, Value(t, src, 0), ip, rd);
    }
  }

  lemma SimLea(es: EState, fr: Frame, s: Mach, t: Mach, cfg: Config, q: Reg, m: MemRef, ip: Word)
    requires StateRel(es, fr, s, t) && AddrExact(es, m, ip)
    ensures var r := StepLea(es, cfg, q, m, ip).value;
            && AllValid(r.code)
            && StateRel(r.es, fr, Exec(s, Lea(q, m), ip), ExecAll(t, r.code))
            && ExecAll(t, r.code).flags == t.flags
  {
    var r := StepLea(es, cfg, q, m, ip).value;
    var a := OpAddr(es, m, ip);
    var x := EffAddr(s, m, ip);
    AddressRel(es, fr, s, t, m, ip);
    if r.code == [] {
      RegisterSet(es, fr, s, t, q, a.val, a.st, x, t.reg[q]);
      assert t.reg[q := t.reg[q]] == t.reg;
    } else {
      ExecOne(t, r.code[0]);
      var y := if IsStatic(a.st) then a.val else EffAddr(t, FoldMem(es, m, ip), 0);
      var st := if IsStatic(a.st) then Dyn else a.st;
      RegisterSet(es, fr, s, t, q, a.val, st, x, y);
    }
  }

  /** Making a known location known to the residual code leaves the relation intact. */
  lemma Materialise(es: EState, fr: Frame, s: Mach, t: Mach, d: Operand, ip: Word, rd: Word -> Word)
    requires es.Valid() && s.Valid() && t.Valid()
    requires StateRel(es, fr, s, t) && OperandValid(d) && (d.R? || d.M?) && OpValue(es, d, ip, rd).Ok?
    requires AddressExact(es, d, ip) && LoadExact(es, fr.slots, d, ip) && Tracked(es, d, ip) && Fold(es, d, ip) == d
    requires IsStatic(OpValue(es, d, ip, rd).value.st)
    ensures var t1 := Assign(t, d, OpValue(es, d, ip, rd).value.val, 0);
            StateRel(es, fr, s, t1) && Value(t1, d, 0) == Value(s, d, ip)
  {
    hide StateRel, AddressExact, LoadExact, Load64, Store64, OpAddr, FoldMem;
    var v := OpValue(es, d, ip, rd).value;
    var t1 := Assign(t, d, v.val, 0);
    ValueRel(es, fr, s, t, d, ip, rd);
    if d.R? {
      MaterialiseReg(es, fr, s, t, d.r, v.val);
    } else {
      MaterialiseSlot(es, fr, s, t, d.m, ip, v.val);
      LoadAfterStore(t.mem, EffAddr(t, d.m, 0), v.val);
    }
  }

  lemma MaterialiseReg(es: EState, fr: Frame, s: Mach, t: Mach, r: Reg, v: Word)
    requires StateRel(es, fr, s, t) && IsStatic(es.rs[r])
    ensures StateRel(es, fr, s, t.(reg := t.reg[r := v]))
  {
    assert ValRel(es.rs[r], es.reg[r], s.reg[r], v, fr.delta) by { RegAt(es, fr, s, t, r); }
    hide StateRel;
    RegisterSet(es, fr, s, t, r, es.reg[r], es.rs[r], s.reg[r], v);
    assert es.(reg := es.reg[r := es.reg[r]], rs := es.rs[r := es.rs[r]]) == es;
    assert s.(reg := s.reg[r := s.reg[r]]) == s;
  }

  lemma MaterialiseSlot(es: EState, fr: Frame, s: Mach, t: Mach, m: MemRef, ip: Word, v: Word)
    requires StateRel(es, fr, s, t)
    requires AddressExact(es, M(m), ip) && Tracked(es, M(m), ip) && FoldMem(es, m, ip) == m
    requires var off := OpAddr(es, m, ip).val - es.start;
             off + 8 <= |es.stack| && IsStatic(SlotState(es, off, 8))
    ensures StateRel(es, fr, s, Assign(t, M(m), v, 0))
  {
    hide ValRel, SlotState, FoldMem, EffAddr, Store64;
    var off := OpAddr(es, m, ip).val - es.start;
    SlotStates(es, off, 8);
    TrackedAddress(es, fr, s, t, m, ip);
    var a := Cell(es, fr, off);
    var t' := Store64(t.mem, a, v);
    forall b: Word ensures t'(b) == (if a <= b < a + 8 then Bytes8(v)[b - a] else t.mem(b)) {
      StoreCell(t.mem, a, v, b);
    }
    assert OutRel(es, fr, s.mem, t');
    forall i | 0 <= i < |es.stack| ensures ByteRel(es.ss[i], es.stack[i], s.mem(Cell(es, fr, i)), t'(Cell(es, fr, i))) {
      assert ByteRel(es.ss[i], es.stack[i], s.mem(Cell(es, fr, i)), t.mem(Cell(es, fr, i)));
    }
  }

  function Preload(d: Operand, v1: Ev, needed: bool): seq<Instr> {
    if needed then [Mov(d, I64(v1.val))] else []
  }

  function SourceFor(o: Operand, u2: Ev): Operand { if IsStatic(u2.st) then ImmOf(u2) else o }

  lemma SourceValue(es: EState, fr: Frame, s: Mach, t: Mach, o: Operand, ip: Word, rd: Word -> Word)
    requires es.Valid() && s.Valid() && t.Valid() && OperandValid(o) && OpValue(es, o, ip, rd).Ok?
    requires var u2 := OpValue(es, o, ip, rd).value;
             ValRel(u2.st, Extend(o, u2).val, Value(s, o, ip), Value(t, Fold(es, o, ip), 0), fr.delta)
    ensures var u2 := OpValue(es, o, ip, rd).value;
            && OperandValid(SourceFor(o, u2))
            && (u2.st != Dead ==> Value(t, Fold(es, SourceFor(o, u2), ip), 0) == Value(s, o, ip))
  {
    hide SlotState;
  }

  /** After the optional load both operands of the captured instruction have their original values. */
  lemma OperandsReady(es: EState, fr: Frame, s: Mach, t: Mach, d: Operand, o: Operand, ip: Word, rd: Word -> Word)
    requires es.Valid() && s.Valid() && t.Valid() && StateRel(es, fr, s, t) && PairValid(d, o)
    requires OpValue(es, d, ip, rd).Ok? && OpValue(es, o, ip, rd).Ok?
    requires AddressExact(es, d, ip) && AddressExact(es, o, ip)
    requires LoadExact(es, fr.slots, d, ip) && LoadExact(es, fr.slots, o, ip)
    requires AccessSafe(es, fr, s, d, ip, rd) && AccessSafe(es, fr, s, o, ip, rd)
    requires Materialises(es, d, OpValue(es, d, ip, rd).value, ip) ==> Fold(es, d, ip) == d
    ensures var v1, u2 := OpValue(es, d, ip, rd).value, OpValue(es, o, ip, rd).value;
            var pre := Preload(d, v1, Materialises(es, d, v1, ip));
            && AllValid(pre)
            && OperandValid(SourceFor(o, u2))
            && var t1 := ExecAll(t, pre);
            && StateRel(es, fr, s, t1) && t1.flags == t.flags
            && (v1.st != Dead ==> Value(t1, Fold(es, d, ip), 0) == Value(s, d, ip))
            && (u2.st != Dead ==> Value(t1, Fold(es, SourceFor(o, u2), ip), 0) == Value(s, o, ip))
  {
    hide StateRel, OpValue, AddressExact, LoadExact, AccessSafe, Fold, Tracked, SourceFor, Extend, EffAddr, Load64;
    var v1, u2 := OpValue(es, d, ip, rd).value, OpValue(es, o, ip, rd).value;
    ValueRel(es, fr, s, t, d, ip, rd);
    var t1 := t;
    if Materialises(es, d, v1, ip) {
      Materialise(es, fr, s, t, d, ip, rd);
      ExecOne(t, Mov(d, I64(v1.val)));
      t1 := Assign(t, d, v1.val, 0);
    }
    ValueRel(es, fr, s, t1, o, ip, rd);
    SourceValue(es, fr, s, t1, o, ip, rd);
  }

  /** Flags are no part of the relation between states. */
  lemma FlagsIrrelevant(es: EState, fr: Frame, s: Mach, t: Mach, es': EState, s': Mach, t': Mach)
    requires StateRel(es, fr, s, t)
    requires es' == es.(flags := es'.flags, fs := es'.fs)
    requires s' == s.(flags := s'.flags) && t' == t.(flags := t'.flags)
    ensures StateRel(es', fr, s', t')
  {
    assert forall b :: InWindow(es', fr, b) == InWindow(es, fr, b);
    forall i | 0 <= i < |es.stack|
      ensures ByteRel(es'.ss[i], es'.stack[i], s'.mem(Cell(es', fr, i)), t'.mem(Cell(es', fr, i)))
    {
      assert ByteRel(es.ss[i], es.stack[i], s.mem(Cell(es, fr, i)), t.mem(Cell(es, fr, i)));
    }
    forall i | IsSlot(es', fr.slots, i) && AllStackRel(es', i) ensures SlotHolds(es', fr, s'.mem, i) {
      assert IsSlot(es, fr.slots, i) && AllStackRel(es, i);
      assert SlotHolds(es, fr, s.mem, i);
    }
  }

  /** SetOp and flag updates commute. */
  lemma SetOpFlags(es: EState, es': EState, o: Operand, v: Word, st: CState, ip: Word)
    requires es.Valid() && es' == es.(flags := es'.flags, fs := es'.fs)
    ensures es'.Valid()
    ensures SetOp(es, o, v, st, ip).Ok? == SetOp(es', o, v, st, ip).Ok?
    ensures SetOp(es', o, v, st, ip).Ok? ==>
              SetOp(es', o, v, st, ip).value == SetOp(es, o, v, st, ip).value.(flags := es'.flags, fs := es'.fs)
  {
    hide OpAddr, Splice, Bytes8;
    if o.M? { AddrFlags(es, es', o.m, ip); }
  }

  /** Operands and result of dst = dst op src, as the emulator sees them. */
  datatype AluView = AluView(v1: Ev, u2: Ev, v2: Ev, res: Ev)

  function View(es: EState, op: AluOp, d: Operand, o: Operand, ip: Word, rd: Word -> Word): AluView
    requires es.Valid() && PairValid(d, o) && OpValue(es, d, ip, rd).Ok? && OpValue(es, o, ip, rd).Ok?
  {
    var v1, u2 := OpValue(es, d, ip, rd).value, OpValue(es, o, ip, rd).value;
    var v2 := Extend(o, u2);
    AluView(v1, u2, v2, Ev(Result(op, v1.val, v2.val), W64, ResultState(op, v1, v2, SameOperand(d, o))))
  }

  ghost predicate AluReady(es: EState, fr: Frame, s: Mach, t: Mach, op: AluOp, d: Operand, o: Operand,
                           ip: Word, rd: Word -> Word)
  {
    && StateRel(es, fr, s, t) && InstrValid(Alu(op, d, o))
    && OpValue(es, d, ip, rd).Ok? && OpValue(es, o, ip, rd).Ok?
    && Faithful(es, fr.slots, Alu(op, d, o), ip, rd) && Safe(es, fr, s, Alu(op, d, o), ip, rd)
  }

  /** The original result is described by the emulated one. */
  lemma AluResult(es: EState, fr: Frame, s: Mach, t: Mach, op: AluOp, d: Operand, o: Operand, ip: Word,
                  rd: Word -> Word)
    requires es.Valid() && s.Valid() && t.Valid()
    requires AluReady(es, fr, s, t, op, d, o, ip, rd)
    ensures var w := View(es, op, d, o, ip, rd);
            var x := Result(op, Value(s, d, ip), Value(s, o, ip));
            && (IsStatic(w.res.st) ==> x == w.res.val)
            && (w.res.st == StackRel ==> x == Wrap(w.res.val + fr.delta))
            && (w.res.st != Dead && !IsStatic(w.res.st) ==>
                  w.v1.st != Dead && w.u2.st != Dead && (IsStatic(w.v1.st) ==> !IsStatic(w.u2.st)))
            && (IsStatic(w.v1.st) ==> Value(s, d, ip) == w.v1.val)
            && (IsStatic(w.u2.st) ==> Value(s, o, ip) == w.v2.val)
            && (w.u2.st != Dead && !IsStatic(w.u2.st) ==> Value(s, o, ip) == Value(t, Fold(es, o, ip), 0))
            && (!Tracked(es, o, ip) ==> Value(s, o, ip) == Value(t, Fold(es, o, ip), 0))
  {
    hide StateRel, OpValue, Value, Fold, AddressExact, LoadExact, AccessSafe, Tracked, Result, SlotState;
    var w := View(es, op, d, o, ip, rd);
    ValueRel(es, fr, s, t, d, ip, rd);
    ValueRel(es, fr, s, t, o, ip, rd);
    if SameOperand(d, o) { SameOperandValue(es, s, d, o, ip, rd); }
    ResultRel(op, w.v1, w.v2, SameOperand(d, o), Value(s, d, ip), Value(t, Fold(es, d, ip), 0),
              Value(s, o, ip), Value(t, Fold(es, o, ip), 0), fr.delta);
  }

  lemma MovedResult(op: AluOp, v1: Ev, x1: Word, x2: Word)
    requires MovesInstead(op, v1) && x1 == v1.val
    ensures Result(op, x1, x2) == x2
  {
    NeutralLaws(x1, x2);
  }

  /** dst known to be neutral: the captured code moves the source. */
  lemma SimAluMove(es: EState, fr: Frame, s: Mach, t: Mach, op: AluOp, d: Operand, o: Operand, ip: Word,
                   rd: Word -> Word)
    requires es.Valid() && s.Valid() && t.Valid()
    requires AluReady(es, fr, s, t, op, d, o, ip, rd)
    requires var w := View(es, op, d, o, ip, rd);
             && w.res.st != Dead && !IsStatic(w.res.st)
             && Materialises(es, d, w.v1, ip) && MovesInstead(op, w.v1)
             && SetOp(es, d, w.res.val, w.res.st, ip).Ok?
    ensures var w := View(es, op, d, o, ip, rd);
            var i := Mov(Fold(es, d, ip), Fold(es, o, ip));
            && InstrValid(i)
            && StateRel(SetOp(es, d, w.res.val, w.res.st, ip).value, fr,
                        Assign(s, d, Result(op, Value(s, d, ip), Value(s, o, ip)), ip), Exec(t, i, 0))
  {
    hide StateRel, OpValue, Fold, SetOp, Result, Assign, AddressExact, LoadExact, AccessSafe, Tracked, AnchorExact,
         ResultState, Value;
    AluResult(es, fr, s, t, op, d, o, ip, rd);
    var w := View(es, op, d, o, ip, rd);
    var x := Result(op, Value(s, d, ip), Value(s, o, ip));
    MovedResult(op, w.v1, Value(s, d, ip), Value(s, o, ip));
    assert ValRel(w.res.st, w.res.val, x, x, fr.delta);
    AssignBoth(es, fr, s, t, d, w.res.val, w.res.st, x, x, ip, rd);
  }

  lemma NeutralExtends(es: EState, op: AluOp, o: Operand, ip: Word, rd: Word -> Word)
    requires es.Valid() && OperandValid(o) && OpValue(es, o, ip, rd).Ok?
    requires Neutral(op, OpValue(es, o, ip, rd).value)
    ensures Neutral(op, Extend(o, OpValue(es, o, ip, rd).value))
  {
    hide MemValue;
  }

  /** The captured code executes the operation, or leaves it out when the source is neutral. */
  lemma SimAluOp(es: EState, fr: Frame, s: Mach, t: Mach, op: AluOp, d: Operand, o: Operand, ip: Word, rd: Word -> Word)
    requires es.Valid() && s.Valid() && t.Valid()
    requires AluReady(es, fr, s, t, op, d, o, ip, rd)
    requires var w := View(es, op, d, o, ip, rd);
             && w.res.st != Dead && !IsStatic(w.res.st) && SetOp(es, d, w.res.val, w.res.st, ip).Ok?
             && !(Materialises(es, d, w.v1, ip) && MovesInstead(op, w.v1))
    ensures var w := View(es, op, d, o, ip, rd);
            var pre := Preload(d, w.v1, Materialises(es, d, w.v1, ip));
            var x := Result(op, Value(s, d, ip), Value(s, o, ip));
            var es' := SetOp(es, d, w.res.val, w.res.st, ip).value;
            && AllValid(pre)
            && StateRel(es', fr, Assign(s, d, x, ip), Assign(ExecAll(t, pre), Fold(es, d, ip), x, 0))
            && (IsStatic(w.u2.st) && Neutral(op, w.u2) ==> StateRel(es', fr, Assign(s, d, x, ip), ExecAll(t, pre)))
  {
    hide StateRel, OpValue, ResultState, Fold, AddressExact, LoadExact, AccessSafe, Tracked, ExecAll, Value, SetOp,
         Assign, AnchorExact;
    var w := View(es, op, d, o, ip, rd);
    AluResult(es, fr, s, t, op, d, o, ip, rd);
    OperandsReady(es, fr, s, t, d, o, ip, rd);
    var t1 := ExecAll(t, Preload(d, w.v1, Materialises(es, d, w.v1, ip)));
    var x := Result(op, Value(s, d, ip), Value(s, o, ip));
    AssignBoth(es, fr, s, t1, d, w.res.val, w.res.st, x, x, ip, rd);
    if IsStatic(w.u2.st) && Neutral(op, w.u2) {
      NeutralExtends(es, op, o, ip, rd);
      NeutralLaws(Value(s, d, ip), Value(s, o, ip));
      assert x == Value(t1, Fold(es, d, ip), 0);
      AssignSame(t1, Fold(es, d, ip), 0);
      SameRel(SetOp(es, d, w.res.val, w.res.st, ip).value, fr, Assign(s, d, x, ip),
              Assign(t1, Fold(es, d, ip), x, 0), t1);
    }
  }

  predicate Executes(es: EState, op: AluOp, d: Operand, o: Operand, ip: Word, rd: Word -> Word)
    requires es.Valid() && PairValid(d, o) && OpValue(es, d, ip, rd).Ok? && OpValue(es, o, ip, rd).Ok?
  {
    var w := View(es, op, d, o, ip, rd);
    Executed(es, op, d, w.v1, w.u2, w.res.st, ip)
  }

  /** The captured operation computes on the original operand values. */
  lemma CapturedOp(es: EState, fr: Frame, s: Mach, t: Mach, op: AluOp, d: Operand, o: Operand, ip: Word,
                   rd: Word -> Word)
    requires es.Valid() && s.Valid() && t.Valid()
    requires AluReady(es, fr, s, t, op, d, o, ip, rd) && Executes(es, op, d, o, ip, rd)
    ensures var w := View(es, op, d, o, ip, rd);
            var pre := Preload(d, w.v1, Materialises(es, d, w.v1, ip));
            var i := Alu(op, Fold(es, d, ip), Fold(es, SourceFor(o, w.u2), ip));
            var x1, x2 := Value(s, d, ip), Value(s, o, ip);
            && AllValid(pre + [i]) && AllValid(pre)
            && ExecAll(t, pre + [i]) == Assign(ExecAll(t, pre), Fold(es, d, ip), Result(op, x1, x2), 0)
                                          .(flags := ResultFlags(op, x1, x2, t.flags))
  {
    hide StateRel, OpValue, ResultState, Fold, AddressExact, LoadExact, AccessSafe, Tracked, AnchorExact, ExecAll,
         Value, Result, ResultFlags;
    var w := View(es, op, d, o, ip, rd);
    var pre := Preload(d, w.v1, Materialises(es, d, w.v1, ip));
    var i := Alu(op, Fold(es, d, ip), Fold(es, SourceFor(o, w.u2), ip));
    AluResult(es, fr, s, t, op, d, o, ip, rd);
    OperandsReady(es, fr, s, t, d, o, ip, rd);
    ExecOne(ExecAll(t, pre), i);
    ExecAllAppend(t, pre, [i]);
  }

  lemma Widths(es: EState, d: Operand, o: Operand, ip: Word, rd: Word -> Word)
    requires es.Valid() && PairValid(d, o)
    ensures OpValue(es, d, ip, rd).Ok? ==> OpValue(es, d, ip, rd).value.w == W64
    ensures o.I32? ==> OpValue(es, o, ip, rd).value.w == W32
    ensures o.I8? ==> OpValue(es, o, ip, rd).value.w == W8
  {}

  /** StepAlu, in terms of the view of its operands. */
  lemma StepAluIs(es: EState, cfg: Config, op: AluOp, d: Operand, o: Operand, ip: Word, rd: Word -> Word)
    requires es.Valid() && PairValid(d, o) && StepAlu(es, cfg, op, d, o, ip, rd).Ok?
    ensures OpValue(es, d, ip, rd).Ok? && OpValue(es, o, ip, rd).Ok?
    ensures var w := View(es, op, d, o, ip, rd);
            var (code, st) := CaptureBinary(es, cfg, op, d, o, w.v1, w.u2, w.res, ip);
            var r := StepAlu(es, cfg, op, d, o, ip, rd).value;
            var ef := FlagsAfter(es, op, w.v1, w.v2, SameOperand(d, o));
            && r.code == code
            && SetOp(es, d, w.res.val, st, ip).Ok?
            && r.es == SetOp(es, d, w.res.val, st, ip).value.(flags := ef.flags, fs := ef.fs)
  {
    hide OpValue, Fold, Tracked, Result, SubFlags, AddFlags, BitFlags;
    Widths(es, d, o, ip, rd);
    var w := View(es, op, d, o, ip, rd);
    var (code, st) := CaptureBinary(es, cfg, op, d, o, w.v1, w.u2, w.res, ip);
    SetOpFlags(es, FlagsAfter(es, op, w.v1, w.v2, SameOperand(d, o)), d, w.res.val, st, ip);
  }

  function AluCode(es: EState, cfg: Config, op: AluOp, d: Operand, o: Operand, ip: Word,
                   rd: Word -> Word): (seq<Instr>, CState)
    requires es.Valid() && PairValid(d, o) && OpValue(es, d, ip, rd).Ok? && OpValue(es, o, ip, rd).Ok?
  {
    var w := View(es, op, d, o, ip, rd);
    CaptureBinary(es, cfg, op, d, o, w.v1, w.u2, w.res, ip)
  }

  /** What the captured code of dst = dst op src has to achieve. */
  ghost predicate AluGoal(es: EState, fr: Frame, s: Mach, t: Mach, cfg: Config, op: AluOp, d: Operand, o: Operand,
                          ip: Word, rd: Word -> Word)
    requires AluReady(es, fr, s, t, op, d, o, ip, rd)
  {
    var w := View(es, op, d, o, ip, rd);
    var (code, st) := AluCode(es, cfg, op, d, o, ip, rd);
    var x1, x2 := Value(s, d, ip), Value(s, o, ip);
    && AllValid(code)
    && SetOp(es, d, w.res.val, st, ip).Ok?
    && StateRel(SetOp(es, d, w.res.val, st, ip).value, fr, Assign(s, d, Result(op, x1, x2), ip), ExecAll(t, code))
    && (Executes(es, op, d, o, ip, rd) ==> ExecAll(t, code).flags == ResultFlags(op, x1, x2, t.flags))
  }

  lemma SimAluKnown(es: EState, fr: Frame, s: Mach, t: Mach, cfg: Config, op: AluOp, d: Operand, o: Operand,
                    ip: Word, rd: Word -> Word)
    requires es.Valid() && s.Valid() && t.Valid()
    requires AluReady(es, fr, s, t, op, d, o, ip, rd)
    requires var w := View(es, op, d, o, ip, rd);
             && (w.res.st == Dead || IsStatic(w.res.st))
             && SetOp(es, d, w.res.val, AluCode(es, cfg, op, d, o, ip, rd).1, ip).Ok?
    ensures AluGoal(es, fr, s, t, cfg, op, d, o, ip, rd)
  {
    hide StateRel, OpValue, ResultState, Fold, AddressExact, LoadExact, AccessSafe, Tracked, ExecAll, Result, SetOp,
         AnchorExact, Neutral;
    var w := View(es, op, d, o, ip, rd);
    var (code, st) := AluCode(es, cfg, op, d, o, ip, rd);
    var x := Result(op, Value(s, d, ip), Value(s, o, ip));
    AluResult(es, fr, s, t, op, d, o, ip, rd);
    if code == [] {
      ExecNone(t);
      AssignDropped(es, fr, s, t, d, w.res.val, st, x, ip, rd);
    } else {
      ExecOne(t, Mov(Fold(es, d, ip), I64(w.res.val)));
      AssignBoth(es, fr, s, t, d, w.res.val, st, x, w.res.val, ip, rd);
    }
  }

  lemma SimAluUnknown(es: EState, fr: Frame, s: Mach, t: Mach, cfg: Config, op: AluOp, d: Operand, o: Operand,
                      ip: Word, rd: Word -> Word)
    requires es.Valid() && s.Valid() && t.Valid()
    requires AluReady(es, fr, s, t, op, d, o, ip, rd)
    requires var w := View(es, op, d, o, ip, rd);
             && w.res.st != Dead && !IsStatic(w.res.st)
             && SetOp(es, d, w.res.val, w.res.st, ip).Ok?
    ensures AluGoal(es, fr, s, t, cfg, op, d, o, ip, rd)
  {
    hide StateRel, OpValue, ResultState, Fold, AddressExact, LoadExact, AccessSafe, Tracked, ExecAll, Value, Result,
         SetOp, AnchorExact, Neutral;
    var w := View(es, op, d, o, ip, rd);
    var (code, st) := AluCode(es, cfg, op, d, o, ip, rd);
    var x := Result(op, Value(s, d, ip), Value(s, o, ip));
    if Materialises(es, d, w.v1, ip) && MovesInstead(op, w.v1) {
      SimAluMove(es, fr, s, t, op, d, o, ip, rd);
      ExecOne(t, Mov(Fold(es, d, ip), Fold(es, o, ip)));
    } else {
      SimAluOp(es, fr, s, t, op, d, o, ip, rd);
      var pre := Preload(d, w.v1, Materialises(es, d, w.v1, ip));
      assert pre + [] == pre;
      if Executes(es, op, d, o, ip, rd) {
        CapturedOp(es, fr, s, t, op, d, o, ip, rd);
        var es' := SetOp(es, d, w.res.val, st, ip).value;
        var t1 := ExecAll(t, Preload(d, w.v1, Materialises(es, d, w.v1, ip)));
        FlagsIrrelevant(es', fr, Assign(s, d, x, ip), Assign(t1, Fold(es, d, ip), x, 0),
                        es', Assign(s, d, x, ip), ExecAll(t, code));
      }
    }
  }

  /** After a bitwise operation the emulator is right about the flags it knows. */
  lemma BitOpFlags(es: EState, op: AluOp, v1: Ev, v2: Ev, same: bool, x1: Word, x2: Word, f: Flags, x: Flag)
    requires op in {And, Or, Xor}
    requires IsStatic(ResultState(op, v1, v2, same)) ==> Result(op, x1, x2) == Result(op, v1.val, v2.val)
    ensures var e := FlagsAfter(es, op, v1, v2, same);
            IsStatic(StateOf(e.fs, x)) ==> FlagVal(ResultFlags(op, x1, x2, f), x) == FlagVal(e.flags, x)
  {
    hide Result;
    BitFlagsCorrect(op, v1.val, v2.val, f);
    BitFlagsCorrect(op, x1, x2, f);
  }

  /** So it is after a sum or difference, but for the flags of a known sum that it computes wrong. */
  lemma SumFlags(es: EState, op: AluOp, v1: Ev, v2: Ev, x1: Word, x2: Word, f: Flags, x: Flag)
    requires op in {Add, Sub} && x in KnownAfter(op, v1, v2)
    requires IsStatic(v1.st) && IsStatic(v2.st) ==> x1 == v1.val && x2 == v2.val
    ensures var e := FlagsAfter(es, op, v1, v2, false);
            IsStatic(StateOf(e.fs, x)) ==> FlagVal(ResultFlags(op, x1, x2, f), x) == FlagVal(e.flags, x)
  {
    hide AddFlags, SubFlags;
    SubFlagsCorrect(v1.val, v2.val, f);
  }

  lemma SimAluFlags(es: EState, fr: Frame, s: Mach, t: Mach, cfg: Config, op: AluOp, d: Operand, o: Operand, l: Live,
                    ip: Word, rd: Word -> Word)
    requires es.Valid() && s.Valid() && t.Valid()
    requires AluReady(es, fr, s, t, op, d, o, ip, rd) && AluGoal(es, fr, s, t, cfg, op, d, o, ip, rd)
    ensures var w := View(es, op, d, o, ip, rd);
            FlagsLive(FlagsAfter(es, op, w.v1, w.v2, SameOperand(d, o)), FlagsKept(es, l, Alu(op, d, o), ip, rd),
                      ResultFlags(op, Value(s, d, ip), Value(s, o, ip), s.flags),
                      ExecAll(t, AluCode(es, cfg, op, d, o, ip, rd).0).flags)
  {
    hide StateRel, OpValue, Fold, SetOp, Assign, AddressExact, LoadExact, AccessSafe, Safe, Faithful, Tracked,
         AnchorExact;
    hide Result, AddFlags, SubFlags, BitFlags, ResultFlags, ExecAll, Value, CaptureBinary, FlagsAfter, Executed,
         StateOf;
    var w := View(es, op, d, o, ip, rd);
    var l', x1, x2 := FlagsKept(es, l, Alu(op, d, o), ip, rd), Value(s, d, ip), Value(s, o, ip);
    var e := FlagsAfter(es, op, w.v1, w.v2, SameOperand(d, o));
    AluResult(es, fr, s, t, op, d, o, ip, rd);
    forall x | x in l'.known && IsStatic(StateOf(e.fs, x))
      ensures FlagVal(ResultFlags(op, x1, x2, s.flags), x) == FlagVal(e.flags, x)
    {
      if op == Add || op == Sub {
        SumSame(es, op, w.v1, w.v2, SameOperand(d, o));
        SumFlags(es, op, w.v1, w.v2, x1, x2, s.flags, x);
      } else {
        BitOpFlags(es, op, w.v1, w.v2, SameOperand(d, o), x1, x2, s.flags, x);
      }
    }
    SharedFlags(op, x1, x2, s.flags, t.flags);
  }

  lemma SumSame(es: EState, op: AluOp, v1: Ev, v2: Ev, same: bool)
    requires op in {Add, Sub}
    ensures FlagsAfter(es, op, v1, v2, same) == FlagsAfter(es, op, v1, v2, false)
  {
    hide AddFlags, SubFlags;
  }

  /** The processor's flags do not depend on the old ones, but zero and sign of a product. */
  lemma SharedFlags(op: AluOp, a: Word, b: Word, f: Flags, g: Flags)
    ensures forall x :: op != Imul || x in {CF, OF} ==>
              FlagVal(ResultFlags(op, a, b, f), x) == FlagVal(ResultFlags(op, a, b, g), x)
  {
    hide Result;
  }

  lemma SimAlu(es: EState, fr: Frame, s: Mach, t: Mach, cfg: Config, op: AluOp, d: Operand, o: Operand,
               l: Live, ip: Word, rd: Word -> Word)
    requires AluReady(es, fr, s, t, op, d, o, ip, rd) && StepAlu(es, cfg, op, d, o, ip, rd).Ok?
    ensures var r := StepAlu(es, cfg, op, d, o, ip, rd).value;
            var s' := Exec(s, Alu(op, d, o), ip);
            && AllValid(r.code)
            && StateRel(r.es, fr, s', ExecAll(t, r.code))
            && FlagsLive(r.es, FlagsKept(es, l, Alu(op, d, o), ip, rd), s'.flags, ExecAll(t, r.code).flags)
  {
    StepAluIs(es, cfg, op, d, o, ip, rd);
    var w := View(es, op, d, o, ip, rd);
    var r := StepAlu(es, cfg, op, d, o, ip, rd).value;
    var st := AluCode(es, cfg, op, d, o, ip, rd).1;
    if w.res.st == Dead || IsStatic(w.res.st) {
      SimAluKnown(es, fr, s, t, cfg, op, d, o, ip, rd);
    } else {
      SimAluUnknown(es, fr, s, t, cfg, op, d, o, ip, rd);
    }
    FlagsIrrelevant(SetOp(es, d, w.res.val, st, ip).value, fr,
                    Assign(s, d, Result(op, Value(s, d, ip), Value(s, o, ip)), ip), ExecAll(t, r.code),
                    r.es, Exec(s, Alu(op, d, o), ip), ExecAll(t, r.code));
    SimAluFlags(es, fr, s, t, cfg, op, d, o, l, ip, rd);
    LiveSame(FlagsAfter(es, op, w.v1, w.v2, SameOperand(d, o)), r.es, FlagsKept(es, l, Alu(op, d, o), ip, rd),
             Exec(s, Alu(op, d, o), ip).flags, ExecAll(t, r.code).flags);
  }

  lemma LiveSame(es: EState, es': EState, l: Live, f: Flags, g: Flags)
    requires FlagsLive(es, l, f, g) && es'.flags == es.flags && es'.fs == es.fs
    ensures FlagsLive(es', l, f, g)
  {}

  /** The captured code of a comparison is the load of a known operand and the comparison. */
  lemma CmpPieces(es: EState, d: Operand, o: Operand, v1: Ev, u2: Ev, cs: CState, ip: Word)
    requires es.Valid() && !IsStatic(cs) && (IsStatic(v1.st) ==> Tracked(es, d, ip))
    ensures CaptureCmp(es, d, o, v1, u2, cs, ip) ==
            Preload(d, v1, Materialises(es, d, v1, ip)) + [Cmp(Fold(es, d, ip), Fold(es, SourceFor(o, u2), ip))]
  {}

  lemma CmpCode(es: EState, fr: Frame, s: Mach, t: Mach, d: Operand, o: Operand, ip: Word, rd: Word -> Word)
    requires es.Valid() && s.Valid() && t.Valid()
    requires StateRel(es, fr, s, t) && InstrValid(Cmp(d, o)) && StepCmp(es, d, o, ip, rd).Ok?
    requires Faithful(es, fr.slots, Cmp(d, o), ip, rd) && Safe(es, fr, s, Cmp(d, o), ip, rd)
    ensures var r := StepCmp(es, d, o, ip, rd).value;
            var v1, u2 := OpValue(es, d, ip, rd).value, OpValue(es, o, ip, rd).value;
            && AllValid(r.code)
            && StateRel(es, fr, s, ExecAll(t, r.code).(flags := t.flags))
            && (Compared(v1, u2) ==>
                  ExecAll(t, r.code).flags == ResultFlags(Sub, Value(s, d, ip), Value(s, o, ip), t.flags))
  {
    hide StateRel, OpValue, AddressExact, LoadExact, AccessSafe, Tracked, Value, ResultFlags, StepCmp, FlagsAfter,
         CaptureCmp;
    hide Fold, EState.Valid, ExecAll;
    StepCmpIs(es, d, o, ip, rd);
    var r := StepCmp(es, d, o, ip, rd).value;
    var v1, u2 := OpValue(es, d, ip, rd).value, OpValue(es, o, ip, rd).value;
    if IsStatic(v1.st) && IsStatic(u2.st) {
      ExecNone(t);
      assert t.(flags := t.flags) == t;
    } else {
      CmpPieces(es, d, o, v1, u2, CombineForFlags(v1.st, Extend8(o, u2).st), ip);
      OperandsReady(es, fr, s, t, d, o, ip, rd);
      var pre := Preload(d, v1, Materialises(es, d, v1, ip));
      var i := Cmp(Fold(es, d, ip), Fold(es, SourceFor(o, u2), ip));
      assert r.code == pre + [i];
      ExecOne(ExecAll(t, pre), i);
      ExecAllAppend(t, pre, [i]);
      assert ExecAll(t, r.code).(flags := t.flags) == ExecAll(t, pre);
    }
  }

  lemma KnownValues(st: CState, v: Word, x: Word, y: Word, delta: int)
    requires ValRel(st, v, x, y, delta)
    ensures IsStatic(st) ==> x == v
  {}

  lemma StepCmpIs(es: EState, d: Operand, o: Operand, ip: Word, rd: Word -> Word)
    requires es.Valid() && PairValid(d, o) && StepCmp(es, d, o, ip, rd).Ok?
    ensures OpValue(es, d, ip, rd).Ok? && OpValue(es, o, ip, rd).Ok?
    ensures var r := StepCmp(es, d, o, ip, rd).value;
            var v1, u2 := OpValue(es, d, ip, rd).value, OpValue(es, o, ip, rd).value;
            var v2 := Extend8(o, u2);
            && v2 == Extend(o, u2)
            && r.es == FlagsAfter(es, Sub, v1, v2, false) == es.(flags := r.es.flags, fs := r.es.fs)
            && r.code == CaptureCmp(es, d, o, v1, u2, CombineForFlags(v1.st, v2.st), ip)
            && (r.code == [] <==> IsStatic(v1.st) && IsStatic(u2.st))
            && (IsStatic(CombineForFlags(v1.st, v2.st)) <==> IsStatic(v1.st) && IsStatic(u2.st))
  {
    hide OpValue, Fold, SubFlags;
    Widths(es, d, o, ip, rd);
  }

  lemma SimCmp(es: EState, fr: Frame, s: Mach, t: Mach, d: Operand, o: Operand, l: Live, ip: Word, rd: Word -> Word)
    requires es.Valid() && s.Valid() && t.Valid()
    requires StateRel(es, fr, s, t) && InstrValid(Cmp(d, o)) && StepCmp(es, d, o, ip, rd).Ok?
    requires Faithful(es, fr.slots, Cmp(d, o), ip, rd) && Safe(es, fr, s, Cmp(d, o), ip, rd)
    ensures var r := StepCmp(es, d, o, ip, rd).value;
            var s' := Exec(s, Cmp(d, o), ip);
            && AllValid(r.code)
            && StateRel(r.es, fr, s', ExecAll(t, r.code))
            && FlagsLive(r.es, FlagsKept(es, l, Cmp(d, o), ip, rd), s'.flags, ExecAll(t, r.code).flags)
  {
    hide StepCmp, CaptureCmp, StateRel, FlagsAfter, ResultFlags, OpValue, Value, Fold, ExecAll, StateOf;
    hide AddressExact, LoadExact, AccessSafe, Tracked, ValRel, Compared;
    assert es.Valid() && s.Valid() && t.Valid();
    StepCmpIs(es, d, o, ip, rd);
    CmpCode(es, fr, s, t, d, o, ip, rd);
    var r := StepCmp(es, d, o, ip, rd).value;
    var v1, u2 := OpValue(es, d, ip, rd).value, OpValue(es, o, ip, rd).value;
    var v2, x1, x2 := Extend8(o, u2), Value(s, d, ip), Value(s, o, ip);
    var t' := ExecAll(t, r.code);
    FlagsIrrelevant(es, fr, s, t'.(flags := t.flags), r.es, Exec(s, Cmp(d, o), ip), t');
    ValueRel(es, fr, s, t, d, ip, rd);
    ValueRel(es, fr, s, t, o, ip, rd);
    KnownValues(v1.st, v1.val, x1, Value(t, Fold(es, d, ip), 0), fr.delta);
    KnownValues(v2.st, v2.val, x2, Value(t, Fold(es, o, ip), 0), fr.delta);
    forall x | x in ALL_FLAGS && IsStatic(StateOf(r.es.fs, x))
      ensures FlagVal(ResultFlags(Sub, x1, x2, s.flags), x) == FlagVal(r.es.flags, x)
    {
      SumFlags(es, Sub, v1, v2, x1, x2, s.flags, x);
    }
    SharedFlags(Sub, x1, x2, s.flags, t.flags);
  }

  // ----- the simulation step

  /** Captured code of one instruction simulates it: if the emulator state describes the original and the
      residual machine, it still does after the original executed the instruction and the residual machine
      the captured code. What FlagsKept says about flags holds. */
  lemma SimStep(es: EState, fr: Frame, s: Mach, t: Mach, cfg: Config, i: Instr, ip: Word, rd: Word -> Word, l: Live)
    requires InstrValid(i) && StateRel(es, fr, s, t) && Step(es, cfg, i, ip, rd).Ok?
    requires Faithful(es, fr.slots, i, ip, rd) && Safe(es, fr, s, i, ip, rd)
    requires FlagsLive(es, l, s.flags, t.flags)
    ensures var r := Step(es, cfg, i, ip, rd).value;
            var s' := Exec(s, i, ip);
            && AllValid(r.code)
            && StateRel(r.es, fr, s', ExecAll(t, r.code))
            && FlagsLive(r.es, FlagsKept(es, l, i, ip, rd), s'.flags, ExecAll(t, r.code).flags)
  {
    match i
    case Mov(d, o) =>
      SimMov(es, fr, s, t, d, o, ip, rd);
      assert StepMov(es, d, o, ip, rd).value.es.fs == es.fs;
    case Alu(op, d, o) =>
      StepAluIs(es, cfg, op, d, o, ip, rd);
      SimAlu(es, fr, s, t, cfg, op, d, o, l, ip, rd);
    case Cmp(d, o) => SimCmp(es, fr, s, t, d, o, l, ip, rd);
    case Lea(q, m) => SimLea(es, fr, s, t, cfg, q, m, ip);
    case _ => assert ExecAll(t, []) == t;
  }
}
