/** What the capturing emulator computes for one instruction, as functions of its state. */
module Emulator {
  import opened Machine
  import Bits

  // ----- capture states

  datatype CState = Dead | Dyn | Static | StackRel | Static2

  predicate IsStatic(c: CState) { c == Static || c == Static2 }

  datatype FlagStates = FlagStates(cf: CState, zf: CState, sf: CState, of: CState)

  /** Values and capture states of registers, flags and tracked stack bytes.
      stack[i] belongs to the address start + i; nothing below accessed was ever written. */
  datatype EState = EState(
    reg: seq<Word>, rs: seq<CState>,
    flags: Flags, fs: FlagStates,
    start: int, accessed: int, stack: seq<Byte>, ss: seq<CState>,
    ret: seq<Word>, parent: nat)
  {
    function Top(): int { start + |stack| }

    predicate Valid() {
      && |reg| == 16 && |rs| == 16
      && |stack| == |ss|
      && 0 <= start <= accessed <= Top() <= M64
      && DeadBelow()
    }

    predicate DeadBelow() {
      forall i :: 0 <= i < |ss| && start + i < accessed ==> ss[i] == Dead
    }
  }

  datatype Config = Config(forceUnknown: bool, hasReturnFP: bool, hints: bool)

  datatype Failure = TypeMismatch | UnsupportedOperands | StateAssert | StackOverrun

  datatype Res<+T> = Ok(value: T) | Fail(why: Failure) {
    predicate IsFailure() { Fail? }
    function PropagateFailure<U>(): Res<U> requires Fail? { Fail(why) }
    function Extract(): T requires Ok? { value }
  }

  /** sameValue: both states are parts of one value, not operands of an operation. */
  function CombineState(s1: CState, s2: CState, sameValue: bool): CState {
    if s1 == Dead || s2 == Dead then Dead
    else if IsStatic(s1) && IsStatic(s2) then
      if s1 == Static2 || s2 == Static2 then Static2 else Static
    else if sameValue then
      if s1 == StackRel && s2 == StackRel then StackRel else Dyn
    else if (s1 == StackRel && IsStatic(s2)) || (IsStatic(s1) && s2 == StackRel) then StackRel
    else Dyn
  }

  function CombineForFlags(s1: CState, s2: CState): CState {
    var s := CombineState(s1, s2, false);
    if s == StackRel then Dyn else if s == Static2 then Static else s
  }

  // ----- operands

  datatype Width = W8 | W32 | W64

  datatype Ev = Ev(val: Word, w: Width, st: CState)

  predicate OnStack(es: EState, a: Word) { es.start <= a < es.Top() }

  /** Address of a memory operand with its capture state. */
  function OpAddr(es: EState, m: MemRef, ip: Word): Ev
    requires es.Valid()
  {
    var a := match m.base
      case NoBase => Ev(m.disp, W64, Static)
      case Gp(r) => Ev(Wrap(m.disp + es.reg[r]), W64, CombineState(Static, es.rs[r], false))
      case Rip => Ev(Wrap(m.disp + ip), W64, Static);
    if m.scale > 0 then
      Ev(Wrap(a.val + Times(m.scale, es.reg[m.idx])), W64, CombineState(a.st, es.rs[m.idx], false))
    else a
  }

  lemma AddrFlags(es: EState, es': EState, m: MemRef, ip: Word)
    requires es.Valid() && es' == es.(flags := es'.flags, fs := es'.fs)
    ensures es'.Valid() && OpAddr(es', m, ip) == OpAddr(es, m, ip)
  {}

  /** Combined state of the first n bytes at offset off. */
  function SlotState(es: EState, off: nat, n: nat): CState
    requires es.Valid() && 1 <= n && off + n <= |es.stack|
  {
    if n == 1 then
      if es.start + off < es.accessed then Dead else es.ss[off]
    else CombineState(SlotState(es, off, n - 1), es.ss[off + n - 1], true)
  }

  /** rd is the content of real memory at rewriting time. */
  function MemValue(es: EState, a: Ev, rd: Word -> Word): Res<Ev>
    requires es.Valid()
  {
    if OnStack(es, a.val) then
      var off := a.val - es.start;
      if off + 8 > |es.stack| then Fail(StackOverrun)
      else Ok(Ev(Word8(es.stack[off..off + 8]), W64,
                 if a.st == StackRel then SlotState(es, off, 8) else Dyn))
    else Ok(Ev(rd(a.val), W64, if a.st == Static2 then Static2 else Dyn))
  }

  function OpValue(es: EState, o: Operand, ip: Word, rd: Word -> Word): Res<Ev>
    requires es.Valid() && OperandValid(o)
  {
    match o
    case R(r) => Ok(Ev(es.reg[r], W64, es.rs[r]))
    case I8(b) => Ok(Ev(b, W8, Static))
    case I32(d) => Ok(Ev(d, W32, Static))
    case I64(v) => Ok(Ev(v, W64, Static))
    case M(m) => MemValue(es, OpAddr(es, m, ip), rd)
  }

  /** Sign extension of immediates before an operation on 64 bits. */
  function Extend8(o: Operand, v: Ev): Ev {
    if o.I8? then Ev(SignExtend8(o.b), W64, v.st) else v
  }

  function Extend(o: Operand, v: Ev): Ev
    requires OperandValid(o)
  {
    if o.I32? then Ev(SignExtend32(o.d), W64, v.st) else Extend8(o, v)
  }

  predicate Tracked(es: EState, o: Operand, ip: Word)
    requires es.Valid()
  {
    match o
    case R(_) => true
    case M(m) => var a := OpAddr(es, m, ip); OnStack(es, a.val) && a.st == StackRel
    case _ => false
  }

  function FoldBase(es: EState, m: MemRef, ip: Word): MemRef
    requires es.Valid()
  {
    match m.base
    case NoBase => m
    case Gp(r) => if IsStatic(es.rs[r]) then m.(base := NoBase, disp := Wrap(m.disp + es.reg[r])) else m
    case Rip => m.(base := NoBase, disp := Wrap(m.disp + ip))
  }

  function FoldIndex(es: EState, m: MemRef): MemRef
    requires es.Valid()
  {
    if m.scale > 0 && IsStatic(es.rs[m.idx]) then
      m.(disp := Wrap(m.disp + Times(m.scale, es.reg[m.idx])), scale := 0)
    else m
  }

  /** Known registers and RIP become part of the displacement. */
  function FoldMem(es: EState, m: MemRef, ip: Word): MemRef
    requires es.Valid()
  {
    FoldIndex(es, FoldBase(es, m, ip))
  }

  function Fold(es: EState, o: Operand, ip: Word): (o': Operand)
    requires es.Valid()
    ensures OperandValid(o) ==> OperandValid(o')
    ensures (o'.R? <==> o.R?) && (o'.M? <==> o.M?)
  {
    if o.M? then M(FoldMem(es, o.m, ip)) else o
  }

  function Splice<T>(s: seq<T>, off: nat, t: seq<T>): (r: seq<T>)
    requires off + |t| <= |s|
    ensures |r| == |s|
    ensures forall i :: 0 <= i < |s| ==> r[i] == if off <= i < off + |t| then t[i - off] else s[i]
  {
    s[..off] + t + s[off + |t|..]
  }

  function WriteStack(es: EState, off: nat, v: Word, st: CState): (es': EState)
    requires es.Valid() && off + 8 <= |es.stack|
    ensures es'.Valid()
  {
    es.(stack := Splice(es.stack, off, Bytes8(v)),
        ss := Splice(es.ss, off, seq(8, i => st)),
        accessed := if es.start + off < es.accessed then es.start + off else es.accessed)
  }

  /** Store value and state to an operand. Stores that leave the tracked stack reach real memory only. */
  function SetOp(es: EState, o: Operand, v: Word, st: CState, ip: Word): (r: Res<EState>)
    requires es.Valid()
    ensures r.Ok? ==> r.value.Valid()
  {
    match o
    case R(r) => Ok(es.(reg := es.reg[r := v], rs := es.rs[r := st]))
    case M(m) =>
      var a := OpAddr(es, m, ip);
      if !OnStack(es, a.val) then Ok(es)
      else if a.val + 8 > es.Top() then Fail(StackOverrun)
      else if a.st != StackRel then Fail(StateAssert)
      else Ok(WriteStack(es, a.val - es.start, v, st))
    case _ => Fail(StateAssert)
  }

  // ----- flags

  /** Flags of d - s, by the borrow word. */
  function SubFlags(d: Word, s: Word): Flags {
    Pow64();
    var bc := Bits.BorrowWord(64, d, s);
    Flags(Bits.Bit(bc, 63), d == s, Bits.Bit(Wrap(d - s), 63), Bits.Bit(bc, 63) != Bits.Bit(bc, 62))
  }

  /** Flags of d + s: the carry word is formed like the borrow word of a subtraction. */
  function AddFlags(d: Word, s: Word): Flags {
    Pow64();
    var r := Wrap(d + s);
    var n := Bits.Not(64, d);
    var cc := Bits.Or(Bits.And(r, Bits.Or(n, s)), Bits.And(n, s));
    Flags(Bits.Bit(cc, 63), r == 0, Bits.Bit(r, 63), Bits.Bit(cc, 63) != Bits.Bit(cc, 62))
  }

  function BitFlags(r: Word): Flags {
    Flags(false, r == 0, Bits.Bit(r, 63), false)
  }

  function AllFlags(s: CState): FlagStates { FlagStates(s, s, s, s) }

  predicate StaticZero(v: Ev) { IsStatic(v.st) && v.val == 0 }

  /** Capture state of the result of dst = dst op src. */
  function ResultState(op: AluOp, v1: Ev, v2: Ev, same: bool): CState {
    match op
    case Add => CombineState(v1.st, v2.st, false)
    case Sub => CombineState(v1.st, v2.st, false)
    case And => if StaticZero(v1) || StaticZero(v2) then Static else CombineForFlags(v1.st, v2.st)
    case Or => CombineForFlags(v1.st, v2.st)
    case Xor => if same then Static else CombineForFlags(v1.st, v2.st)
    case Imul => if StaticZero(v1) || StaticZero(v2) then Static else CombineState(v1.st, v2.st, false)
  }

  function FlagsAfter(es: EState, op: AluOp, v1: Ev, v2: Ev, same: bool): EState {
    match op
    case Add => es.(flags := AddFlags(v1.val, v2.val), fs := AllFlags(CombineForFlags(v1.st, v2.st)))
    case Sub => es.(flags := SubFlags(v1.val, v2.val), fs := AllFlags(CombineForFlags(v1.st, v2.st)))
    case Imul => es
    case _ =>
      var s := ResultState(op, v1, v2, same);
      es.(flags := BitFlags(Result(op, v1.val, v2.val)), fs := FlagStates(Static, s, s, Static))
  }

  /** Same operand; memory without a base register never counts as the same. */
  predicate SameOperand(a: Operand, b: Operand) {
    match (a, b)
    case (R(r), R(q)) => r == q
    case (I8(x), I8(y)) => x == y
    case (I32(x), I32(y)) => x == y
    case (I64(x), I64(y)) => x == y
    case (M(m), M(n)) =>
      m.disp == n.disp && m.base == n.base && m.base != NoBase &&
      (m.scale == 0 || (m.scale == n.scale && m.idx == n.idx))
    case _ => false
  }

  // ----- capture

  function ImmOf(v: Ev): Operand {
    match v.w
    case W8 => I8(v.val % 256)
    case W32 => I32(v.val % 0x1_0000_0000)
    case W64 => I64(v.val)
  }

  function CaptureMov(es: EState, dst: Operand, src: Operand, res: Ev, ip: Word): seq<Instr>
    requires es.Valid()
  {
    if res.st == Dead then []
    else if IsStatic(res.st) then
      if Tracked(es, dst, ip) then [] else [Mov(Fold(es, dst, ip), I64(res.val))]
    else [Mov(Fold(es, dst, ip), Fold(es, src, ip))]
  }

  /** A register or stack slot of known content that the residual code must still be told about. */
  predicate Materialises(es: EState, dst: Operand, v1: Ev, ip: Word)
    requires es.Valid()
  {
    Tracked(es, dst, ip) && IsStatic(v1.st)
  }

  predicate MovesInstead(op: AluOp, v1: Ev) {
    (op == Add && v1.val == 0) || (op == Imul && v1.val == 1)
  }

  predicate Neutral(op: AluOp, v: Ev) {
    (op == Add && v.val == 0) || (op == Or && v.val == 0)
    || (op == And && v.val == M64 - 1) || (op == Imul && v.val == 1)
  }

  /** Captured code and the (possibly forced dynamic) state of the result. v2 is the source before extension. */
  function CaptureBinary(es: EState, cfg: Config, op: AluOp, dst: Operand, src: Operand,
                         v1: Ev, v2: Ev, res: Ev, ip: Word): (seq<Instr>, CState)
    requires es.Valid()
  {
    if res.st == Dead then ([], Dead)
    else if IsStatic(res.st) then
      if !cfg.forceUnknown && Tracked(es, dst, ip) then ([], res.st)
      else ([Mov(Fold(es, dst, ip), I64(res.val))], if cfg.forceUnknown then Dyn else res.st)
    else if Materialises(es, dst, v1, ip) && MovesInstead(op, v1) then
      ([Mov(Fold(es, dst, ip), Fold(es, src, ip))], res.st)
    else
      var pre := if Materialises(es, dst, v1, ip) then [Mov(dst, I64(v1.val))] else [];
      (pre + CaptureOp(es, op, dst, src, v2, ip), res.st)
  }

  /** The operation itself, unless the source is known to be neutral. */
  function CaptureOp(es: EState, op: AluOp, dst: Operand, src: Operand, v2: Ev, ip: Word): seq<Instr>
    requires es.Valid()
  {
    if IsStatic(v2.st) && Neutral(op, v2) then []
    else
      var o := if IsStatic(v2.st) then ImmOf(v2) else src;
      [Alu(op, Fold(es, dst, ip), Fold(es, o, ip))]
  }

  function CaptureCmp(es: EState, dst: Operand, src: Operand, v1: Ev, v2: Ev, cs: CState, ip: Word): seq<Instr>
    requires es.Valid()
  {
    if IsStatic(cs) then []
    else
      var pre := if IsStatic(v1.st) then [Mov(dst, I64(v1.val))] else [];
      var o := if IsStatic(v2.st) then ImmOf(v2) else src;
      pre + [Cmp(Fold(es, dst, ip), Fold(es, o, ip))]
  }

  function CaptureLea(es: EState, cfg: Config, r: Reg, m: MemRef, res: Ev, ip: Word): (seq<Instr>, CState)
    requires es.Valid()
  {
    if IsStatic(res.st) then
      if cfg.forceUnknown then ([Mov(R(r), I64(res.val))], Dyn) else ([], res.st)
    else ([Lea(r, FoldMem(es, m, ip))], res.st)
  }

  // ----- one instruction

  datatype Stepped = Stepped(es: EState, code: seq<Instr>)

  function StepMov(es: EState, dst: Operand, src: Operand, ip: Word, rd: Word -> Word): Res<Stepped>
    requires es.Valid() && OperandValid(src)
  {
    var v :- OpValue(es, src, ip, rd);
    var res := Extend(src, v);
    var es' :- SetOp(es, dst, res.val, res.st, ip);
    Ok(Stepped(es', CaptureMov(es, dst, src, res, ip)))
  }

  function StepAlu(es: EState, cfg: Config, op: AluOp, dst: Operand, src: Operand,
                   ip: Word, rd: Word -> Word): Res<Stepped>
    requires es.Valid() && OperandValid(dst) && OperandValid(src)
  {
    var v1 :- OpValue(es, dst, ip, rd);
    var u2 :- OpValue(es, src, ip, rd);
    var v2 := if op == Add then Extend8(src, u2) else if op == Sub then Extend(src, u2) else u2;
    if v1.w != v2.w then Fail(TypeMismatch)
    else if op == Imul && !dst.R? then Fail(StateAssert)
    else if op == Imul && !src.R? && !src.M? then Fail(UnsupportedOperands)
    else
      var same := SameOperand(dst, src);
      var res := Ev(Result(op, v1.val, v2.val), W64, ResultState(op, v1, v2, same));
      var (code, st) := CaptureBinary(es, cfg, op, dst, src, v1, u2, res, ip);
      var es' :- SetOp(FlagsAfter(es, op, v1, v2, same), dst, res.val, st, ip);
      Ok(Stepped(es', code))
  }

  function StepCmp(es: EState, dst: Operand, src: Operand, ip: Word, rd: Word -> Word): Res<Stepped>
    requires es.Valid() && OperandValid(dst) && OperandValid(src)
  {
    var v1 :- OpValue(es, dst, ip, rd);
    var u2 :- OpValue(es, src, ip, rd);
    var v2 := Extend8(src, u2);
    if v1.w != v2.w then Fail(TypeMismatch)
    else
      Ok(Stepped(FlagsAfter(es, Sub, v1, v2, false),
                 CaptureCmp(es, dst, src, v1, u2, CombineForFlags(v1.st, v2.st), ip)))
  }

  function StepLea(es: EState, cfg: Config, r: Reg, m: MemRef, ip: Word): Res<Stepped>
    requires es.Valid()
  {
    var res := OpAddr(es, m, ip);
    var (code, st) := CaptureLea(es, cfg, r, m, res, ip);
    var es' :- SetOp(es, R(r), res.val, st, ip);
    Ok(Stepped(es', code))
  }

  /** Emulate and capture one instruction other than a return. */
  function Step(es: EState, cfg: Config, i: Instr, ip: Word, rd: Word -> Word): (r: Res<Stepped>)
    requires es.Valid() && InstrValid(i)
    ensures r.Ok? ==> r.value.es.Valid()
  {
    match i
    case Mov(d, s) => StepMov(es, d, s, ip, rd)
    case Alu(op, d, s) => StepAlu(es, cfg, op, d, s, ip, rd)
    case Cmp(d, s) => StepCmp(es, d, s, ip, rd)
    case Lea(r, m) => StepLea(es, cfg, r, m, ip)
    case _ => Ok(Stepped(es, []))
  }

  const CALLER_SAVED: seq<Reg> := [7, 6, 2, 1, 8, 9, 10, 11]

  function Kill(rs: seq<CState>): (r: seq<CState>)
    requires |rs| == 16
    ensures |r| == 16
    ensures forall k :: 0 <= k < 16 ==> r[k] == if k in CALLER_SAVED then Dead else rs[k]
  {
    seq(16, k requires 0 <= k < 16 => if k in CALLER_SAVED then Dead else rs[k])
  }

  /** Return from the rewritten function: scratch registers die, a known result is loaded. */
  function StepRet(es: EState, cfg: Config): (r: Stepped)
    requires es.Valid()
    ensures r.es.Valid()
  {
    var es' := es.(rs := Kill(es.rs));
    var hint := if cfg.hints then [HintRet] else [];
    var load := if !cfg.hasReturnFP && IsStatic(es'.rs[RAX]) then [Mov(R(RAX), I64(es'.reg[RAX]))] else [];
    Stepped(es', hint + load + [Ret])
  }

  // ----- conditional jumps

  datatype Flag = CF | ZF | SF | OF

  function StateOf(fs: FlagStates, f: Flag): CState {
    match f case CF => fs.cf case ZF => fs.zf case SF => fs.sf case OF => fs.of
  }

  /** Flags whose state decides whether the jump is captured. */
  function Consults(c: Cond): set<Flag> {
    match c
    case CO => {OF}
    case CNO => {OF}
    case CC => {CF}
    case CNC => {CF}
    case CZ => {ZF}
    case CNZ => {ZF}
    case CBE => {CF, ZF}
    case CA => {CF, ZF}
    case CS => {SF}
    case CNS => {SF}
    case CL => {SF, OF}
    case CGE => {SF, OF}
    case CLE => {ZF, SF}
    case CG => {ZF, SF}
  }

  predicate DynamicJump(es: EState, c: Cond) {
    exists f <- Consults(c) :: StateOf(es.fs, f) == Dyn
  }

  /** Direction taken by the emulator. */
  predicate EmuTaken(c: Cond, f: Flags) {
    match c
    case CLE => f.zf || f.sf
    case CG => !f.zf && !f.sf
    case _ => Holds(c, f)
  }

  /** Jump type stored in the captured block. */
  function CapturedCond(c: Cond): Cond {
    match c case CBE => CLE case CA => CG case _ => c
  }
}
