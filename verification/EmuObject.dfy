/** The emulator state as the object that processing an instruction updates in place. */
module EmuObject {
  import opened Machine
  import opened Emulator
  import opened SavedState
  import Bits

  /** State of a fresh emulator: everything dead except the callee-saved registers. */
  function Initial(size: nat, start: int): (es: EState)
    requires 0 <= start && start + size <= M64
    ensures es.Valid() && |es.stack| == size
  {
    EState(seq(16, i => 0), seq(16, i => if i in {3, 5, 12, 13, 14, 15} then Dyn else Dead),
           Flags(false, false, false, false), AllFlags(Dead),
           start, start + size, seq(size, i => 0), seq(size, i => Dead), [], 0)
  }

  class EmuState {
    const id: nat
    const reg: array<Word>
    const regState: array<CState>
    const stack: array<Byte>
    const stackState: array<CState>
    var flag: Flags
    var flagState: FlagStates
    var stackStart: int
    var stackAccessed: int
    var stackTop: int
    var retStack: seq<Word>
    var parent: nat

    ghost function Repr(): set<object> { {this, reg, regState, stack, stackState} }

    ghost function Snap(): EState
      reads Repr()
    {
      EState(reg[..], regState[..], flag, flagState, stackStart, stackAccessed, stack[..], stackState[..], retStack,
             parent)
    }

    ghost predicate Valid()
      reads Repr()
    {
      && reg.Length == 16 && regState.Length == 16 && regState != stackState
      && stack.Length == stackState.Length
      && stackTop == stackStart + stack.Length
      && Snap().Valid()
    }

    constructor (size: nat, start: int, ident: nat)
      requires 0 <= start && start + size <= M64
      ensures Valid() && fresh(Repr()) && id == ident && stack.Length == size
      ensures Snap() == Initial(size, start)
    {
      id := ident;
      reg := new Word[16](i => 0);
      regState := new CState[16](i => if i in {3, 5, 12, 13, 14, 15} then Dyn else Dead);
      stack, stackState := new Byte[size](i => 0), new CState[size](i => Dead);
      flag, flagState := Flags(false, false, false, false), AllFlags(Dead);
      stackStart, stackAccessed, stackTop := start, start + size, start + size;
      retStack, parent := [], 0;
      new;
      ghost var es := Initial(size, start);
      assert reg[..] == es.reg && regState[..] == es.rs && stack[..] == es.stack && stackState[..] == es.ss;
    }

    // ----- stores

    method SetReg(r: Reg, v: Word, st: CState)
      requires Valid()
      modifies reg, regState
      ensures Valid()
      ensures var e := old(Snap()); Snap() == e.(reg := e.reg[r := v], rs := e.rs[r := st])
    {
      reg[r] := v;
      regState[r] := st;
    }

    /** Back to the state of a fresh emulator. */
    method Reset()
      requires Valid()
      modifies Repr()
      ensures Valid() && stackStart == old(stackStart) && Snap() == Initial(stack.Length, stackStart)
    {
      hide Splice;
      parent, retStack := 0, [];
      forall i | 0 <= i < 16 { reg[i] := 0; }
      forall i | 0 <= i < 16 { regState[i] := if i in {3, 5, 12, 13, 14, 15} then Dyn else Dead; }
      forall i | 0 <= i < stack.Length { stack[i] := 0; }
      forall i | 0 <= i < stack.Length { stackState[i] := Dead; }
      flag, flagState := Flags(false, false, false, false), AllFlags(Dead);
      stackAccessed := stackTop;
    }

    method SetStackValue(off: nat, v: Word)
      requires Valid() && off + 8 <= stack.Length
      modifies stack
      ensures stack[..] == Splice(old(stack[..]), off, Bytes8(v))
    {
      var b := Bytes8(v);
      for k := 0 to 8
        invariant forall i :: 0 <= i < stack.Length ==>
          stack[i] == if off <= i < off + k then b[i - off] else old(stack[..])[i]
      {
        stack[off + k] := b[k];
      }
    }

    method SetStackState(off: nat, st: CState)
      requires Valid() && off + 8 <= stack.Length
      modifies stackState
      ensures stackState[..] == Splice(old(stackState[..]), off, seq(8, i => st))
    {
      for k := 0 to 8
        invariant forall i :: 0 <= i < stackState.Length ==>
          stackState[i] == if off <= i < off + k then st else old(stackState[..])[i]
      {
        stackState[off + k] := st;
      }
    }

    method WriteSlot(off: nat, v: Word, st: CState)
      requires Valid() && off + 8 <= stack.Length
      modifies this`stackAccessed, stack, stackState
      ensures Valid()
      ensures Snap() == WriteStack(old(Snap()), off, v, st)
    {
      SetStackValue(off, v);
      SetStackState(off, st);
      if stackStart + off < stackAccessed { stackAccessed := stackStart + off; }
    }

    method SetOperand(o: Operand, v: Word, st: CState, ip: Word) returns (failed: bool, why: Failure)
      requires Valid()
      modifies this`stackAccessed, reg, regState, stack, stackState
      ensures Valid()
      ensures failed <==> SetOp(old(Snap()), o, v, st, ip).Fail?
      ensures !failed ==> Snap() == SetOp(old(Snap()), o, v, st, ip).value
      ensures failed ==> SetOp(old(Snap()), o, v, st, ip) == Fail(why) && Snap() == old(Snap())
    {
      failed, why := false, StateAssert;
      match o
      case R(r) => SetReg(r, v, st);
      case M(m) =>
        var a := Address(m, ip);
        if stackStart <= a.val < stackTop {
          if a.val + 8 > stackTop { return true, StackOverrun; }
          if a.st != StackRel { return true, StateAssert; }
          WriteSlot(a.val - stackStart, v, st);
        }
      case _ => failed := true;
    }

    // ----- reads

    function Address(m: MemRef, ip: Word): (a: Ev)
      requires Valid()
      reads Repr()
      ensures a == OpAddr(Snap(), m, ip)
    {
      var a := match m.base
        case NoBase => Ev(m.disp, W64, Static)
        case Gp(r) => Ev(Wrap(m.disp + reg[r]), W64, CombineState(Static, regState[r], false))
        case Rip => Ev(Wrap(m.disp + ip), W64, Static);
      if m.scale == 0 then a
      else Ev(Wrap(a.val + Times(m.scale, reg[m.idx])), W64, CombineState(a.st, regState[m.idx], false))
    }

    /** State of the eight bytes at off. */
    method StackSlotState(off: nat) returns (st: CState)
      requires Valid() && off + 8 <= stack.Length
      ensures st == SlotState(Snap(), off, 8)
    {
      st := if stackStart + off < stackAccessed then Dead else stackState[off];
      for k := 1 to 8
        invariant st == SlotState(Snap(), off, k)
      {
        st := CombineState(st, stackState[off + k], true);
      }
    }

    method OperandValue(o: Operand, ip: Word, rd: Word -> Word) returns (v: Res<Ev>)
      requires Valid() && OperandValid(o)
      ensures v == OpValue(Snap(), o, ip, rd)
    {
      match o
      case R(r) => v := Ok(Ev(reg[r], W64, regState[r]));
      case I8(b) => v := Ok(Ev(b, W8, Static));
      case I32(d) => v := Ok(Ev(d, W32, Static));
      case I64(w) => v := Ok(Ev(w, W64, Static));
      case M(m) =>
        var a := Address(m, ip);
        if stackStart <= a.val < stackTop {
          var off := a.val - stackStart;
          if off + 8 > stack.Length { return Fail(StackOverrun); }
          var st := Dyn;
          if a.st == StackRel { st := StackSlotState(off); }
          v := Ok(Ev(Word8(stack[off..off + 8]), W64, st));
        } else {
          v := Ok(Ev(rd(a.val), W64, if a.st == Static2 then Static2 else Dyn));
        }
    }

    // ----- flags

    method SetFlagsFor(op: AluOp, v1: Ev, v2: Ev, same: bool)
      requires Valid()
      modifies this`flag, this`flagState
      ensures Valid()
      ensures Snap() == FlagsAfter(old(Snap()), op, v1, v2, same)
    {
      match op
      case Add =>
        flag, flagState := AddFlags(v1.val, v2.val), AllFlags(CombineForFlags(v1.st, v2.st));
      case Sub =>
        flag, flagState := SubFlags(v1.val, v2.val), AllFlags(CombineForFlags(v1.st, v2.st));
      case Imul =>
      case _ =>
        var s := ResultState(op, v1, v2, same);
        flag, flagState := BitFlags(Result(op, v1.val, v2.val)), FlagStates(Static, s, s, Static);
    }

    // ----- capture

    /** Known registers become part of the displacement of a memory operand. */
    function ApplyStatic(o: Operand, ip: Word): (o': Operand)
      requires Valid()
      reads Repr()
      ensures o' == Fold(Snap(), o, ip)
    {
      if !o.M? then o
      else
        var m := o.m;
        var b := match m.base
          case NoBase => m
          case Gp(r) => if IsStatic(regState[r]) then m.(base := NoBase, disp := Wrap(m.disp + reg[r])) else m
          case Rip => m.(base := NoBase, disp := Wrap(m.disp + ip));
        M(if b.scale > 0 && IsStatic(regState[b.idx]) then
            b.(disp := Wrap(b.disp + Times(b.scale, reg[b.idx])), scale := 0)
          else b)
    }

    predicate IsTracked(o: Operand, ip: Word)
      requires Valid()
      reads Repr()
      ensures IsTracked(o, ip) == Tracked(Snap(), o, ip)
    {
      match o
      case R(_) => true
      case M(m) => var a := Address(m, ip); stackStart <= a.val < stackTop && a.st == StackRel
      case _ => false
    }

    method CapturedMov(dst: Operand, src: Operand, res: Ev, ip: Word) returns (code: seq<Instr>)
      requires Valid()
      ensures code == CaptureMov(Snap(), dst, src, res, ip)
    {
      if res.st == Dead { return []; }
      var o := src;
      if IsStatic(res.st) {
        if IsTracked(dst, ip) { return []; }
        o := I64(res.val);
      }
      var d := ApplyStatic(dst, ip);
      o := ApplyStatic(o, ip);
      code := [Mov(d, o)];
    }

    method CapturedBinary(cfg: Config, op: AluOp, dst: Operand, src: Operand, v1: Ev, v2: Ev, res: Ev, ip: Word)
      returns (code: seq<Instr>, st: CState)
      requires Valid()
      ensures (code, st) == CaptureBinary(Snap(), cfg, op, dst, src, v1, v2, res, ip)
    {
      hide Fold, Tracked, CaptureOp, MovesInstead, EState.Valid, Snap, Valid;
      code, st := [], res.st;
      if st == Dead { return; }
      var tracked := IsTracked(dst, ip);
      if IsStatic(st) {
        if cfg.forceUnknown { st := Dyn; } else if tracked { return; }
        var d := ApplyStatic(dst, ip);
        return [Mov(d, I64(res.val))], st;
      }
      if tracked && IsStatic(v1.st) {
        if MovesInstead(op, v1) {
          var d := ApplyStatic(dst, ip);
          var o := ApplyStatic(src, ip);
          return [Mov(d, o)], st;
        }
        code := [Mov(dst, I64(v1.val))];
      }
      var last := CapturedOp(op, dst, src, v2, ip);
      code := code + last;
    }

    method CapturedOp(op: AluOp, dst: Operand, src: Operand, v2: Ev, ip: Word) returns (code: seq<Instr>)
      requires Valid()
      ensures code == CaptureOp(Snap(), op, dst, src, v2, ip)
      ensures Valid() && Snap() == old(Snap())
    {
      hide Fold, ImmOf, Neutral, EState.Valid, Snap, Valid;
      var d := ApplyStatic(dst, ip);
      var o := src;
      if IsStatic(v2.st) {
        if Neutral(op, v2) { return []; }
        o := ImmOf(v2);
      }
      o := ApplyStatic(o, ip);
      code := [Alu(op, d, o)];
    }

    method CapturedCmp(dst: Operand, src: Operand, v1: Ev, v2: Ev, cs: CState, ip: Word) returns (code: seq<Instr>)
      requires Valid()
      ensures code == CaptureCmp(Snap(), dst, src, v1, v2, cs, ip)
    {
      code := [];
      if IsStatic(cs) { return; }
      if IsStatic(v1.st) { code := [Mov(dst, I64(v1.val))]; }
      var o := if IsStatic(v2.st) then ImmOf(v2) else src;
      var d := ApplyStatic(dst, ip);
      o := ApplyStatic(o, ip);
      code := code + [Cmp(d, o)];
    }

    method CapturedLea(cfg: Config, r: Reg, m: MemRef, res: Ev, ip: Word) returns (code: seq<Instr>, st: CState)
      requires Valid()
      ensures (code, st) == CaptureLea(Snap(), cfg, r, m, res, ip)
    {
      if IsStatic(res.st) {
        if cfg.forceUnknown { return [Mov(R(r), I64(res.val))], Dyn; }
        return [], res.st;
      }
      var o := ApplyStatic(M(m), ip);
      code, st := [Lea(r, o.m)], res.st;
    }

    // ----- one instruction

    /** Emulate and capture one instruction. A failure ends the rewriting and leaves no promise on the state. */
    method ProcessInstr(i: Instr, ip: Word, rd: Word -> Word, cfg: Config) returns (r: Res<seq<Instr>>)
      requires Valid() && InstrValid(i)
      modifies this`flag, this`flagState, this`stackAccessed, reg, regState, stack, stackState
      ensures Valid()
      ensures match Step(old(Snap()), cfg, i, ip, rd)
              case Ok(s) => r == Ok(s.code) && Snap() == s.es
              case Fail(why) => r == Fail(why)
    {
      match i
      case Mov(d, o) =>
        var v := OperandValue(o, ip, rd);
        if v.Fail? { return Fail(v.why); }
        var res := Extend(o, v.value);
        var code := CapturedMov(d, o, res, ip);
        var failed, why := SetOperand(d, res.val, res.st, ip);
        r := if failed then Fail(why) else Ok(code);
      case Alu(op, d, o) => r := ProcessAlu(op, d, o, ip, rd, cfg);
      case Cmp(d, o) => r := ProcessCmp(d, o, ip, rd);
      case Lea(q, m) =>
        var a := Address(m, ip);
        var code, st := CapturedLea(cfg, q, m, a, ip);
        SetReg(q, a.val, st);
        r := Ok(code);
      case _ => r := Ok([]);
    }

    method ProcessAlu(op: AluOp, d: Operand, o: Operand, ip: Word, rd: Word -> Word, cfg: Config)
      returns (r: Res<seq<Instr>>)
      requires Valid() && PairValid(d, o)
      modifies this`flag, this`flagState, this`stackAccessed, reg, regState, stack, stackState
      ensures Valid()
      ensures match StepAlu(old(Snap()), cfg, op, d, o, ip, rd)
              case Ok(s) => r == Ok(s.code) && Snap() == s.es
              case Fail(why) => r == Fail(why)
    {
      hide OpValue, CaptureBinary, SetOp, FlagsAfter, Result, ResultState, SameOperand, EState.Valid, Extend, Extend8;
      ghost var es := Snap();
      var v1 := OperandValue(d, ip, rd);
      if v1.Fail? { return Fail(v1.why); }
      var u2 := OperandValue(o, ip, rd);
      if u2.Fail? { return Fail(u2.why); }
      var v2 := if op == Add then Extend8(o, u2.value) else if op == Sub then Extend(o, u2.value) else u2.value;
      if v1.value.w != v2.w { return Fail(TypeMismatch); }
      if op == Imul && !d.R? { return Fail(StateAssert); }
      if op == Imul && !o.R? && !o.M? { return Fail(UnsupportedOperands); }
      var same := SameOperand(d, o);
      var res := Ev(Result(op, v1.value.val, v2.val), W64, ResultState(op, v1.value, v2, same));
      SetFlagsFor(op, v1.value, v2, same);
      CaptureIgnoresFlags(es, Snap(), cfg, op, d, o, v1.value, u2.value, res, ip);
      var code, st := CapturedBinary(cfg, op, d, o, v1.value, u2.value, res, ip);
      var failed, why := SetOperand(d, res.val, st, ip);
      r := if failed then Fail(why) else Ok(code);
    }

    method ProcessCmp(d: Operand, o: Operand, ip: Word, rd: Word -> Word) returns (r: Res<seq<Instr>>)
      requires Valid() && PairValid(d, o)
      modifies this`flag, this`flagState
      ensures Valid()
      ensures match StepCmp(old(Snap()), d, o, ip, rd)
              case Ok(s) => r == Ok(s.code) && Snap() == s.es
              case Fail(why) => r == Fail(why)
    {
      hide OpValue, CaptureCmp, FlagsAfter, EState.Valid, Extend8;
      var v1 := OperandValue(d, ip, rd);
      if v1.Fail? { return Fail(v1.why); }
      var u2 := OperandValue(o, ip, rd);
      if u2.Fail? { return Fail(u2.why); }
      var v2 := Extend8(o, u2.value);
      if v1.value.w != v2.w { return Fail(TypeMismatch); }
      var code := CapturedCmp(d, o, v1.value, u2.value, CombineForFlags(v1.value.st, v2.st), ip);
      SetFlagsFor(Sub, v1.value, v2, false);
      r := Ok(code);
    }

    /** The rewritten function returns: scratch registers die, a known result is loaded. */
    method ProcessReturn(cfg: Config) returns (code: seq<Instr>)
      requires Valid()
      modifies regState
      ensures Valid()
      ensures Stepped(Snap(), code) == StepRet(old(Snap()), cfg)
    {
      ghost var es := Snap();
      var dead := CALLER_SAVED;
      for k := 0 to |dead|
        invariant forall i :: 0 <= i < 16 ==> regState[i] == if i in dead[..k] then Dead else es.rs[i]
        modifies regState
      {
        regState[dead[k]] := Dead;
      }
      assert dead[..|dead|] == dead;
      assert regState[..] == Kill(es.rs);
      code := if cfg.hints then [HintRet] else [];
      if !cfg.hasReturnFP && IsStatic(regState[RAX]) {
        code := code + [Mov(R(RAX), I64(reg[RAX]))];
      }
      code := code + [Ret];
    }

    // ----- saving and restoring

    /** Copy src into this state, whose stack may be larger or smaller. */
    method CopyFrom(src: EmuState)
      requires Valid() && src.Valid() && Repr() !! src.Repr()
      requires stack.Length <= src.stackTop
      requires src.stackTop - src.stackAccessed <= stack.Length
      modifies Repr()
      ensures Valid() && Snap() == CopyState(stack.Length, src.Snap())
    {
      hide CopyState, EState.Valid, CombineState;
      parent := src.parent;
      CopyRegisters(src);
      flag, flagState := src.flag, src.flagState;
      stackTop, stackAccessed := src.stackTop, src.stackAccessed;
      CopyStack(src);
      retStack := src.retStack;
      CopyFields(stack.Length, src.Snap());
    }

    method CopyRegisters(src: EmuState)
      requires src.Valid() && Repr() !! src.Repr() && reg.Length == 16 && regState.Length == 16
      modifies reg, regState
      ensures reg[..] == src.reg[..] && regState[..] == src.regState[..]
    {
      for i := 0 to 16
        invariant reg[..i] == src.reg[..i] && regState[..i] == src.regState[..i]
      {
        reg[i] := src.reg[i];
        regState[i] := src.regState[i];
      }
      assert reg[..16] == reg[..] && src.reg[..16] == src.reg[..];
      assert regState[..16] == regState[..] && src.regState[..16] == src.regState[..];
    }

    method CopyStack(src: EmuState)
      requires src.Valid() && Repr() !! src.Repr() && stack.Length == stackState.Length
      requires stack.Length <= src.stackTop
      requires src.stackTop - src.stackAccessed <= stack.Length
      modifies this`stackStart, stack, stackState
      ensures var c := CopyState(stack.Length, src.Snap());
              stackStart == c.start && stack[..] == c.stack && stackState[..] == c.ss
    {
      hide EState.Valid, CombineState;
      if src.stack.Length < stack.Length {
        var diff := stack.Length - src.stack.Length;
        stackStart := src.stackStart - diff;
        for i := 0 to diff
          invariant forall k :: 0 <= k < i ==> stack[k] == 0 && stackState[k] == Dead
          modifies stack, stackState
        {
          stack[i] := 0;
          stackState[i] := Dead;
        }
        for i := 0 to src.stack.Length
          invariant forall k :: 0 <= k < diff ==> stack[k] == 0 && stackState[k] == Dead
          invariant forall k :: diff <= k < diff + i ==>
            stack[k] == src.stack[k - diff] && stackState[k] == src.stackState[k - diff]
          modifies stack, stackState
        {
          stack[diff + i] := src.stack[i];
          stackState[diff + i] := src.stackState[i];
        }
      } else {
        var diff := src.stack.Length - stack.Length;
        stackStart := src.stackStart + diff;
        for i := 0 to stack.Length
          invariant forall k :: 0 <= k < i ==>
                      stack[k] == src.stack[k + diff] && stackState[k] == src.stackState[k + diff]
          modifies stack, stackState
        {
          stack[i] := src.stack[i + diff];
          stackState[i] := src.stackState[i + diff];
        }
      }
    }

    /** A new object with the accessed part of the stack, remembering where it comes from. */
    method CloneState() returns (dst: EmuState)
      requires Valid()
      ensures dst.Valid() && fresh(dst.Repr()) && dst.Snap() == Clone(Snap(), id)
    {
      dst := new EmuState(stackTop - stackAccessed, stackAccessed, 0);
      dst.CopyFrom(this);
      dst.parent := id;
    }
  }

  lemma CopyFields(n: nat, src: EState)
    requires src.Valid() && n <= src.Top() && src.Top() - src.accessed <= n
    ensures var c := CopyState(n, src); c == src.(start := c.start, stack := c.stack, ss := c.ss)
  {}

  /** Capturing does not look at the flags. */
  lemma CaptureIgnoresFlags(es: EState, es': EState, cfg: Config, op: AluOp, d: Operand, o: Operand,
                            v1: Ev, v2: Ev, res: Ev, ip: Word)
    requires es.Valid() && es' == es.(flags := es'.flags, fs := es'.fs)
    ensures es'.Valid()
    ensures CaptureBinary(es', cfg, op, d, o, v1, v2, res, ip) == CaptureBinary(es, cfg, op, d, o, v1, v2, res, ip)
  {
    hide ImmOf, Neutral, MovesInstead;
    SameView(es, es', d, ip);
    SameView(es, es', o, ip);
    SameView(es, es', ImmOf(v2), ip);
    hide Fold, Tracked;
  }

  lemma SameView(es: EState, es': EState, o: Operand, ip: Word)
    requires es.Valid() && es' == es.(flags := es'.flags, fs := es'.fs)
    ensures es'.Valid() && Fold(es', o, ip) == Fold(es, o, ip) && Tracked(es', o, ip) == Tracked(es, o, ip)
  {
    hide OpAddr, Times, IsStatic;
    if o.M? { AddrFlags(es, es', o.m, ip); }
  }
}
