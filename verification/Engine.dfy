/** The rewriting engine: emulate all paths, capture blocks, remember emulator states. */
module Engine {
  import opened Machine
  import opened Emulator
  import opened SavedState
  import opened Simulation
  import opened EmuObject
  import opened Ledger

  const SAVEDSTATE_MAX := 20
  const CAPTURESTACK_LEN := 20
  const STACK_SIZE := 1024

  /** Registers of the first six integer parameters. */
  const PAR_REG: seq<Reg> := [7, 6, 2, 1, 8, 9]

  datatype EngineError =
    | BufferOverflow            // blocks, instructions, saved states or capture stack
    | EmulatorError(why: Failure)
    | TooManyParameters
    | DecodeError               // no instruction at the next address
    | StillRunning              // the bound on emulated instructions was reached

  /** Emulator state at entry: parameters loaded, stack pointer at the top of the tracked stack. */
  function EntryState(start: int, par: seq<Word>, parState: seq<CState>): (es: EState)
    requires 0 <= start && start + STACK_SIZE < M64 && |par| == |parState| <= 6
    ensures es.Valid()
  {
    var e := Loaded(Initial(STACK_SIZE, start), par, parState);
    e.(reg := e.reg[RSP := start + STACK_SIZE], rs := e.rs[RSP := StackRel])
  }

  function Loaded(e: EState, par: seq<Word>, parState: seq<CState>): (es: EState)
    requires e.Valid() && |par| == |parState| <= 6
    ensures es.Valid() && es == e.(reg := es.reg, rs := es.rs)
  {
    if par == [] then e
    else
      var n := |par| - 1;
      var l := Loaded(e, par[..n], parState[..n]);
      l.(reg := l.reg[PAR_REG[n] := par[n]], rs := l.rs[PAR_REG[n] := parState[n]])
  }

  /** The first block is the one of the function f in the (saved) entry state. */
  ghost predicate Rooted(b: Book, f: Word, entry: EState)
    requires entry.Valid()
  {
    && |b.bbs| > 0 && b.bbs[0].addr == f && b.bbs[0].esID == 0
    && |b.saved| > 0 && b.saved[0] == Clone(entry, 1)
  }

  lemma GrowsRooted(b: Book, c: Book, f: Word, entry: EState)
    requires entry.Valid() && Rooted(b, f, entry) && Grows(b, c)
    ensures Rooted(c, f, entry)
  {}

  /** Blocks after looking up two of them. */
  lemma AtMostTwo(b0: seq<CBB>, b1: seq<CBB>, b2: seq<CBB>, x: CBB, i: nat, y: CBB, j: nat)
    requires b1 == b0 || (i == |b0| && b1 == b0 + [x])
    requires b2 == b1 || (j == |b1| && b2 == b1 + [y])
    requires i < |b1|
    ensures b0 <= b2 && i < |b2| && b2[i] == b1[i]
    ensures forall k :: |b0| <= k < |b2| ==> OneOf(k, j, i) && b2[k] == if k < |b1| then x else y
  {}

  class Rewriter {
    const code: Code
    const cfg: Config
    const capInstrCapacity: nat
    const capBBCapacity: nat
    const es: EmuState

    var capInstr: seq<Instr>
    var capBB: seq<CBB>
    var currentCapBB: Option<nat>
    var capStack: seq<nat>
    var savedState: seq<EmuState>
    ghost var saved: seq<EState>
    ghost var trails: seq<Trail>

    ghost function SavedRepr(): set<object>
      reads this`savedState
    {
      set k, o | 0 <= k < |savedState| && o in savedState[k].Repr() :: o
    }

    ghost function TheBook(): Book
      reads this
    {
      Book(capInstr, capBB, currentCapBB, capStack, saved, trails)
    }

    ghost function TheShape(): Shape
      reads es.Repr()
    {
      Shape(STACK_SIZE, es.stackTop)
    }

    /** Objects and their snapshots: the live state and the saved ones do not share memory. */
    ghost predicate Objects()
      reads this`savedState, this`saved, es.Repr(), SavedRepr()
    {
      && es.Valid() && es.id == 1 && es.stack.Length == STACK_SIZE && es.stackTop < M64
      && es.Repr() !! SavedRepr()
      && |saved| == |savedState|
      && (forall k :: 0 <= k < |savedState| ==> savedState[k].Valid() && savedState[k].Snap() == saved[k])
    }

    ghost predicate Valid()
      reads this, es.Repr(), SavedRepr()
    {
      Objects() && BookOk(code, cfg, TheBook(), TheShape())
    }

    constructor (code: Code, cfg: Config, instrCapacity: nat, bbCapacity: nat, stackStart: int)
      requires CodeValid(code) && 0 <= stackStart && stackStart + STACK_SIZE < M64
      ensures Valid() && fresh(es.Repr()) && fresh(SavedRepr())
      ensures this.code == code && this.cfg == cfg && es.Snap() == Initial(STACK_SIZE, stackStart)
      ensures TheBook() == Book([], [], None, [], [], [])
    {
      this.code, this.cfg := code, cfg;
      capInstrCapacity, capBBCapacity := instrCapacity, bbCapacity;
      es := new EmuState(STACK_SIZE, stackStart, 1);
      capInstr, capBB, currentCapBB, capStack := [], [], None, [];
      savedState, saved, trails := [], [], [];
    }

    // ----- saved states

    /** Index of an equal saved state, or of a new clone. */
    method SaveEmuState() returns (ok: bool, id: nat)
      requires Objects() && (forall i :: 0 <= i < |saved| ==> Fits(saved[i], TheShape()))
      modifies this`savedState, this`saved
      ensures Objects()
      ensures es.Snap() == old(es.Snap()) && TheShape() == old(TheShape())
      ensures old(saved) <= saved && forall i :: 0 <= i < |saved| ==> Fits(saved[i], TheShape())
      ensures ok ==> id < |saved| && Refines(es.Snap(), saved[id])
      ensures old(saved) == [] ==> ok && id == 0 && saved == [Clone(es.Snap(), es.id)]
      ensures ok <==> |old(saved)| < SAVEDSTATE_MAX ||
                      exists i :: 0 <= i < |old(saved)| && EsIsEqual(es.Snap(), old(saved)[i])
      ensures !ok ==> saved == old(saved)
      ensures ok && |saved| > |old(saved)| ==>
        id == |old(saved)| && saved == old(saved) + [Clone(es.Snap(), es.id)]
        && forall i :: 0 <= i < id ==> !EsIsEqual(es.Snap(), saved[i])
      ensures ok && |saved| == |old(saved)| ==> EsIsEqual(es.Snap(), saved[id])
    {
      hide EsIsEqual, Refines, Fits, Clone, Objects, SavedRepr, EmuState.Snap, EmuState.Valid, EState.Valid;
      SavedFacts();
      var k := 0;
      while k < |savedState|
        invariant 0 <= k <= |savedState| && Objects()
        invariant es.Snap() == old(es.Snap()) && TheShape() == old(TheShape())
        invariant forall i :: 0 <= i < k ==> !EsIsEqual(es.Snap(), saved[i])
        modifies {}
      {
        var same := Matches(k);
        if same {
          SavedRefined(es.Snap(), saved[k], TheShape());
          return true, k;
        }
        k := k + 1;
      }
      if k >= SAVEDSTATE_MAX { return false, 0; }
      CloneRefines(es.Snap(), es.id);
      CloneFits(es.Snap(), es.id, TheShape());
      AppendClone();
      return true, k;
    }

    lemma SavedFacts()
      requires Objects()
      ensures |saved| == |savedState| && es.Snap().Valid() && Fits(es.Snap(), TheShape()) && es.id == 1
      ensures |es.Snap().stack| == TheShape().size
      ensures forall k :: 0 <= k < |saved| ==> saved[k].Valid()
    {}

    method Matches(k: nat) returns (same: bool)
      requires Objects() && k < |savedState| && es.Snap().Valid() && saved[k].Valid()
      ensures Objects() && es.Snap() == old(es.Snap()) && TheShape() == old(TheShape())
      ensures same == EsIsEqual(es.Snap(), saved[k])
    {
      hide EsIsEqual;
      same := IsEqual(es, savedState[k]);
    }

    method AppendClone()
      requires Objects() && es.Snap().Valid()
      modifies this`savedState, this`saved
      ensures Objects() && es.Snap() == old(es.Snap()) && TheShape() == old(TheShape())
      ensures saved == old(saved) + [Clone(es.Snap(), es.id)]
    {
      hide Clone;
      var c := es.CloneState();
      savedState, saved := savedState + [c], saved + [c.Snap()];
    }

    static method IsEqual(a: EmuState, b: EmuState) returns (r: bool)
      requires a.Valid() && b.Valid()
      ensures r == EsIsEqual(a.Snap(), b.Snap())
    {
      var p := a.parent == b.parent;
      for i := 0 to 16
        invariant forall j :: 0 <= j < i ==> CsIsEqual(p, a.regState[j], a.reg[j], b.regState[j], b.reg[j])
      {
        if !CsIsEqual(p, a.regState[i], a.reg[i], b.regState[i], b.reg[i]) { return false; }
      }
      if !FlagsEqual(p, a.flagState, a.flag, b.flagState, b.flag) { return false; }
      if |a.retStack| != |b.retStack| { return false; }
      if a.stack.Length < b.stack.Length {
        r := StackIsEqual(p, a, b);
      } else {
        r := StackIsEqual(p, b, a);
      }
    }

    static method StackIsEqual(p: bool, lo: EmuState, hi: EmuState) returns (r: bool)
      requires lo.Valid() && hi.Valid() && lo.stack.Length <= hi.stack.Length
      ensures r == StacksEqual(p, lo.Snap(), hi.Snap())
    {
      var diff := hi.stack.Length - lo.stack.Length;
      for i := 0 to diff
        invariant forall j :: 0 <= j < i ==> !IsStatic(hi.stackState[j])
      {
        if IsStatic(hi.stackState[i]) {
          assert IsStatic(hi.Snap().ss[i]);
          return false;
        }
      }
      for i := 0 to lo.stack.Length
        invariant forall j :: 0 <= j < i ==>
          CsIsEqual(p, lo.stackState[j], lo.stack[j], hi.stackState[j + diff], hi.stack[j + diff])
      {
        if !CsIsEqual(p, lo.stackState[i], lo.stack[i], hi.stackState[i + diff], hi.stack[i + diff]) {
          assert !CsIsEqual(p, lo.Snap().ss[i], lo.Snap().stack[i], hi.Snap().ss[i + diff], hi.Snap().stack[i + diff]);
          return false;
        }
      }
      return true;
    }

    // ----- blocks

    /** Index of the block with this key, allocating an empty one when there is none. */
    method GetCaptureBB(f: Word, esID: nat) returns (ok: bool, k: nat)
      requires Objects() && KeysUnique(capBB) && |trails| == |capBB|
      modifies this`capBB, this`trails
      ensures Objects() && es.Snap() == old(es.Snap()) && TheShape() == old(TheShape())
      ensures KeysUnique(capBB) && |trails| == |capBB| && old(trails) <= trails
      ensures ok ==> k < |capBB| && capBB[k].addr == f && capBB[k].esID == esID
      ensures capBB == old(capBB) ||
        (ok && k == |old(capBB)| && capBB == old(capBB) + [CBB(f, esID, 0, 0, Open, false)])
      ensures !ok ==> |capBB| >= capBBCapacity
    {
      k := 0;
      while k < |capBB|
        invariant 0 <= k <= |capBB|
        invariant forall j :: 0 <= j < k ==> capBB[j].addr != f || capBB[j].esID != esID
        modifies {}
      {
        if capBB[k].addr == f && capBB[k].esID == esID { return true, k; }
        k := k + 1;
      }
      if |capBB| >= capBBCapacity { return false, 0; }
      capBB := capBB + [CBB(f, esID, 0, 0, Open, false)];
      ghost var dummy := es.Snap();
      trails := trails + [TrailAt(dummy, f)];
      ok := true;
    }

    method PushCaptureBB(k: nat) returns (ok: bool)
      requires Objects()
      modifies this`capStack
      ensures Objects() && es.Snap() == old(es.Snap()) && TheShape() == old(TheShape())
      ensures ok ==> capStack == old(capStack) + [k]
      ensures !ok ==> capStack == old(capStack) && |capStack| >= CAPTURESTACK_LEN
    {
      if |capStack| >= CAPTURESTACK_LEN { return false; }
      capStack := capStack + [k];
      ok := true;
    }

    /** The block on top of the stack ends here; no block is current any more. */
    method PopCaptureBB(e: End, prefer: bool)
      requires Objects() && capStack != [] && capStack[|capStack| - 1] < |capBB|
      modifies this`capStack, this`currentCapBB, this`capBB
      ensures Objects() && es.Snap() == old(es.Snap()) && TheShape() == old(TheShape())
      ensures TheBook() == Ended(old(TheBook()), old(capStack[|capStack| - 1]), e, prefer)
    {
      var k := capStack[|capStack| - 1];
      currentCapBB, capStack := None, capStack[..|capStack| - 1];
      capBB := capBB[k := capBB[k].(end := e, preferBranch := prefer)];
    }

    method SetSuccessors(k: nat, e: End)
      requires Objects() && k < |capBB|
      modifies this`capBB
      ensures Objects() && es.Snap() == old(es.Snap()) && TheShape() == old(TheShape())
      ensures capBB == old(capBB)[k := old(capBB)[k].(end := e)]
    {
      capBB := capBB[k := capBB[k].(end := e)];
    }

    /** Append captured instructions to the current block. */
    method Capture(instrs: seq<Instr>) returns (ok: bool)
      requires Objects() && currentCapBB.Some? && currentCapBB.value < |capBB| && currentCapBB.value < |trails|
      modifies this`capInstr, this`capBB
      ensures Objects() && es.Snap() == old(es.Snap()) && TheShape() == old(TheShape())
      ensures ok <==> |old(capInstr)| + |instrs| <= capInstrCapacity || instrs == []
      ensures ok ==> var k := currentCapBB.value; TheBook() == Captured(old(TheBook()), k, instrs, trails[k])
    {
      assert trails == trails[currentCapBB.value := trails[currentCapBB.value]];
      if instrs == [] {
        assert capBB == capBB[currentCapBB.value := capBB[currentCapBB.value]];
        return true;
      }
      if |capInstr| + |instrs| > capInstrCapacity { return false; }
      var k := currentCapBB.value;
      var bb := capBB[k];
      if bb.count == 0 { bb := bb.(first := |capInstr|); }
      capInstr := capInstr + instrs;
      capBB := capBB[k := bb.(count := bb.count + |instrs|)];
      ok := true;
    }

    // ----- emulation

    /** The current block and where its emulation stands. */
    ghost predicate At(addr: Word)
      reads this, es.Repr(), SavedRepr()
    {
      && Valid() && currentCapBB.Some?
      && trails[currentCapBB.value].es == es.Snap() && trails[currentCapBB.value].addr == addr
    }

    /** An instruction that stays in the block is emulated and its code captured. */
    method StepInBlock(addr: Word, rd: Word -> Word) returns (e: Option<EngineError>, next: Word)
      requires At(addr) && addr in code && StaysInBlock(es.Snap(), code[addr].i)
      modifies this`capInstr, this`capBB, this`trails, es.Repr()
      ensures e == None ==> At(next) && Grows(old(TheBook()), TheBook()) && currentCapBB == old(currentCapBB)
      ensures e == None ==> es.stackTop == old(es.stackTop)
      ensures e == None ==>
        exists r ::
          && Step(old(es.Snap()), cfg, code[addr].i, Wrap(addr + code[addr].len), rd) == Ok(r) && es.Snap() == r.es
          && next == NextAddr(old(es.Snap()), code[addr].i, Wrap(addr + code[addr].len))
    {
      hide Step, Fits, Refines, FlagsKept, NextAddr, BookOk, Captured, Grows, EState.Valid, Follows, StaysInBlock;
      var d := code[addr];
      var ip := Wrap(addr + d.len);
      var k := currentCapBB.value;
      ghost var b, before, sh := TheBook(), es.Snap(), TheShape();
      CurrentFacts(code, cfg, b, k, sh);
      ghost var p := trails[k];
      assert code[addr] == d;
      next := NextAddress(d.i, ip);
      var r := Emulate(d.i, ip, rd);
      if r.Fail? { return Some(EmulatorError(r.why)), next; }
      ghost var live := FlagsKept(before, p.live, d.i, ip, rd);
      StepFollows(code, cfg, TStep(before, addr, p.live, rd), es.Snap(), next, live, r.value);
      StepKeeps(code, cfg, b, k, sh, rd, es.Snap(), next, live, r.value);
      trails := trails[k := NextTrail(p, rd, es.Snap(), next, live)];
      var ok := Capture(r.value);
      if !ok { return Some(BufferOverflow), next; }
      CapturedTwice(b, k, r.value, p, trails[k]);
      e := None;
    }

    method Emulate(i: Instr, ip: Word, rd: Word -> Word) returns (r: Res<seq<Instr>>)
      requires Objects() && InstrValid(i)
      requires Fits(es.Snap(), TheShape())
      modifies es.Repr()
      ensures Objects() && TheShape() == old(TheShape())
      ensures match Step(old(es.Snap()), cfg, i, ip, rd)
              case Ok(s) => r == Ok(s.code) && es.Snap() == s.es && Fits(es.Snap(), TheShape())
              case Fail(why) => r == Fail(why)
    {
      hide Step;
      r := es.ProcessInstr(i, ip, rd, cfg);
    }

    method NextAddress(i: Instr, ip: Word) returns (next: Word)
      requires es.Valid()
      ensures next == NextAddr(es.Snap(), i, ip)
    {
      var exit: Word := 0;
      match i {
        case Jmp(t) => exit := t;
        case Jcc(c, t) => exit := if EmuTaken(c, es.flag) then t else ip;
        case _ =>
      }
      next := if exit != 0 then exit else ip;
    }

    /** The state is saved once for both successors of a jump, which are looked up or allocated. */
    method SuccessorBlocks(target: Word, ip: Word) returns (ok: bool, id: nat, br: nat, ft: nat)
      requires Objects() && (forall i :: 0 <= i < |saved| ==> Fits(saved[i], TheShape()))
      requires KeysUnique(capBB) && |trails| == |capBB|
      modifies this`capBB, this`trails, this`savedState, this`saved
      ensures ok ==> es.Snap() == old(es.Snap()) && TheShape() == old(TheShape())
      ensures ok ==> Objects() && (forall i :: 0 <= i < |saved| ==> Fits(saved[i], TheShape()))
      ensures ok ==> KeysUnique(capBB) && |trails| == |capBB| && old(capBB) <= capBB && old(saved) <= saved
      ensures ok ==> forall j :: 0 <= j < |old(trails)| ==> trails[j] == old(trails)[j]
      ensures ok ==> id < |saved| && Refines(es.Snap(), saved[id])
      ensures ok ==> br < |capBB| && capBB[br].addr == target && capBB[br].esID == id
      ensures ok ==> ft < |capBB| && capBB[ft].addr == ip && capBB[ft].esID == id
      ensures ok ==> forall j :: |old(capBB)| <= j < |capBB| ==>
        OneOf(j, br, ft) && capBB[j] == CBB(capBB[j].addr, id, 0, 0, Open, false)
    {
      hide Objects, SavedRepr, TheShape, TheBook, EmuState.Snap, EmuState.Valid, EmuState.Repr;
      hide KeysUnique, Fits, Refines, EsIsEqual, Clone, EState.Valid;
      br, ft := 0, 0;
      ok, id := SaveEmuState();
      if !ok { return; }
      ghost var bbs0 := capBB;
      ok, ft := GetCaptureBB(ip, id);
      if !ok { return; }
      ghost var bbs1 := capBB;
      ok, br := GetCaptureBB(target, id);
      if !ok { return; }
      AtMostTwo(bbs0, bbs1, capBB, CBB(ip, id, 0, 0, Open, false), ft, CBB(target, id, 0, 0, Open, false), br);
    }

    /** The current block ends: both successors are put on the stack, the one that jumps backwards on top. */
    method Fork(k: nat, c: Cond, target: Word, ip: Word) returns (ok: bool, id: nat, first: nat, second: nat)
      requires Objects() && (forall i :: 0 <= i < |saved| ==> Fits(saved[i], TheShape()))
      requires KeysUnique(capBB) && |trails| == |capBB|
      requires k < |capBB| && capStack != [] && capStack[|capStack| - 1] == k
      modifies this`capBB, this`trails, this`capStack, this`currentCapBB, this`savedState, this`saved
      ensures ok ==> Objects() && (forall i :: 0 <= i < |saved| ==> Fits(saved[i], TheShape()))
      ensures ok ==> es.Snap() == old(es.Snap()) && TheShape() == old(TheShape())
      ensures ok ==> KeysUnique(capBB) && id < |saved| && Refines(es.Snap(), saved[id])
      ensures ok ==> k < |capBB| && capBB[k].end.Branches? && capBB[k].end.cond == CapturedCond(c)
      ensures ok ==> Branched(old(TheBook()), TheBook(), k, capBB[k].end, id, first, second)
      ensures ok ==> capBB[capBB[k].end.branch].addr == target && capBB[capBB[k].end.fallThrough].addr == ip
      ensures ok ==> capBB[k].preferBranch == (target < ip)
      ensures ok ==> second == if target < ip then capBB[k].end.branch else capBB[k].end.fallThrough
    {
      hide Objects, SavedRepr, TheShape, EmuState.Snap, EmuState.Valid, EmuState.Repr;
      hide KeysUnique, Fits, Refines, CapturedCond, EState.Valid;
      var prefer := target < ip;
      PopCaptureBB(Branches(CapturedCond(c), 0, 0), prefer);
      SameKeys(old(capBB), capBB, k);
      var br, ft;
      first, second := 0, 0;
      ok, id, br, ft := SuccessorBlocks(target, ip);
      if !ok { return; }
      ghost var grown := capBB;
      SetSuccessors(k, Branches(CapturedCond(c), br, ft));
      SameKeys(grown, capBB, k);
      first, second := if prefer then ft else br, if prefer then br else ft;
      ok := PushCaptureBB(first);
      if !ok { return; }
      ok := PushCaptureBB(second);
      if !ok { return; }
      IsBranched(old(TheBook()), TheBook(), k, prefer, grown, Branches(CapturedCond(c), br, ft), id, first, second);
    }

    /** A jump whose direction is unknown ends the block. */
    method CaptureJcc(addr: Word, c: Cond, target: Word, ip: Word) returns (ok: bool)
      requires At(addr) && addr in code && code[addr].i == Jcc(c, target) && ip == Wrap(addr + code[addr].len)
      requires DynamicJump(es.Snap(), c)
      modifies this`capBB, this`trails, this`capStack, this`currentCapBB, this`savedState, this`saved
      ensures ok ==> Valid() && currentCapBB == None && Grows(old(TheBook()), TheBook())
      ensures ok ==>
        var bb := capBB[old(currentCapBB.value)];
        && bb.end.Branches? && bb.preferBranch == (target < ip)
        && capStack != [] && capStack[|capStack| - 1] == if target < ip then bb.end.branch else bb.end.fallThrough
    {
      hide BookOk, KeysUnique, Fits, Refines, DynamicJump, CapturedCond, Grows, EState.Valid, SavedRepr, EmuState.Snap;
      hide TheShape;
      ghost var b, sh := TheBook(), TheShape();
      var k := currentCapBB.value;
      assert BookOk(code, cfg, b, sh) && b.cur == Some(k);
      CurrentFacts(code, cfg, b, k, sh);
      var id, first, second;
      ok, id, first, second := Fork(k, c, target, ip);
      if !ok { return; }
      BranchCloses(code, cfg, b, TheBook(), k, sh, id, first, second);
    }

    /** The rewritten function returns: this path is finished. */
    method FinishReturn(addr: Word) returns (ok: bool)
      requires At(addr) && addr in code && code[addr].i == Ret
      modifies this`capInstr, this`capBB, this`capStack, this`currentCapBB, es.Repr()
      ensures ok ==> Valid() && currentCapBB == None && Grows(old(TheBook()), TheBook())
      ensures ok ==> es.stackTop == old(es.stackTop) && saved == old(saved)
      ensures ok ==> capStack == old(capStack)[..|old(capStack)| - 1]
      ensures ok ==> capBB[old(currentCapBB.value)].end == Returns
    {
      hide BookOk, KeysUnique, Fits, StepRet, Refines, Grows, EState.Valid, Captured;
      ghost var b, sh := TheBook(), TheShape();
      var k := currentCapBB.value;
      CurrentFacts(code, cfg, b, k, sh);
      var instrs := ReturnCode();
      ok := Capture(instrs);
      if !ok { return; }
      CapturedFacts(b, k, instrs, trails[k]);
      PopCaptureBB(Returns, capBB[k].preferBranch);
      ReturnCloses(code, cfg, b, k, sh);
      assert TheBook() == Returned(cfg, b, k);
    }

    method ReturnCode() returns (instrs: seq<Instr>)
      requires Objects()
      modifies es.Repr()
      ensures Objects() && TheShape() == old(TheShape()) && instrs == StepRet(old(es.Snap()), cfg).code
    {
      instrs := es.ProcessReturn(cfg);
    }

    /** The emulator state becomes a full-size copy of a saved one. */
    method RestoreEmuState(id: nat)
      requires Objects() && id < |saved| && Fits(saved[id], TheShape())
      modifies es.Repr()
      ensures Objects() && TheShape() == old(TheShape())
      ensures STACK_SIZE <= saved[id].Top() && saved[id].Top() - saved[id].accessed <= STACK_SIZE
      ensures es.Snap() == CopyState(STACK_SIZE, saved[id])
      ensures Fits(es.Snap(), TheShape()) && Refines(saved[id], es.Snap())
      ensures Fits(saved[id], TheShape())
    {
      hide Refines, CopyState;
      es.CopyFrom(savedState[id]);
      CopyRefines(STACK_SIZE, saved[id]);
    }

    /** Drop finished blocks from the stack, restart at the first open one. */
    method OpenNext() returns (next: Option<Word>)
      requires Valid() && currentCapBB == None
      modifies this`capStack, this`currentCapBB, this`trails, es.Repr()
      ensures Valid() && Grows(old(TheBook()), TheBook()) && es.stackTop == old(es.stackTop)
      ensures next == None ==> currentCapBB == None && Complete(TheBook())
      ensures next.Some? ==> currentCapBB.Some? && At(next.value)
    {
      hide BookOk, Fits, Refines, EState.Valid, EmuState.Snap, EmuState.Valid;
      while capStack != []
        invariant Valid() && currentCapBB == None && Grows(old(TheBook()), TheBook())
        invariant TheShape() == old(TheShape())
        decreases |capStack|
        modifies this`capStack
      {
        StackFacts(code, cfg, TheBook(), TheShape());
        if capBB[capStack[|capStack| - 1]].end == Open { break; }
        DropsFinished(code, cfg, TheBook(), TheShape());
        DropCaptureBB();
      }
      if capStack == [] {
        AllClosed(code, cfg, TheBook(), TheShape());
        return None;
      }
      StackFacts(code, cfg, TheBook(), TheShape());
      Reopen(capStack[|capStack| - 1]);
      next := Some(capBB[capStack[|capStack| - 1]].addr);
    }

    method DropCaptureBB()
      requires Objects() && capStack != []
      modifies this`capStack
      ensures Objects() && es.Snap() == old(es.Snap()) && TheShape() == old(TheShape())
      ensures capStack == old(capStack)[..|old(capStack)| - 1]
    {
      capStack := capStack[..|capStack| - 1];
    }

    /** Continue in an open block with the state saved for it. */
    method Reopen(k: nat)
      requires Valid() && currentCapBB == None && capStack != [] && capStack[|capStack| - 1] == k
      requires k < |capBB| == |trails| && capBB[k].end == Open && capBB[k].esID < |saved|
      requires Fits(saved[capBB[k].esID], TheShape())
      modifies this`currentCapBB, this`trails, es.Repr()
      ensures At(capBB[k].addr) && TheShape() == old(TheShape()) && Grows(old(TheBook()), TheBook())
    {
      hide BookOk, Fits, Refines, EState.Valid, CopyState, EmuState.Snap, EmuState.Valid;
      ghost var b := TheBook();
      RestoreEmuState(capBB[k].esID);
      OpensNext(code, cfg, b, k, es.Snap(), TheShape());
      Enter(k);
    }

    // ----- the whole run

    /** Forget everything captured before. */
    method ResetCapturing()
      requires Objects()
      modifies this
      ensures Objects() && es.Snap() == old(es.Snap()) && TheShape() == old(TheShape())
      ensures TheBook() == Book([], [], None, [], [], [])
    {
      capInstr, capBB, currentCapBB, capStack, savedState, saved, trails := [], [], None, [], [], [], [];
    }

    method Load(par: seq<Word>, parState: seq<CState>)
      requires Objects() && |par| == |parState| <= 6
      modifies es.Repr()
      ensures Objects() && TheShape() == old(TheShape()) && STACK_SIZE <= es.stackTop < M64
      ensures es.Snap() == EntryState(es.stackTop - STACK_SIZE, par, parState)
      ensures Fits(es.Snap(), TheShape())
    {
      LoadRegisters(par, parState);
    }

    method LoadRegisters(par: seq<Word>, parState: seq<CState>)
      requires es.Valid() && es.stack.Length == STACK_SIZE && es.stackTop < M64 && |par| == |parState| <= 6
      modifies es.Repr()
      ensures es.Valid() && es.stackStart == old(es.stackStart)
      ensures es.Snap() == EntryState(es.stackStart, par, parState)
    {
      hide Initial;
      es.Reset();
      ghost var fresh_ := es.Snap();
      for i := 0 to |par|
        invariant es.Valid() && es.Snap() == Loaded(fresh_, par[..i], parState[..i])
        modifies es.reg, es.regState
      {
        assert par[..i + 1][..i] == par[..i] && parState[..i + 1][..i] == parState[..i];
        es.SetReg(PAR_REG[i], par[i], parState[i]);
      }
      assert par[..|par|] == par && parState[..|par|] == parState;
      es.SetReg(RSP, es.stackStart + STACK_SIZE, StackRel);
    }

    /** The first block starts at the configured function, in the state with the parameters loaded. */
    method Begin(f: Word, par: seq<Word>, parState: seq<CState>) returns (ok: bool)
      requires Objects() && CodeValid(code) && |par| == |parState| <= 6
      modifies this, es.Repr()
      ensures ok ==> Valid() && At(f) && es.stackTop == old(es.stackTop) && STACK_SIZE <= es.stackTop < M64
      ensures ok ==> Rooted(TheBook(), f, EntryState(es.stackTop - STACK_SIZE, par, parState))
    {
      hide CopyState, Grows, EntryState, Fits, Clone, Refines, Objects, BookOk, EmuState.Snap, EmuState.Valid;
      hide EState.Valid, SavedRepr;
      ResetCapturing();
      Load(par, parState);
      ghost var entry := es.Snap();
      CloneFits(entry, 1, TheShape());
      CloneRefines(entry, 1);
      var id, k;
      ok, id := SaveEmuState();
      if !ok { return; }
      ok, k := GetCaptureBB(f, id);
      if !ok { return; }
      ok := PushCaptureBB(k);
      if !ok { return; }
      Enter(k);
      if cfg.hints {
        ok := Capture([HintCall]);
        if !ok { return; }
      }
      FirstBlock(code, cfg, TheBook(), TheShape());
    }

    method Enter(k: nat)
      requires Objects() && k < |trails| && k < |capBB|
      modifies this`currentCapBB, this`trails
      ensures Objects() && es.Snap() == old(es.Snap()) && TheShape() == old(TheShape())
      ensures currentCapBB == Some(k)
      ensures trails == old(trails)[k := TrailAt(es.Snap(), capBB[k].addr)]
    {
      currentCapBB := Some(k);
      trails := trails[k := TrailAt(es.Snap(), capBB[k].addr)];
    }

    /** Emulate all paths from f; world is the memory content at each emulated instruction. */
    method EmulateAndCapture(f: Word, par: seq<Word>, parState: seq<CState>, world: nat -> (Word -> Word), bound: nat)
      returns (e: Option<EngineError>)
      requires Objects() && CodeValid(code) && |par| == |parState|
      modifies this, es.Repr()
      ensures e == None ==> |par| <= 6 && Valid() && Complete(TheBook())
      ensures e == None ==> es.stackTop == old(es.stackTop) && STACK_SIZE <= es.stackTop < M64
      ensures e == None ==> Rooted(TheBook(), f, EntryState(es.stackTop - STACK_SIZE, par, parState))
    {
      hide At, Valid, Objects, SavedRepr, TheBook, TheShape, Rooted, Grows, EntryState, Complete;
      if |par| > 6 { return Some(TooManyParameters); }
      var ok := Begin(f, par, parState);
      if !ok { return Some(BufferOverflow); }
      ghost var entry := EntryState(es.stackTop - STACK_SIZE, par, parState);
      var addr, n := f, 0;
      while true
        invariant Valid() && es.stackTop == old(es.stackTop) && Rooted(TheBook(), f, entry)
        invariant currentCapBB.Some? ==> At(addr)
        decreases bound - n
      {
        ghost var b := TheBook();
        if currentCapBB == None {
          var next := OpenNext();
          GrowsRooted(b, TheBook(), f, entry);
          if next == None { return None; }
          addr := next.value;
        }
        if n >= bound { return Some(StillRunning); }
        if addr !in code { return Some(DecodeError); }
        b := TheBook();
        e, addr := Advance(addr, world(n));
        if e.Some? { return; }
        GrowsRooted(b, TheBook(), f, entry);
        n := n + 1;
      }
    }

    /** Emulate one instruction of the current block. */
    method Advance(addr: Word, rd: Word -> Word) returns (e: Option<EngineError>, next: Word)
      requires At(addr) && addr in code
      modifies this`capInstr, this`capBB, this`trails, this`capStack, this`currentCapBB, this`savedState, this`saved,
               es.Repr()
      ensures e == None ==> Valid() && es.stackTop == old(es.stackTop) && Grows(old(TheBook()), TheBook())
      ensures e == None && currentCapBB.Some? ==> At(next)
    {
      hide BookOk, Grows, Fits, Step, EmuState.Snap, EState.Valid;
      var d := code[addr];
      e, next := None, addr;
      if d.i.Ret? {
        var ok := FinishReturn(addr);
        e := if ok then None else Some(BufferOverflow);
      } else if d.i.Jcc? && IsDynamic(d.i.cond) {
        var ok := CaptureJcc(addr, d.i.cond, d.i.target, Wrap(addr + d.len));
        e := if ok then None else Some(BufferOverflow);
      } else {
        e, next := StepInBlock(addr, rd);
      }
    }

    predicate IsDynamic(c: Cond)
      requires es.Valid()
      reads es.Repr()
      ensures IsDynamic(c) <==> DynamicJump(es.Snap(), c)
    {
      exists f <- Consults(c) :: StateOf(es.flagState, f) == Dyn
    }
  }
}
