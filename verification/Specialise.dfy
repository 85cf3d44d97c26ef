/** Whole runs: the captured blocks do what the original function does. */
module Specialise {
  import opened Machine
  import opened Emulator
  import opened Relation
  import opened Access
  import opened Simulation
  import opened SavedState
  import opened Ledger
  import opened EmuObject
  import opened Engine

  // ----- the original program

  datatype Conf = At(pc: Word, m: Mach) | Halted(m: Mach) | Stuck

  /** One instruction; the return of the function ends the run. */
  function OrigStep(code: Code, c: Conf): Conf
    requires CodeValid(code) && (c.At? ==> c.m.Valid())
  {
    if !c.At? then c
    else if c.pc !in code then Stuck
    else
      var d := code[c.pc];
      var ip := Wrap(c.pc + d.len);
      match d.i
      case Ret => Halted(c.m)
      case Jmp(t) => At(t, c.m)
      case Jcc(cond, t) => At(if Holds(cond, c.m.flags) then t else ip, c.m)
      case _ => At(ip, Exec(c.m, d.i, ip))
  }

  function OrigRun(code: Code, c: Conf, n: nat): (r: Conf)
    requires CodeValid(code) && (c.At? ==> c.m.Valid())
    ensures r.At? ==> r.m.Valid()
  {
    if n == 0 then c else OrigStep(code, OrigRun(code, c, n - 1))
  }

  lemma {:induction false} OrigRunAdd(code: Code, c: Conf, n: nat, k: nat)
    requires CodeValid(code) && (c.At? ==> c.m.Valid())
    ensures OrigRun(code, c, n + k) == OrigRun(code, OrigRun(code, c, n), k)
  {
    if k > 0 { OrigRunAdd(code, c, n, k - 1); }
  }

  lemma {:induction false} HaltedStays(code: Code, m: Mach, k: nat)
    requires CodeValid(code)
    ensures OrigRun(code, Halted(m), k) == Halted(m)
  {
    if k > 0 { HaltedStays(code, m, k - 1); }
  }

  // ----- the residual program

  datatype RConf = InBlock(k: nat, m: Mach) | Returned(m: Mach) | Broken

  /** One captured block with its jump. */
  function ResStep(b: Book, c: RConf): RConf
    requires c.InBlock? ==> c.m.Valid()
  {
    if !c.InBlock? then c
    else if c.k >= |b.bbs| || !SliceOk(b, c.k) || !AllValid(Slice(b, c.k)) then Broken
    else
      var m := ExecAll(c.m, Slice(b, c.k));
      match b.bbs[c.k].end
      case Open => Broken
      case Returns => Returned(m)
      case Branches(cond, br, ft) => InBlock(if Holds(cond, m.flags) then br else ft, m)
  }

  function ResRun(b: Book, c: RConf, n: nat): (r: RConf)
    requires c.InBlock? ==> c.m.Valid()
    ensures r.InBlock? ==> r.m.Valid()
  {
    if n == 0 then c else ResStep(b, ResRun(b, c, n - 1))
  }

  lemma {:induction false} ResRunFirst(b: Book, c: RConf, n: nat)
    requires n > 0 && (c.InBlock? ==> c.m.Valid())
    ensures ResRun(b, c, n) == ResRun(b, ResStep(b, c), n - 1)
  {
    if n > 1 { ResRunFirst(b, c, n - 1); }
  }

  lemma {:induction false} ReturnedStays(b: Book, m: Mach, n: nat)
    ensures ResRun(b, Returned(m), n) == Returned(m)
  {
    if n > 0 { ReturnedStays(b, m, n - 1); }
  }

  // ----- conditions on captured blocks

  /** Flags a condition depends on. */
  function Needs(c: Cond): set<Flag> {
    match c
    case CO => {OF}
    case CNO => {OF}
    case CC => {CF}
    case CNC => {CF}
    case CZ => {ZF}
    case CNZ => {ZF}
    case CBE => {CF, ZF}
    case CA => {CF, ZF}
    case CS => {SF}
    case CNS => {SF}
    case CL => {SF, OF}
    case CGE => {SF, OF}
    case CLE => {ZF, SF, OF}
    case CG => {ZF, SF, OF}
  }

  lemma HoldsAgrees(c: Cond, f: Flags, g: Flags)
    requires forall x <- Needs(c) :: FlagVal(f, x) == FlagVal(g, x)
    ensures Holds(c, f) == Holds(c, g)
  {
    assert CF in Needs(c) ==> FlagVal(f, CF) == FlagVal(g, CF);
    assert ZF in Needs(c) ==> FlagVal(f, ZF) == FlagVal(g, ZF);
    assert SF in Needs(c) ==> FlagVal(f, SF) == FlagVal(g, SF);
    assert OF in Needs(c) ==> FlagVal(f, OF) == FlagVal(g, OF);
  }

  /** The emulator takes the direction of the processor. */
  predicate TakenRight(c: Cond, f: Flags) { EmuTaken(c, f) == Holds(c, f) }

  /** The captured jump goes where the original one goes. */
  predicate CapturedRight(c: Cond, f: Flags) { Holds(CapturedCond(c), f) == Holds(c, f) }

  lemma DifferenceFlags(d: Word, s: Word, f: Flags)
    ensures var g := ResultFlags(Sub, d, s, f);
            && g.cf == (d < s) && g.zf == (d == s)
            && g.of == !SignedFits(Signed(d) - Signed(s))
            && (g.sf != g.of <==> Signed(d) < Signed(s))
            && (g.sf <==> if SignedFits(Signed(d) - Signed(s)) then Signed(d) < Signed(s) else Signed(d) >= Signed(s))
  {}

  /** After a comparison of known operands the emulator takes the right direction of a jump unless it is a JLE or JG
      and the signed difference overflows. */
  lemma TakenExact(c: Cond, d: Word, s: Word, f: Flags)
    ensures EmuTaken(c, SubFlags(d, s)) == Holds(c, ResultFlags(Sub, d, s, f)) <==>
            (c in {CLE, CG} ==> SignedFits(Signed(d) - Signed(s)))
  {
    SubFlagsCorrect(d, s, f);
    DifferenceFlags(d, s, f);
    hide SubFlags, ResultFlags;
  }

  /** The signed order of the result and zero is the unsigned one that JBE and JA ask for: the operands of a
      difference have one sign, those of a sum too unless it is zero, and the result of another operation is not
      negative. */
  predicate OrdersAgree(op: AluOp, d: Word, s: Word) {
    match op
    case Sub => (d >= M63) == (s >= M63)
    case Add => (d >= M63) == (s >= M63) || Wrap(d + s) == 0
    case _ => Result(op, d, s) < M63
  }

  /** After a comparison (whose flags are those of a difference) or an operation that sets the flags, the captured jump
      goes the original way unless it is a JBE or JA and the two orders differ. */
  lemma CapturedExact(c: Cond, op: AluOp, d: Word, s: Word, f: Flags)
    requires op != Imul
    ensures CapturedRight(c, ResultFlags(op, d, s, f)) <==> (c in {CBE, CA} ==> OrdersAgree(op, d, s))
  {
    hide AndWord, OrWord, XorWord;
    if op == Sub { DifferenceFlags(d, s, f); }
    if op == Add { SumOrder(d, s, f); }
  }

  lemma SumOrder(d: Word, s: Word, f: Flags)
    ensures var g := ResultFlags(Add, d, s, f);
            g.cf == (d + s >= M64) && g.zf == (Wrap(d + s) == 0) && (g.sf != g.of <==> Signed(d) + Signed(s) < 0)
  {}

  /** cmp -2^63, 1: less or equal, but the emulator goes on behind a JLE. */
  lemma TakenWrong()
    ensures Holds(CLE, ResultFlags(Sub, M63, 1, Flags(false, false, false, false))) && !EmuTaken(CLE, SubFlags(M63, 1))
  {
    TakenExact(CLE, M63, 1, Flags(false, false, false, false));
    hide SubFlags;
  }

  /** cmp 0, 2^63: below, but the jump captured for JBE is not taken. */
  lemma CapturedWrong()
    ensures var f := ResultFlags(Sub, 0, M63, Flags(false, false, false, false));
            Holds(CBE, f) && !Holds(CapturedCond(CBE), f)
  {
    CapturedExact(CBE, Sub, 0, M63, Flags(false, false, false, false));
  }

  /** or -2^63, 0: neither below nor equal, but the jump captured for JBE is taken. */
  lemma CapturedWrongBits()
    ensures var f := ResultFlags(Or, M63, 0, Flags(false, false, false, false));
            !Holds(CBE, f) && Holds(CapturedCond(CBE), f)
  {
    hide OrWord;
    NeutralLaws(M63, 0);
  }

  /** A step inside a block: the capture is exact, a known jump goes the right way. */
  predicate FaithfulStep(code: Code, slots: set<int>, q: TStep) {
    q.addr in code && q.es.Valid() && InstrValid(code[q.addr].i) &&
    match code[q.addr].i
    case Jmp(t) => t != 0
    case Jcc(c, t) => t != 0 && KnownJump(q.es, q.live, c)
    case _ => Faithful(q.es, slots, code[q.addr].i, Wrap(q.addr + code[q.addr].len), q.rd)
  }

  /** The emulator knows the flags the jump tests, and takes the right direction. */
  predicate KnownJump(es: EState, l: Live, c: Cond) {
    && (forall x <- Needs(c) :: IsStatic(StateOf(es.fs, x)) && x in l.known)
    && TakenRight(c, es.flags)
  }

  predicate FaithfulTrail(code: Code, slots: set<int>, p: Trail) {
    forall j :: 0 <= j < |p.steps| ==> FaithfulStep(code, slots, p.steps[j])
  }

  const CALLEE_SAVED: seq<Reg> := [3, 5, 12, 13, 14, 15]

  /** At the return: the stack pointer is back, preserved registers are untouched or restored. */
  predicate FaithfulRet(es: EState) {
    && es.Valid()
    && es.rs[RSP] == StackRel && es.reg[RSP] == Wrap(es.Top())
    && forall r <- CALLEE_SAVED :: es.rs[r] == Dyn
  }

  /** At a jump that ends a block: both programs have the flags that are tested before and after capturing, and
      those that the saved state describes. */
  predicate FaithfulBranch(es: EState, l: Live, c: Cond) {
    Needs(c) <= l.same && Needs(CapturedCond(c)) <= l.same && FullyLive(es, l)
  }

  predicate FaithfulBlock(code: Code, slots: set<int>, b: Book, k: nat)
    requires k < |b.bbs| && k < |b.trails|
  {
    var p := b.trails[k];
    && FaithfulTrail(code, slots, p)
    && match b.bbs[k].end
       case Open => true
       case Returns => FaithfulRet(p.es)
       case Branches(_, _, _) =>
         p.addr in code && code[p.addr].i.Jcc? && FaithfulBranch(p.es, p.live, code[p.addr].i.cond)
  }

  predicate FaithfulBook(code: Code, slots: set<int>, b: Book)
    requires |b.trails| == |b.bbs|
  {
    forall k :: 0 <= k < |b.bbs| ==> FaithfulBlock(code, slots, b, k)
  }

  // ----- one block

  /** The original machine after the steps of a trail. */
  function TrailMach(code: Code, p: Trail, s: Mach): (m: Mach)
    requires s.Valid() && CodeValid(code)
    ensures m.Valid()
    decreases |p.steps|
  {
    if p.steps == [] then s
    else
      var q := p.steps[|p.steps| - 1];
      var m := TrailMach(code, Before(p), s);
      if q.addr in code then Exec(m, code[q.addr].i, Wrap(q.addr + code[q.addr].len)) else m
  }

  /** The original run meets the assumptions of the emulator on memory accesses. */
  predicate SafeTrail(code: Code, p: Trail, fr: Frame, s: Mach)
    requires s.Valid() && CodeValid(code)
    decreases |p.steps|
  {
    p.steps == [] ||
    var q := p.steps[|p.steps| - 1];
    && SafeTrail(code, Before(p), fr, s)
    && (q.addr in code && q.es.Valid() ==>
          Safe(q.es, fr, TrailMach(code, Before(p), s), code[q.addr].i, Wrap(q.addr + code[q.addr].len), q.rd))
  }

  /** The jump behind a block goes the original way. */
  predicate JumpSafe(code: Code, b: Book, k: nat, m: Mach)
    requires k < |b.bbs| && k < |b.trails|
  {
    var a := b.trails[k].addr;
    b.bbs[k].end.Branches? && a in code && code[a].i.Jcc? ==> CapturedRight(code[a].i.cond, m.flags)
  }

  /** The original run meets the assumptions in block k. */
  predicate SafeBlock(code: Code, b: Book, k: nat, fr: Frame, s: Mach)
    requires k < |b.bbs| && k < |b.trails| && s.Valid() && CodeValid(code)
  {
    SafeTrail(code, b.trails[k], fr, s) && JumpSafe(code, b, k, TrailMach(code, b.trails[k], s))
  }

  lemma KnownDirection(es: EState, l: Live, c: Cond, f: Flags, g: Flags)
    requires FlagsLive(es, l, f, g) && KnownJump(es, l, c)
    ensures EmuTaken(c, es.flags) == Holds(c, f)
  {
    HoldsAgrees(c, f, es.flags);
  }

  lemma SameDirection(es: EState, l: Live, c: Cond, f: Flags, g: Flags)
    requires FlagsLive(es, l, f, g) && Needs(c) <= l.same
    ensures Holds(c, f) == Holds(c, g)
  {
    HoldsAgrees(c, f, g);
  }

  /** A step inside a block takes the original program to the next address. */
  lemma NextIsNext(code: Code, slots: set<int>, q: TStep, s: Mach, t: Mach)
    requires CodeValid(code) && FaithfulStep(code, slots, q) && StaysInBlock(q.es, code[q.addr].i) && s.Valid()
    requires FlagsLive(q.es, q.live, s.flags, t.flags)
    ensures var d := code[q.addr];
            var ip := Wrap(q.addr + d.len);
            OrigStep(code, At(q.addr, s)) == At(NextAddr(q.es, d.i, ip), Exec(s, d.i, ip))
  {
    var d := code[q.addr];
    hide Faithful, KnownJump, EmuTaken, Holds, FlagsLive, Exec;
    if d.i.Jcc? { KnownDirection(q.es, q.live, d.i.cond, s.flags, t.flags); }
  }

  /** The relation at the end of a trail. */
  ghost predicate Described(es: EState, l: Live, fr: Frame, s: Mach, t: Mach) {
    es.Valid() && s.Valid() && t.Valid() && StateRel(es, fr, s, t) && FlagsLive(es, l, s.flags, t.flags)
  }

  /** Along a trail the captured code keeps up with the original program. */
  lemma {:induction false} TrailSim(code: Code, cfg: Config, p: Trail, a: Word, init: seq<Instr>, caps: seq<Instr>,
                                    fr: Frame, s: Mach, t: Mach)
    requires CodeValid(code) && Chain(code, cfg, p, a, init, caps) && init in {[], [HintCall]}
    requires s.Valid() && t.Valid() && Described(p.start, StartLive(p.start), fr, s, t)
    requires FaithfulTrail(code, fr.slots, p) && SafeTrail(code, p, fr, s)
    ensures AllValid(caps)
    ensures OrigRun(code, At(a, s), |p.steps|) == At(p.addr, TrailMach(code, p, s))
    ensures Described(p.es, p.live, fr, TrailMach(code, p, s), ExecAll(t, caps))
    decreases |p.steps|
  {
    hide Chain, FaithfulTrail, FaithfulStep, SafeTrail, Follows, CapturedBy, TrailMach, OrigStep, Described, Safe, Exec,
         ExecAll, Before;
    if p.steps == [] {
      TrailStart(code, cfg, p, a, init, caps, fr, s, t);
    } else {
      var q, k := p.steps[|p.steps| - 1], |p.steps| - 1;
      LastStep(code, cfg, p, a, init, caps);
      FaithfulBefore(code, fr.slots, p);
      LastSafe(code, p, fr, s);
      var n := |CapturedBy(code, cfg, q)|;
      var new_, old_ := caps[|caps| - n..], caps[..|caps| - n];
      assert caps == old_ + new_;
      TrailSim(code, cfg, Before(p), a, init, old_, fr, s, t);
      StepSim(code, cfg, q, p.es, p.addr, p.live, new_, fr, TrailMach(code, Before(p), s), ExecAll(t, old_));
      ExecAllAppend(t, old_, new_);
    }
  }

  lemma TrailStart(code: Code, cfg: Config, p: Trail, a: Word, init: seq<Instr>, caps: seq<Instr>, fr: Frame, s: Mach,
                   t: Mach)
    requires CodeValid(code) && Chain(code, cfg, p, a, init, caps) && p.steps == [] && init in {[], [HintCall]}
    requires Described(p.start, StartLive(p.start), fr, s, t)
    ensures AllValid(caps) && p.addr == a && TrailMach(code, p, s) == s
    ensures Described(p.es, p.live, fr, s, ExecAll(t, caps))
  {
    hide StateRel, FlagsLive;
    InitNothing(init, t);
  }

  /** What is known of the last step of a trail. */
  lemma LastStep(code: Code, cfg: Config, p: Trail, a: Word, init: seq<Instr>, caps: seq<Instr>)
    requires Chain(code, cfg, p, a, init, caps) && p.steps != []
    ensures var q, b := p.steps[|p.steps| - 1], Before(p);
            var n := |CapturedBy(code, cfg, q)|;
            && n <= |caps| && Chain(code, cfg, b, a, init, caps[..|caps| - n])
            && b.start == p.start && b.es == q.es && b.addr == q.addr && b.live == q.live && |b.steps| == |p.steps| - 1
            && Follows(code, cfg, q, p.es, p.addr, p.live, caps[|caps| - n..])
  {
    hide Follows, CapturedBy;
  }

  lemma LastSafe(code: Code, p: Trail, fr: Frame, s: Mach)
    requires CodeValid(code) && p.steps != [] && s.Valid() && SafeTrail(code, p, fr, s)
    requires FaithfulStep(code, fr.slots, p.steps[|p.steps| - 1])
    ensures var q, b := p.steps[|p.steps| - 1], Before(p);
            && SafeTrail(code, b, fr, s)
            && q.addr in code && InstrValid(code[q.addr].i) && q.es.Valid()
            && Safe(q.es, fr, TrailMach(code, b, s), code[q.addr].i, Wrap(q.addr + code[q.addr].len), q.rd)
            && TrailMach(code, p, s) == Exec(TrailMach(code, b, s), code[q.addr].i, Wrap(q.addr + code[q.addr].len))
  {
    hide Safe, Exec, Faithful, KnownJump, Before;
  }

  lemma FaithfulBefore(code: Code, slots: set<int>, p: Trail)
    requires p.steps != [] && FaithfulTrail(code, slots, p)
    ensures FaithfulTrail(code, slots, Before(p)) && FaithfulStep(code, slots, p.steps[|p.steps| - 1])
  {
    hide FaithfulStep;
  }

  lemma InitNothing(init: seq<Instr>, t: Mach)
    requires t.Valid() && init in {[], [HintCall]}
    ensures AllValid(init) && ExecAll(t, init) == t
  {
    if init != [] { ExecOne(t, HintCall); }
  }

  lemma StepSim(code: Code, cfg: Config, q: TStep, es: EState, addr: Word, live: Live, new_: seq<Instr>,
                fr: Frame, s: Mach, t: Mach)
    requires CodeValid(code) && Follows(code, cfg, q, es, addr, live, new_) && FaithfulStep(code, fr.slots, q)
    requires Described(q.es, q.live, fr, s, t)
    requires Safe(q.es, fr, s, code[q.addr].i, Wrap(q.addr + code[q.addr].len), q.rd)
    ensures AllValid(new_)
    ensures var d := code[q.addr];
            var s' := Exec(s, d.i, Wrap(q.addr + d.len));
            && OrigStep(code, At(q.addr, s)) == At(addr, s')
            && Described(es, live, fr, s', ExecAll(t, new_))
  {
    hide Safe, FlagsKept, Step, StateRel, FlagsLive, NextAddr, Exec, StaysInBlock;
    var d := code[q.addr];
    var ip := Wrap(q.addr + d.len);
    NextIsNext(code, fr.slots, q, s, t);
    FaithfulInstr(code, fr.slots, q);
    SimStep(q.es, fr, s, t, cfg, d.i, ip, q.rd, q.live);
  }

  lemma FaithfulInstr(code: Code, slots: set<int>, q: TStep)
    requires FaithfulStep(code, slots, q)
    ensures Faithful(q.es, slots, code[q.addr].i, Wrap(q.addr + code[q.addr].len), q.rd)
  {
    hide AddressExact, LoadExact, StoreExact, AnchorExact, OpValue, ResultState, Preloads, Fold, KnownJump;
  }

  // ----- one block

  /** The original and the residual machine, both about to execute block k. */
  ghost predicate Ready(b: Book, k: nat, fr: Frame, s: Mach, t: Mach) {
    && k < |b.bbs| && k < |b.trails| && s.Valid() && t.Valid()
    && Described(b.trails[k].start, StartLive(b.trails[k].start), fr, s, t)
  }

  /** Every return of the rewritten function has initialised the result. */
  predicate GivesResult(cfg: Config, b: Book)
    requires |b.trails| == |b.bbs|
  {
    !cfg.hasReturnFP &&
    forall k :: 0 <= k < |b.bbs| && b.bbs[k].end.Returns? ==> b.trails[k].es.Valid() && b.trails[k].es.rs[RAX] != Dead
  }

  /** What the caller of the function can observe: the result if there is one, the stack pointer, the preserved
      registers and all memory above the private window of the stack and outside it. */
  ghost predicate SameOutcome(result: bool, fr: Frame, top: int, s: Mach, t: Mach) {
    && s.Valid() && t.Valid()
    && (result ==> t.reg[RAX] == s.reg[RAX])
    && t.reg[RSP] == s.reg[RSP] == Wrap(top + fr.delta)
    && (forall r <- CALLEE_SAVED :: t.reg[r] == s.reg[r])
    && (forall a: Word :: !(top + fr.delta - fr.size <= a < top + fr.delta) ==> t.mem(a) == s.mem(a))
  }

  lemma ReturnSim(cfg: Config, result: bool, es: EState, fr: Frame, s: Mach, t: Mach)
    requires es.Valid() && StateRel(es, fr, s, t) && FaithfulRet(es)
    requires result ==> !cfg.hasReturnFP && es.rs[RAX] != Dead
    ensures AllValid(StepRet(es, cfg).code)
    ensures SameOutcome(result, fr, es.Top(), s, ExecAll(t, StepRet(es, cfg).code))
  {
    hide StepRet, ExecAll, StackRelBytes, SlotRel, Wrap;
    var code := StepRet(es, cfg).code;
    ReturnCode(cfg, es, t);
    var t' := ExecAll(t, code);
    forall r: Reg ensures ValRel(es.rs[r], es.reg[r], s.reg[r], t.reg[r], fr.delta) {}
    WrapAdd(es.Top(), fr.delta);
    forall r | r in CALLEE_SAVED ensures t'.reg[r] == s.reg[r] {
      assert es.rs[r] == Dyn;
      assert ValRel(es.rs[r], es.reg[r], s.reg[r], t.reg[r], fr.delta);
    }
    assert ValRel(es.rs[RAX], es.reg[RAX], s.reg[RAX], t.reg[RAX], fr.delta);
    assert ValRel(es.rs[RSP], es.reg[RSP], s.reg[RSP], t.reg[RSP], fr.delta);
    forall a: Word | !(es.Top() + fr.delta - fr.size <= a < es.Top() + fr.delta) ensures t'.mem(a) == s.mem(a) {
      assert !InWindow(es, fr, a);
    }
  }

  /** The captured return at most loads the known result. */
  lemma ReturnCode(cfg: Config, es: EState, t: Mach)
    requires es.Valid() && t.Valid()
    ensures AllValid(StepRet(es, cfg).code)
    ensures ExecAll(t, StepRet(es, cfg).code) ==
            if !cfg.hasReturnFP && IsStatic(es.rs[RAX]) then t.(reg := t.reg[RAX := es.reg[RAX]]) else t
  {
    hide Exec, ExecAll, Kill;
    var hint := if cfg.hints then [HintRet] else [];
    var load := if !cfg.hasReturnFP && IsStatic(es.rs[RAX]) then [Mov(R(RAX), I64(es.reg[RAX]))] else [];
    assert StepRet(es, cfg).code == hint + load + [Ret] by { assert Kill(es.rs)[RAX] == es.rs[RAX]; }
    HintNothing(cfg.hints, t);
    LoadResult(t, load, es.reg[RAX]);
    var t' := ExecAll(t, load);
    ExecOne(t', Ret);
    RetNothing(t');
    ExecAllAppend(t, load, [Ret]);
    ExecAllAppend(t, hint, load + [Ret]);
    assert hint + (load + [Ret]) == hint + load + [Ret];
  }

  lemma HintNothing(hints: bool, t: Mach)
    requires t.Valid()
    ensures var hint := if hints then [HintRet] else []; AllValid(hint) && ExecAll(t, hint) == t
  {
    if hints { ExecOne(t, HintRet); }
  }

  lemma LoadResult(t: Mach, load: seq<Instr>, v: Word)
    requires t.Valid() && (load == [] || load == [Mov(R(RAX), I64(v))])
    ensures AllValid(load) && ExecAll(t, load) == if load == [] then t else t.(reg := t.reg[RAX := v])
  {
    if load != [] { ExecOne(t, load[0]); }
  }

  lemma RetNothing(t: Mach)
    requires t.Valid()
    ensures Exec(t, Ret, 0) == t
  {}

  /** Execution of one block, original against residual. */
  ghost predicate BlockKept(code: Code, cfg: Config, b: Book, k: nat, sh: Shape, fr: Frame, s: Mach, t: Mach)
    requires CodeValid(code) && k < |b.bbs| == |b.trails| && s.Valid() && t.Valid()
  {
    var p := b.trails[k];
    var o := OrigRun(code, At(b.bbs[k].addr, s), |p.steps| + 1);
    match ResStep(b, InBlock(k, t))
    case Broken => false
    case Returned(t') => o.Halted? && SameOutcome(GivesResult(cfg, b), fr, sh.top, o.m, t')
    case InBlock(k', t') =>
      Ready(b, k', fr, TrailMach(code, p, s), t') && o == At(b.bbs[k'].addr, TrailMach(code, p, s))
      && k' == NextBlock(code, b, k, s)
  }

  /** The block the original program reaches next. */
  function NextBlock(code: Code, b: Book, k: nat, s: Mach): nat
    requires CodeValid(code) && k < |b.bbs| && k < |b.trails| && s.Valid()
  {
    var p := b.trails[k];
    if !b.bbs[k].end.Branches? || p.addr !in code || !code[p.addr].i.Jcc? then k
    else if Holds(code[p.addr].i.cond, TrailMach(code, p, s).flags) then b.bbs[k].end.branch
    else b.bbs[k].end.fallThrough
  }

  lemma BlockTrail(code: Code, cfg: Config, b: Book, k: nat, sh: Shape, fr: Frame, s: Mach, t: Mach, caps: seq<Instr>)
    requires CodeValid(code) && Ready(b, k, fr, s, t) && FaithfulBlock(code, fr.slots, b, k) &&
             SafeTrail(code, b.trails[k], fr, s)
    requires Chain(code, cfg, b.trails[k], b.bbs[k].addr, InitCode(cfg, k), caps)
    ensures var p := b.trails[k];
            && AllValid(caps)
            && OrigRun(code, At(b.bbs[k].addr, s), |p.steps|) == At(p.addr, TrailMach(code, p, s))
            && Described(p.es, p.live, fr, TrailMach(code, p, s), ExecAll(t, caps))
  {
    hide Chain, FaithfulTrail, SafeTrail, Described, FaithfulRet, FaithfulBranch;
    TrailSim(code, cfg, b.trails[k], b.bbs[k].addr, InitCode(cfg, k), caps, fr, s, t);
  }

  lemma ReturnBlock(code: Code, cfg: Config, b: Book, k: nat, sh: Shape, fr: Frame, s: Mach, t: Mach)
    requires CodeValid(code) && Ready(b, k, fr, s, t) && |b.trails| == |b.bbs|
    requires FaithfulBlock(code, fr.slots, b, k) && SafeBlock(code, b, k, fr, s)
    requires ClosedOk(code, cfg, b, k, sh) && b.bbs[k].end.Returns?
    ensures BlockKept(code, cfg, b, k, sh, fr, s, t)
  {
    hide Chain, FaithfulTrail, SafeTrail, StateRel, FlagsLive, FaithfulRet, Step, StepRet, TrailMach, ExecAll, Refines,
         SameOutcome;
    var p, caps := b.trails[k], Slice(b, k);
    var ret := StepRet(p.es, cfg).code;
    var n := |caps| - |ret|;
    assert caps == caps[..n] + ret;
    BlockTrail(code, cfg, b, k, sh, fr, s, t, caps[..n]);
    var m, t1 := TrailMach(code, p, s), ExecAll(t, caps[..n]);
    assert Described(p.es, p.live, fr, m, t1);
    ReturnSim(cfg, GivesResult(cfg, b), p.es, fr, m, t1);
    ExecAllAppend(t, caps[..n], ret);
  }

  lemma BranchBlock(code: Code, cfg: Config, b: Book, k: nat, sh: Shape, fr: Frame, s: Mach, t: Mach)
    requires CodeValid(code) && Ready(b, k, fr, s, t) && |b.trails| == |b.bbs|
    requires FaithfulBlock(code, fr.slots, b, k) && SafeBlock(code, b, k, fr, s)
    requires ClosedOk(code, cfg, b, k, sh) && b.bbs[k].end.Branches? && fr.size == sh.size
    requires forall j :: 0 <= j < |b.bbs| ==> ClosedOk(code, cfg, b, j, sh)
    ensures BlockKept(code, cfg, b, k, sh, fr, s, t)
  {
    hide Chain, FaithfulTrail, SafeTrail, StateRel, FlagRel, FlagsLive, FullyLive, StartLive, Step, TrailMach, ExecAll;
    hide Refines, ReturnOk, Holds, Needs, CapturedCond;
    var p, caps, e := b.trails[k], Slice(b, k), b.bbs[k].end;
    BlockTrail(code, cfg, b, k, sh, fr, s, t, caps);
    var m, t1 := TrailMach(code, p, s), ExecAll(t, caps);
    FullyLiveRel(p.es, p.live, m.flags, t1.flags);
    SameDirection(p.es, p.live, e.cond, m.flags, t1.flags);
    assert Holds(e.cond, t1.flags) == Holds(code[p.addr].i.cond, m.flags);
    var k' := if Holds(e.cond, t1.flags) then e.branch else e.fallThrough;
    assert ClosedOk(code, cfg, b, k', sh);
    var saved := b.saved[b.bbs[k'].esID];
    RefinesRel(p.es, saved, fr, m, t1);
    RefinesRel(saved, b.trails[k'].start, fr, m, t1);
    StartsLive(b.trails[k'].start, m.flags, t1.flags);
  }

  // ----- whole runs

  /** Everything is captured, and exactly. */
  ghost predicate Exact(code: Code, cfg: Config, b: Book, sh: Shape, fr: Frame) {
    && CodeValid(code) && fr.size == sh.size && |b.trails| == |b.bbs|
    && (forall j :: 0 <= j < |b.bbs| ==> ClosedOk(code, cfg, b, j, sh))
    && FaithfulBook(code, fr.slots, b)
  }

  /** For n blocks the original run started in block k meets the assumptions on memory accesses. */
  predicate SafeRun(code: Code, b: Book, fr: Frame, k: nat, s: Mach, n: nat)
    requires CodeValid(code) && s.Valid()
    decreases n
  {
    n == 0 || k >= |b.bbs| || k >= |b.trails| ||
    (SafeBlock(code, b, k, fr, s)
     && SafeRun(code, b, fr, NextBlock(code, b, k, s), TrailMach(code, b.trails[k], s), n - 1))
  }

  ghost predicate Safely(code: Code, b: Book, fr: Frame, k: nat, s: Mach)
    requires CodeValid(code) && s.Valid()
  {
    forall n: nat :: SafeRun(code, b, fr, k, s, n)
  }

  lemma SafelyOn(code: Code, b: Book, fr: Frame, k: nat, s: Mach)
    requires CodeValid(code) && s.Valid() && Safely(code, b, fr, k, s) && k < |b.bbs| && k < |b.trails|
    ensures SafeBlock(code, b, k, fr, s)
    ensures Safely(code, b, fr, NextBlock(code, b, k, s), TrailMach(code, b.trails[k], s))
  {
    hide SafeBlock, NextBlock, TrailMach;
    assert SafeRun(code, b, fr, k, s, 1);
    forall n: nat ensures SafeRun(code, b, fr, NextBlock(code, b, k, s), TrailMach(code, b.trails[k], s), n) {
      assert SafeRun(code, b, fr, k, s, n + 1);
    }
  }

  lemma BlockSim(code: Code, cfg: Config, b: Book, k: nat, sh: Shape, fr: Frame, s: Mach, t: Mach)
    requires Exact(code, cfg, b, sh, fr) && Ready(b, k, fr, s, t) && SafeBlock(code, b, k, fr, s)
    ensures BlockKept(code, cfg, b, k, sh, fr, s, t)
  {
    hide FaithfulBlock, SafeBlock, Described, BlockKept, BranchOk, ReturnOk, TrailOk;
    assert FaithfulBlock(code, fr.slots, b, k) && ClosedOk(code, cfg, b, k, sh);
    if b.bbs[k].end.Returns? {
      ReturnBlock(code, cfg, b, k, sh, fr, s, t);
    } else {
      BranchBlock(code, cfg, b, k, sh, fr, s, t);
    }
  }

  ghost predicate ResidualReturns(cfg: Config, b: Book, sh: Shape, fr: Frame, k: nat, t: Mach, m: Mach, n: nat)
    requires t.Valid() && |b.trails| == |b.bbs|
  {
    var r := ResRun(b, InBlock(k, t), n);
    r.Returned? && SameOutcome(GivesResult(cfg, b), fr, sh.top, m, r.m)
  }

  ghost predicate OriginalReturns(code: Code, result: bool, sh: Shape, fr: Frame, a: Word, s: Mach, m: Mach, n: nat)
    requires CodeValid(code) && s.Valid()
  {
    var r := OrigRun(code, At(a, s), n);
    r.Halted? && SameOutcome(result, fr, sh.top, r.m, m)
  }

  /** A run that is still going after k steps has not halted before. */
  lemma NotHaltedBefore(code: Code, c: Conf, n: nat, k: nat)
    requires CodeValid(code) && (c.At? ==> c.m.Valid())
    requires OrigRun(code, c, n).Halted? && OrigRun(code, c, k).At?
    ensures n > k
  {
    hide OrigRun;
    if n <= k {
      OrigRunAdd(code, c, n, k - n);
      HaltedStays(code, OrigRun(code, c, n).m, k - n);
    }
  }

  /** If the original function returns, so does the residual one, with the same outcome. */
  lemma {:induction false} Forward(code: Code, cfg: Config, b: Book, sh: Shape, fr: Frame, k: nat, s: Mach, t: Mach,
                                   n: nat)
    requires Exact(code, cfg, b, sh, fr) && Ready(b, k, fr, s, t) && Safely(code, b, fr, k, s)
    requires OrigRun(code, At(b.bbs[k].addr, s), n).Halted?
    ensures exists j: nat :: ResidualReturns(cfg, b, sh, fr, k, t, OrigRun(code, At(b.bbs[k].addr, s), n).m, j)
    decreases n
  {
    hide ClosedOk, FaithfulBook, Safely, TrailMach, OrigRun, ResStep, SafeBlock, SameOutcome;
    SafelyOn(code, b, fr, k, s);
    BlockSim(code, cfg, b, k, sh, fr, s, t);
    var c := |b.trails[k].steps| + 1;
    var o := OrigRun(code, At(b.bbs[k].addr, s), c);
    BlockGoesOn(code, cfg, b, k, sh, fr, s, t, n);
    OrigRunAdd(code, At(b.bbs[k].addr, s), c, n - c);
    match ResStep(b, InBlock(k, t))
    case Returned(t') =>
      HaltedStays(code, o.m, n - c);
      assert ResRun(b, InBlock(k, t), 0) == InBlock(k, t);
      assert ResRun(b, InBlock(k, t), 1) == Returned(t');
      assert ResidualReturns(cfg, b, sh, fr, k, t, o.m, 1);
    case InBlock(k', t') =>
      var m := OrigRun(code, At(b.bbs[k].addr, s), n).m;
      Forward(code, cfg, b, sh, fr, k', TrailMach(code, b.trails[k], s), t', n - c);
      var j: nat :| ResidualReturns(cfg, b, sh, fr, k', t', m, j);
      ResRunFirst(b, InBlock(k, t), j + 1);
      assert ResidualReturns(cfg, b, sh, fr, k, t, m, j + 1);
  }

  lemma BlockGoesOn(code: Code, cfg: Config, b: Book, k: nat, sh: Shape, fr: Frame, s: Mach, t: Mach, n: nat)
    requires Exact(code, cfg, b, sh, fr) && Ready(b, k, fr, s, t) && SafeBlock(code, b, k, fr, s)
    requires OrigRun(code, At(b.bbs[k].addr, s), n).Halted?
    ensures n > |b.trails[k].steps|
  {
    hide FaithfulBlock, SafeTrail, BranchOk, ReturnOk, TrailOk, StateRel, FlagsLive, OrigRun, Chain, TrailMach;
    var p := b.trails[k];
    assert FaithfulBlock(code, fr.slots, b, k) && ClosedOk(code, cfg, b, k, sh);
    var caps := BlockChain(code, cfg, b, k, sh);
    BlockTrail(code, cfg, b, k, sh, fr, s, t, caps);
    NotHaltedBefore(code, At(b.bbs[k].addr, s), n, |p.steps|);
  }

  lemma BlockChain(code: Code, cfg: Config, b: Book, k: nat, sh: Shape) returns (caps: seq<Instr>)
    requires k < |b.bbs| && k < |b.trails| && ClosedOk(code, cfg, b, k, sh)
    ensures Chain(code, cfg, b.trails[k], b.bbs[k].addr, InitCode(cfg, k), caps)
  {
    hide Chain, StepRet, Refines;
    var n := if b.bbs[k].end.Returns? then |StepRet(b.trails[k].es, cfg).code| else 0;
    var all := Slice(b, k);
    caps := all[..|all| - n];
    assert all[..|all|] == all;
  }

  /** If the residual function returns, so does the original one, with the same outcome. */
  lemma {:induction false} Backward(code: Code, cfg: Config, b: Book, sh: Shape, fr: Frame, k: nat, s: Mach, t: Mach,
                                    n: nat)
    requires Exact(code, cfg, b, sh, fr) && Ready(b, k, fr, s, t) && Safely(code, b, fr, k, s)
    requires ResRun(b, InBlock(k, t), n).Returned?
    ensures exists j: nat ::
              OriginalReturns(code, GivesResult(cfg, b), sh, fr, b.bbs[k].addr, s, ResRun(b, InBlock(k, t), n).m, j)
    decreases n
  {
    hide ClosedOk, FaithfulBook, Safely, TrailMach, OrigRun, ResStep, SafeBlock, SameOutcome;
    SafelyOn(code, b, fr, k, s);
    BlockSim(code, cfg, b, k, sh, fr, s, t);
    var c := |b.trails[k].steps| + 1;
    var o := OrigRun(code, At(b.bbs[k].addr, s), c);
    var m := ResRun(b, InBlock(k, t), n).m;
    ResRunFirst(b, InBlock(k, t), n);
    match ResStep(b, InBlock(k, t))
    case Returned(t') =>
      ReturnedStays(b, t', n - 1);
      assert OriginalReturns(code, GivesResult(cfg, b), sh, fr, b.bbs[k].addr, s, m, c);
    case InBlock(k', t') =>
      Backward(code, cfg, b, sh, fr, k', TrailMach(code, b.trails[k], s), t', n - 1);
      var u := TrailMach(code, b.trails[k], s);
      var j: nat :| OriginalReturns(code, GivesResult(cfg, b), sh, fr, b.bbs[k'].addr, u, m, j);
      OrigRunAdd(code, At(b.bbs[k].addr, s), c, j);
      assert OriginalReturns(code, GivesResult(cfg, b), sh, fr, b.bbs[k].addr, s, m, c + j);
  }

  // ----- from the entry of the function

  /** A call of the function that the configuration allows: known parameters have the configured values. */
  predicate EntryMachine(start: int, par: seq<Word>, parState: seq<CState>, fr: Frame, s: Mach)
    requires |par| == |parState| <= 6
  {
    && s.Valid() && 0 <= start && start + STACK_SIZE < M64 && SlotsOk(fr.slots)
    && fr.size == STACK_SIZE && 0 <= start + fr.delta && start + STACK_SIZE + fr.delta <= M64
    && s.reg[RSP] == Wrap(start + STACK_SIZE + fr.delta)
    && forall i :: 0 <= i < |par| ==> parState[i] != StackRel && (IsStatic(parState[i]) ==> s.reg[PAR_REG[i]] == par[i])
  }

  lemma {:induction false} LoadedRel(e: EState, par: seq<Word>, parState: seq<CState>, fr: Frame, s: Mach)
    requires e.Valid() && s.Valid() && |par| == |parState| <= 6 && RegRel(e, fr, s, s)
    requires forall i :: 0 <= i < |par| ==>
               parState[i] != StackRel && (IsStatic(parState[i]) ==> s.reg[PAR_REG[i]] == par[i])
    ensures RegRel(Loaded(e, par, parState), fr, s, s)
  {
    if par != [] {
      var n := |par| - 1;
      assert s.reg[PAR_REG[n]] == s.reg[PAR_REG[n]] && parState[n] != StackRel;
      LoadedRel(e, par[..n], parState[..n], fr, s);
    }
  }

  /** At entry the emulator state describes the machine, next to itself. */
  lemma EntryRel(start: int, par: seq<Word>, parState: seq<CState>, fr: Frame, s: Mach)
    requires |par| == |parState| <= 6 && EntryMachine(start, par, parState, fr, s)
    ensures var es := EntryState(start, par, parState); StateRel(es, fr, s, s) && FlagRel(es, s.flags, s.flags)
  {
    var e := Initial(STACK_SIZE, start);
    LoadedRel(e, par, parState, fr, s);
    var es := EntryState(start, par, parState);
    hide Loaded;
    assert es.ss == e.ss && es.start == start && es.fs == AllFlags(Dead);
    assert RegRel(es, fr, s, s);
    assert forall i :: 0 <= i < |es.ss| ==> es.ss[i] == Dead;
    assert forall i :: IsSlot(es, fr.slots, i) ==> es.ss[i] == Dead && !AllStackRel(es, i);
  }

  /** The first block starts where the call of the function starts. */
  lemma EntryReady(code: Code, cfg: Config, b: Book, sh: Shape, f: Word, start: int, par: seq<Word>,
                   parState: seq<CState>, fr: Frame, s: Mach)
    requires |par| == |parState| <= 6 && EntryMachine(start, par, parState, fr, s)
    requires BookOk(code, cfg, b, sh) && Complete(b) && Rooted(b, f, EntryState(start, par, parState))
    requires sh == Shape(STACK_SIZE, start + STACK_SIZE)
    ensures CodeValid(code) && |b.trails| == |b.bbs| && Ready(b, 0, fr, s, s) && b.bbs[0].addr == f
    ensures FaithfulBook(code, fr.slots, b) ==> Exact(code, cfg, b, sh, fr)
  {
    hide Step, Chain, ReturnOk, BranchOk, FaithfulBook, SlicesDisjoint, KeysUnique, Refines, StateRel, FlagRel,
         FlagsLive, StartLive, EntryState, Clone;
    var entry := EntryState(start, par, parState);
    EntryRel(start, par, parState, fr, s);
    CloneRefines(entry, 1);
    assert ClosedOk(code, cfg, b, 0, sh);
    RefinesRel(entry, b.saved[0], fr, s, s);
    RefinesRel(b.saved[0], b.trails[0].start, fr, s, s);
    StartsLive(b.trails[0].start, s.flags, s.flags);
  }

  /** Specialisation is correct. For every call with the configured parameters that keeps to the assumptions on
      memory accesses: the original function returns if and only if the captured blocks return, and then
      with the same outcome. */
  lemma Specialised(code: Code, cfg: Config, b: Book, sh: Shape, f: Word, start: int, par: seq<Word>,
                    parState: seq<CState>, fr: Frame, s: Mach)
    requires |par| == |parState| <= 6 && EntryMachine(start, par, parState, fr, s)
    requires BookOk(code, cfg, b, sh) && Complete(b) && Rooted(b, f, EntryState(start, par, parState))
    requires sh == Shape(STACK_SIZE, start + STACK_SIZE)
    requires FaithfulBook(code, fr.slots, b) && Safely(code, b, fr, 0, s)
    ensures forall n: nat :: OrigRun(code, At(f, s), n).Halted? ==>
              exists j: nat :: ResidualReturns(cfg, b, sh, fr, 0, s, OrigRun(code, At(f, s), n).m, j)
    ensures forall n: nat :: ResRun(b, InBlock(0, s), n).Returned? ==>
              exists j: nat ::
                OriginalReturns(code, GivesResult(cfg, b), sh, fr, f, s, ResRun(b, InBlock(0, s), n).m, j)
  {
    hide BookOk, FaithfulBook, Safely, ResRun, OrigRun, Rooted, Complete, Exact;
    EntryReady(code, cfg, b, sh, f, start, par, parState, fr, s);
    forall n: nat | OrigRun(code, At(f, s), n).Halted?
      ensures exists j: nat :: ResidualReturns(cfg, b, sh, fr, 0, s, OrigRun(code, At(f, s), n).m, j)
    {
      Forward(code, cfg, b, sh, fr, 0, s, s, n);
    }
    forall n: nat | ResRun(b, InBlock(0, s), n).Returned?
      ensures exists j: nat ::
                OriginalReturns(code, GivesResult(cfg, b), sh, fr, f, s, ResRun(b, InBlock(0, s), n).m, j)
    {
      Backward(code, cfg, b, sh, fr, 0, s, s, n);
    }
  }
}
