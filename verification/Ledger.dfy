/** Captured blocks, and what a captured block stands for. */
module Ledger {
  import opened Machine
  import opened Emulator
  import opened Relation
  import opened SavedState
  import opened Simulation

  datatype Option<+T> = None | Some(value: T)

  /** A decoded instruction of the original program. */
  datatype Decoded = Decoded(i: Instr, len: nat)

  type Code = map<Word, Decoded>

  predicate CodeValid(code: Code) { forall a <- code :: InstrValid(code[a].i) }

  /** How a captured block ends; successors are indices of blocks. */
  datatype End = Open | Returns | Branches(cond: Cond, branch: nat, fallThrough: nat)

  /** A captured block: key, slice of the captured instructions, end. */
  datatype CBB = CBB(addr: Word, esID: nat, first: nat, count: nat, end: End, preferBranch: bool)

  // ----- how a block was captured

  /** Emulator state before an instruction, its address, what is known about flags, memory read. */
  datatype TStep = TStep(es: EState, addr: Word, live: Live, rd: Word -> Word)

  /** Emulation of one block: initial state, steps taken so far, state and address reached. */
  datatype Trail = Trail(start: EState, steps: seq<TStep>, es: EState, addr: Word, live: Live)

  /** Next address after an instruction that ends no block; a jump to 0 counts as no jump. */
  function NextAddr(es: EState, i: Instr, ip: Word): Word {
    match i
    case Jmp(t) => if t != 0 then t else ip
    case Jcc(c, t) => if EmuTaken(c, es.flags) && t != 0 then t else ip
    case _ => ip
  }

  predicate StaysInBlock(es: EState, i: Instr) {
    !i.Ret? && (i.Jcc? ==> !DynamicJump(es, i.cond))
  }

  /** The state (es, addr, live) follows from step q, which captured new. */
  predicate Follows(code: Code, cfg: Config, q: TStep, es: EState, addr: Word, live: Live, captured: seq<Instr>) {
    && q.addr in code && q.es.Valid()
    && var d := code[q.addr];
       var ip := Wrap(q.addr + d.len);
       && InstrValid(d.i) && StaysInBlock(q.es, d.i)
       && Step(q.es, cfg, d.i, ip, q.rd) == Ok(Stepped(es, captured))
       && addr == NextAddr(q.es, d.i, ip)
       && live == FlagsKept(q.es, q.live, d.i, ip, q.rd)
  }

  lemma StepFollows(code: Code, cfg: Config, q: TStep, es: EState, addr: Word, live: Live, captured: seq<Instr>)
    requires CodeValid(code) && q.addr in code && q.es.Valid() && StaysInBlock(q.es, code[q.addr].i)
    requires var d := code[q.addr];
             var ip := Wrap(q.addr + d.len);
             && Step(q.es, cfg, d.i, ip, q.rd) == Ok(Stepped(es, captured))
             && addr == NextAddr(q.es, d.i, ip) && live == FlagsKept(q.es, q.live, d.i, ip, q.rd)
    ensures Follows(code, cfg, q, es, addr, live, captured)
  {}

  function CapturedBy(code: Code, cfg: Config, q: TStep): seq<Instr>
  {
    if q.addr in code && q.es.Valid() && InstrValid(code[q.addr].i) then
      match Step(q.es, cfg, code[q.addr].i, Wrap(q.addr + code[q.addr].len), q.rd)
      case Ok(r) => r.code
      case Fail(_) => []
    else []
  }

  /** Emulation starts at an address, in a state described in full. */
  function TrailAt(es: EState, a: Word): Trail { Trail(es, [], es, a, StartLive(es)) }

  function Before(p: Trail): Trail
    requires p.steps != []
  {
    var q := p.steps[|p.steps| - 1];
    Trail(p.start, p.steps[..|p.steps| - 1], q.es, q.addr, q.live)
  }

  /** The trail starts at address a with captured code init, and captured caps in all. */
  predicate Chain(code: Code, cfg: Config, p: Trail, a: Word, init: seq<Instr>, caps: seq<Instr>)
    decreases |p.steps|
  {
    if p.steps == [] then p.es == p.start && p.addr == a && p.live == StartLive(p.start) && caps == init
    else
      var q := p.steps[|p.steps| - 1];
      var new_ := CapturedBy(code, cfg, q);
      && |new_| <= |caps|
      && Follows(code, cfg, q, p.es, p.addr, p.live, caps[|caps| - |new_|..])
      && Chain(code, cfg, Before(p), a, init, caps[..|caps| - |new_|])
  }

  lemma ChainStep(code: Code, cfg: Config, p: Trail, a: Word, init: seq<Instr>, caps: seq<Instr>, rd: Word -> Word,
                  es: EState, addr: Word, live: Live, new_: seq<Instr>)
    requires Chain(code, cfg, p, a, init, caps)
    requires Follows(code, cfg, TStep(p.es, p.addr, p.live, rd), es, addr, live, new_)
    ensures Chain(code, cfg, Trail(p.start, p.steps + [TStep(p.es, p.addr, p.live, rd)], es, addr, live), a, init,
            caps + new_)
  {
    hide Step, FlagsKept, NextAddr;
    var q := TStep(p.es, p.addr, p.live, rd);
    var p' := Trail(p.start, p.steps + [q], es, addr, live);
    assert CapturedBy(code, cfg, q) == new_;
    hide Follows, CapturedBy;
    assert p'.steps[..|p'.steps| - 1] == p.steps;
    assert (caps + new_)[..|caps|] == caps && (caps + new_)[|caps|..] == new_;
    assert Before(p') == p;
  }

  // ----- the ledger of all blocks

  datatype Book = Book(instrs: seq<Instr>, bbs: seq<CBB>, cur: Option<nat>, stack: seq<nat>,
                       saved: seq<EState>, trails: seq<Trail>)

  /** Stack size and stack top of all emulator states of a run. */
  datatype Shape = Shape(size: nat, top: int)

  predicate Fits(es: EState, sh: Shape) {
    es.Valid() && es.Top() == sh.top && |es.stack| <= sh.size
  }

  predicate SliceOk(b: Book, k: nat)
    requires k < |b.bbs|
  {
    b.bbs[k].first + b.bbs[k].count <= |b.instrs|
  }

  function Slice(b: Book, k: nat): seq<Instr>
    requires k < |b.bbs| && SliceOk(b, k)
  {
    b.instrs[b.bbs[k].first..b.bbs[k].first + b.bbs[k].count]
  }

  function InitCode(cfg: Config, k: nat): seq<Instr> { if k == 0 && cfg.hints then [HintCall] else [] }

  predicate TrailOk(b: Book, k: nat, sh: Shape)
    requires k < |b.bbs| && k < |b.trails|
  {
    var p := b.trails[k];
    && b.bbs[k].esID < |b.saved|
    && Fits(b.saved[b.bbs[k].esID], sh) && Fits(p.start, sh) && Fits(p.es, sh)
    && Refines(b.saved[b.bbs[k].esID], p.start)
  }

  /** A block ended by a return: the captured code ends with the code of the return. */
  predicate ReturnOk(code: Code, cfg: Config, b: Book, k: nat, sh: Shape)
    requires k < |b.bbs| && k < |b.trails| && SliceOk(b, k) && TrailOk(b, k, sh)
  {
    var p, caps := b.trails[k], Slice(b, k);
    var n := |StepRet(p.es, cfg).code|;
    && p.addr in code && code[p.addr].i == Ret
    && n <= |caps| && caps[|caps| - n..] == StepRet(p.es, cfg).code
    && Chain(code, cfg, p, b.bbs[k].addr, InitCode(cfg, k), caps[..|caps| - n])
  }

  /** A block ended by a conditional jump: both successors have the right address and a common saved state,
      which describes whatever the state at the jump describes. */
  predicate BranchOk(code: Code, cfg: Config, b: Book, k: nat, sh: Shape)
    requires k < |b.bbs| && k < |b.trails| && SliceOk(b, k) && TrailOk(b, k, sh) && b.bbs[k].end.Branches?
  {
    var p, e := b.trails[k], b.bbs[k].end;
    && p.addr in code && code[p.addr].i.Jcc?
    && e.cond == CapturedCond(code[p.addr].i.cond) && DynamicJump(p.es, code[p.addr].i.cond)
    && e.branch < |b.bbs| && e.fallThrough < |b.bbs|
    && b.bbs[e.branch].addr == code[p.addr].i.target
    && b.bbs[e.fallThrough].addr == Wrap(p.addr + code[p.addr].len)
    && b.bbs[e.branch].esID == b.bbs[e.fallThrough].esID < |b.saved|
    && Fits(b.saved[b.bbs[e.branch].esID], sh)
    && Refines(p.es, b.saved[b.bbs[e.branch].esID])
    && Chain(code, cfg, p, b.bbs[k].addr, InitCode(cfg, k), Slice(b, k))
  }

  predicate ClosedOk(code: Code, cfg: Config, b: Book, k: nat, sh: Shape)
    requires k < |b.bbs|
  {
    && k < |b.trails| && SliceOk(b, k) && TrailOk(b, k, sh)
    && match b.bbs[k].end
       case Open => false
       case Returns => ReturnOk(code, cfg, b, k, sh)
       case Branches(_, _, _) => BranchOk(code, cfg, b, k, sh)
  }

  /** The block being captured. */
  predicate CurrentOk(code: Code, cfg: Config, b: Book, k: nat, sh: Shape) {
    && k < |b.bbs| && k < |b.trails| && SliceOk(b, k) && TrailOk(b, k, sh)
    && b.bbs[k].end == Open
    && b.stack != [] && b.stack[|b.stack| - 1] == k
    && (b.bbs[k].count > 0 ==> b.bbs[k].first + b.bbs[k].count == |b.instrs|)
    && Chain(code, cfg, b.trails[k], b.bbs[k].addr, InitCode(cfg, k), Slice(b, k))
  }

  predicate KeysUnique(bbs: seq<CBB>) {
    forall i, j :: 0 <= i < j < |bbs| ==> bbs[i].addr != bbs[j].addr || bbs[i].esID != bbs[j].esID
  }

  lemma SameKeys(bbs: seq<CBB>, bbs': seq<CBB>, k: nat)
    requires KeysUnique(bbs) && |bbs'| == |bbs| && forall j :: 0 <= j < |bbs| && j != k ==> bbs'[j] == bbs[j]
    requires k < |bbs| && bbs'[k].addr == bbs[k].addr && bbs'[k].esID == bbs[k].esID
    ensures KeysUnique(bbs')
  {
    forall i, j | 0 <= i < j < |bbs'| ensures bbs'[i].addr != bbs'[j].addr || bbs'[i].esID != bbs'[j].esID {
      assert bbs[i].addr != bbs[j].addr || bbs[i].esID != bbs[j].esID;
    }
  }

  /** Slices of different blocks do not overlap. */
  predicate SlicesDisjoint(bbs: seq<CBB>) {
    forall i, j :: 0 <= i < |bbs| && 0 <= j < |bbs| && i != j && bbs[i].count > 0 && bbs[j].count > 0 ==>
      bbs[i].first + bbs[i].count <= bbs[j].first || bbs[j].first + bbs[j].count <= bbs[i].first
  }

  /** Invariant of the whole emulation: unfinished blocks wait on the stack, finished ones are sound. */
  predicate BookOk(code: Code, cfg: Config, b: Book, sh: Shape) {
    && CodeValid(code)
    && |b.trails| == |b.bbs|
    && (forall i :: 0 <= i < |b.saved| ==> Fits(b.saved[i], sh))
    && KeysUnique(b.bbs) && SlicesDisjoint(b.bbs)
    && (forall k :: 0 <= k < |b.bbs| ==> b.bbs[k].esID < |b.saved| && SliceOk(b, k))
    && (forall k :: 0 <= k < |b.stack| ==> b.stack[k] < |b.bbs|)
    && (forall k :: 0 <= k < |b.bbs| && b.bbs[k].end != Open ==> ClosedOk(code, cfg, b, k, sh))
    && (forall k :: 0 <= k < |b.bbs| && b.bbs[k].end == Open && b.cur != Some(k) ==>
          b.bbs[k].count == 0 && k in b.stack && k > 0)
    && (b.cur.Some? ==> CurrentOk(code, cfg, b, b.cur.value, sh))
  }

  /** Everything is captured: no block is open. */
  predicate Complete(b: Book) { forall k :: 0 <= k < |b.bbs| ==> b.bbs[k].end != Open }

  // ----- growing the ledger

  /** Keys of blocks, captured instructions and saved states are never taken back. */
  predicate Grows(b: Book, c: Book) {
    && b.instrs <= c.instrs && b.saved <= c.saved
    && |b.bbs| <= |c.bbs|
    && forall k :: 0 <= k < |b.bbs| ==> c.bbs[k].addr == b.bbs[k].addr && c.bbs[k].esID == b.bbs[k].esID
  }

  /** A state saved as number id and restored after any further emulation comes back: registers, flags, call stack
      and every byte of the stack that had been written, although the saved state is smaller. */
  lemma RestoredLater(b: Book, c: Book, id: nat, es: EState, live: nat)
    requires es.Valid() && es.Top() >= |es.stack| && id < |b.saved| && b.saved[id] == Clone(es, live) && Grows(b, c)
    ensures c.saved[id].Valid() && |es.stack| <= c.saved[id].Top() &&
            c.saved[id].Top() - c.saved[id].accessed <= |es.stack|
    ensures var r := CopyState(|es.stack|, c.saved[id]);
            && r.reg == es.reg && r.rs == es.rs && r.flags == es.flags && r.fs == es.fs && r.ret == es.ret
            && r.start == es.start && r.accessed == es.accessed && r.ss == es.ss
            && (forall i :: es.accessed - es.start <= i < |es.stack| ==> r.stack[i] == es.stack[i])
            && (forall i :: 0 <= i < es.accessed - es.start ==> es.ss[i] == Dead)
  {
    assert c.saved[id] == Clone(es, live);
    RestoreExact(es, live);
  }

  lemma SliceKept(b: Book, c: Book, k: nat)
    requires k < |b.bbs| && Grows(b, c) && c.bbs[k].first == b.bbs[k].first && c.bbs[k].count == b.bbs[k].count
    requires SliceOk(b, k)
    ensures SliceOk(c, k) && Slice(c, k) == Slice(b, k)
  {
    assert c.instrs[..|b.instrs|] == b.instrs;
  }

  lemma TrailKept(b: Book, c: Book, k: nat, sh: Shape)
    requires k < |b.bbs| && k < |b.trails| && TrailOk(b, k, sh) && Grows(b, c)
    requires k < |c.trails| && c.trails[k] == b.trails[k]
    ensures TrailOk(c, k, sh) && c.saved[b.bbs[k].esID] == b.saved[b.bbs[k].esID]
  {
    hide Fits, Refines;
  }

  lemma BranchKept(code: Code, cfg: Config, b: Book, c: Book, k: nat, sh: Shape)
    requires k < |b.bbs| && k < |b.trails| && SliceOk(b, k) && TrailOk(b, k, sh) && b.bbs[k].end.Branches?
    requires BranchOk(code, cfg, b, k, sh) && Grows(b, c)
    requires k < |c.trails| && c.bbs[k] == b.bbs[k] && c.trails[k] == b.trails[k]
    requires SliceOk(c, k) && TrailOk(c, k, sh) && Slice(c, k) == Slice(b, k)
    ensures BranchOk(code, cfg, c, k, sh)
  {
    hide Step, Refines, Chain, DynamicJump, Consults, CapturedCond, Fits, Slice;
    var e := b.bbs[k].end;
    assert c.saved[b.bbs[e.branch].esID] == b.saved[b.bbs[e.branch].esID];
    assert c.bbs[e.branch].addr == b.bbs[e.branch].addr && c.bbs[e.branch].esID == b.bbs[e.branch].esID;
    assert c.bbs[e.fallThrough].addr == b.bbs[e.fallThrough].addr &&
           c.bbs[e.fallThrough].esID == b.bbs[e.fallThrough].esID;
  }

  lemma ClosedKept(code: Code, cfg: Config, b: Book, c: Book, k: nat, sh: Shape)
    requires k < |b.bbs| && ClosedOk(code, cfg, b, k, sh) && Grows(b, c)
    requires c.bbs[k] == b.bbs[k] && k < |c.trails| && c.trails[k] == b.trails[k]
    ensures ClosedOk(code, cfg, c, k, sh)
  {
    hide Step, Fits, Refines, Chain, BranchOk, StepRet, Clone, Consults;
    SliceKept(b, c, k);
    TrailKept(b, c, k, sh);
    if b.bbs[k].end.Branches? { BranchKept(code, cfg, b, c, k, sh); }
  }

  /** The current block captures the code of one more instruction. */
  function Captured(b: Book, k: nat, new_: seq<Instr>, p: Trail): Book
    requires k < |b.bbs| && k < |b.trails|
  {
    var bb := b.bbs[k];
    var first := if bb.count == 0 && new_ != [] then |b.instrs| else bb.first;
    b.(instrs := b.instrs + new_, bbs := b.bbs[k := bb.(first := first, count := bb.count + |new_|)],
       trails := b.trails[k := p])
  }

  lemma CapturedSlice(b: Book, k: nat, new_: seq<Instr>, p: Trail)
    requires k < |b.bbs| && k < |b.trails| && SliceOk(b, k)
    requires b.bbs[k].count > 0 ==> b.bbs[k].first + b.bbs[k].count == |b.instrs|
    ensures var c := Captured(b, k, new_, p);
            SliceOk(c, k) && Slice(c, k) == Slice(b, k) + new_ && Grows(b, c)
  {
    var c := Captured(b, k, new_, p);
    var f, n := b.bbs[k].first, b.bbs[k].count;
    if n == 0 {
      assert Slice(b, k) == [];
      assert new_ != [] ==> (b.instrs + new_)[|b.instrs|..|b.instrs| + |new_|] == new_;
      assert Slice(c, k) == new_;
    } else {
      assert (b.instrs + new_)[f..f + n + |new_|] == b.instrs[f..f + n] + new_;
    }
  }

  lemma CapturedKeeps(code: Code, cfg: Config, b: Book, k: nat, new_: seq<Instr>, p: Trail, sh: Shape)
    requires BookOk(code, cfg, b, sh) && b.cur == Some(k)
    requires CurrentOk(code, cfg, Captured(b, k, new_, p), k, sh)
    ensures BookOk(code, cfg, Captured(b, k, new_, p), sh)
  {
    hide Step, Fits, Refines, Chain, BranchOk, ReturnOk, TrailOk, ClosedOk, Slice;
    var c := Captured(b, k, new_, p);
    CapturedSlice(b, k, new_, p);
    forall j | 0 <= j < |c.bbs| && j != k
      ensures SliceOk(c, j) && (c.bbs[j].end != Open ==> ClosedOk(code, cfg, c, j, sh))
    {
      SliceKept(b, c, j);
      if c.bbs[j].end != Open { ClosedKept(code, cfg, b, c, j, sh); }
    }
    assert SlicesDisjoint(c.bbs) by {
      forall j | 0 <= j < |b.bbs| ensures b.bbs[j].first + b.bbs[j].count <= |b.instrs| { assert SliceOk(b, j); }
    }
  }

  /** Block k gets its end and leaves the stack. */
  function Ended(b: Book, k: nat, e: End, prefer: bool): Book
    requires k < |b.bbs| && b.stack != []
  {
    b.(bbs := b.bbs[k := b.bbs[k].(end := e, preferBranch := prefer)], cur := None, stack := b.stack[..|b.stack| - 1])
  }

  function Returned(cfg: Config, b: Book, k: nat): Book
    requires k < |b.bbs| && k < |b.trails| && b.stack != [] && b.trails[k].es.Valid()
  {
    var c := Captured(b, k, StepRet(b.trails[k].es, cfg).code, b.trails[k]);
    Ended(c, k, Returns, c.bbs[k].preferBranch)
  }

  lemma ReturnedOk(code: Code, cfg: Config, b: Book, k: nat, sh: Shape)
    requires CurrentOk(code, cfg, b, k, sh)
    requires b.trails[k].addr in code && code[b.trails[k].addr].i == Ret
    ensures ClosedOk(code, cfg, Returned(cfg, b, k), k, sh)
  {
    hide Step, Refines, Chain, BranchOk, StepRet;
    var p := b.trails[k];
    var rc := StepRet(p.es, cfg).code;
    CapturedSlice(b, k, rc, p);
    var c := Returned(cfg, b, k);
    hide Fits;
    var m := Captured(b, k, rc, p);
    assert c.instrs == m.instrs && c.bbs[k].first == m.bbs[k].first && c.bbs[k].count == m.bbs[k].count;
    assert Slice(c, k) == Slice(m, k) == Slice(b, k) + rc;
    assert Slice(c, k)[..|Slice(c, k)| - |rc|] == Slice(b, k) && Slice(c, k)[|Slice(c, k)| - |rc|..] == rc;
  }

  /** Taking the top off the stack only affects the block that was there. */
  lemma OthersStillWait(b: Book, c: Book, k: nat)
    requires b.stack != [] && b.stack[|b.stack| - 1] == k && c.stack == b.stack[..|b.stack| - 1]
    ensures forall j :: j in b.stack && j != k ==> j in c.stack
    ensures forall j :: j in c.stack ==> j in b.stack
  {
    assert b.stack == c.stack + [k];
  }

  /** What closing the current block k may change: its own slice grows at the end of the captured
      instructions, saved states and empty blocks are added, and new blocks wait on the stack. */
  ghost predicate Closes(b: Book, c: Book, k: nat)
    requires k < |b.bbs|
  {
    && Grows(b, c) && c.cur == None
    && |b.trails| == |b.bbs| && |c.trails| == |c.bbs|
    && (forall j :: 0 <= j < |b.bbs| && j != k ==> c.bbs[j] == b.bbs[j] && c.trails[j] == b.trails[j])
    && (c.bbs[k].count > 0 ==> c.bbs[k].first >= |b.instrs| || (b.bbs[k].count > 0 && c.bbs[k].first == b.bbs[k].first))
    && (forall j :: |b.bbs| <= j < |c.bbs| ==>
          c.bbs[j].end == Open && c.bbs[j].count == 0 && c.bbs[j].first == 0 && c.bbs[j].esID < |c.saved| &&
            j in c.stack)
    && (forall j :: j in b.stack && j != k ==> j in c.stack)
    && (forall j :: 0 <= j < |c.stack| ==> c.stack[j] < |c.bbs|)
  }

  lemma ClosedFacts(code: Code, cfg: Config, c: Book, k: nat, sh: Shape)
    requires k < |c.bbs| && ClosedOk(code, cfg, c, k, sh)
    ensures c.bbs[k].end != Open && SliceOk(c, k) && c.bbs[k].esID < |c.saved|
  {
    hide Chain, Refines, Fits, BranchOk, ReturnOk;
  }

  lemma ClosesKeeps(code: Code, cfg: Config, b: Book, c: Book, k: nat, sh: Shape)
    requires BookOk(code, cfg, b, sh) && b.cur == Some(k) && Closes(b, c, k)
    requires KeysUnique(c.bbs)
    requires forall i :: 0 <= i < |c.saved| ==> Fits(c.saved[i], sh)
    requires ClosedOk(code, cfg, c, k, sh)
    ensures BookOk(code, cfg, c, sh)
  {
    hide Step, Chain, Refines, Fits, BranchOk, ReturnOk, TrailOk, KeysUnique, Slice, ClosedOk;
    ClosedFacts(code, cfg, c, k, sh);
    forall j | 0 <= j < |b.bbs| && j != k
      ensures SliceOk(c, j) && (c.bbs[j].end != Open ==> ClosedOk(code, cfg, c, j, sh))
    {
      SliceKept(b, c, j);
      if c.bbs[j].end != Open { ClosedKept(code, cfg, b, c, j, sh); }
    }
    assert SlicesDisjoint(c.bbs) by {
      forall j | 0 <= j < |b.bbs| ensures b.bbs[j].first + b.bbs[j].count <= |b.instrs| { assert SliceOk(b, j); }
    }
  }

  lemma ReturnCloses(code: Code, cfg: Config, b: Book, k: nat, sh: Shape)
    requires BookOk(code, cfg, b, sh) && b.cur == Some(k)
    requires b.trails[k].addr in code && code[b.trails[k].addr].i == Ret
    ensures BookOk(code, cfg, Returned(cfg, b, k), sh) && Grows(b, Returned(cfg, b, k))
  {
    hide Step, Chain, Refines, StepRet, BranchOk, ReturnOk, Slice, ClosedOk;
    var c := Returned(cfg, b, k);
    ReturnedOk(code, cfg, b, k, sh);
    OthersStillWait(b, c, k);
    assert KeysUnique(c.bbs);
    assert Closes(b, c, k);
    ClosesKeeps(code, cfg, b, c, k, sh);
  }

  /** The next open block becomes current, with a state restored from its saved one. */
  lemma OpensNext(code: Code, cfg: Config, b: Book, k: nat, es: EState, sh: Shape)
    requires BookOk(code, cfg, b, sh) && b.cur == None && b.stack != [] && b.stack[|b.stack| - 1] == k
    requires k < |b.bbs| && b.bbs[k].end == Open
    requires Fits(es, sh) && Fits(b.saved[b.bbs[k].esID], sh) && Refines(b.saved[b.bbs[k].esID], es)
    ensures BookOk(code, cfg, b.(cur := Some(k), trails := b.trails[k := TrailAt(es, b.bbs[k].addr)]), sh)
  {
    var c := b.(cur := Some(k), trails := b.trails[k := TrailAt(es, b.bbs[k].addr)]);
    assert k in b.stack && Slice(c, k) == [];
    assert Chain(code, cfg, c.trails[k], c.bbs[k].addr, InitCode(cfg, k), Slice(c, k));
    hide Step, Fits, Refines, Chain, BranchOk, ReturnOk, ClosedOk, Slice, KeysUnique, SlicesDisjoint;
    forall j | 0 <= j < |b.bbs| && b.bbs[j].end != Open ensures ClosedOk(code, cfg, c, j, sh) {
      ClosedKept(code, cfg, b, c, j, sh);
    }
  }

  /** A finished block on top of the stack is dropped. */
  lemma DropsFinished(code: Code, cfg: Config, b: Book, sh: Shape)
    requires BookOk(code, cfg, b, sh) && b.cur == None && b.stack != []
    requires b.bbs[b.stack[|b.stack| - 1]].end != Open
    ensures BookOk(code, cfg, b.(stack := b.stack[..|b.stack| - 1]), sh)
  {
    hide Step, Fits, Refines, Chain, BranchOk, ReturnOk, TrailOk, ClosedOk, Slice, KeysUnique, SlicesDisjoint,
         CurrentOk;
    var c := b.(stack := b.stack[..|b.stack| - 1]);
    forall j | 0 <= j < |b.bbs| && b.bbs[j].end != Open ensures ClosedOk(code, cfg, c, j, sh) {
      ClosedKept(code, cfg, b, c, j, sh);
    }
    OthersStillWait(b, c, b.stack[|b.stack| - 1]);
  }

  /** The trail of the current block extended by one emulated instruction. */
  lemma StepExtends(code: Code, cfg: Config, b: Book, k: nat, sh: Shape, rd: Word -> Word,
                    es: EState, next: Word, live: Live, new_: seq<Instr>)
    requires CurrentOk(code, cfg, b, k, sh) && Fits(es, sh)
    requires Follows(code, cfg, TStep(b.trails[k].es, b.trails[k].addr, b.trails[k].live, rd), es, next, live, new_)
    ensures var p := b.trails[k];
            var p' := Trail(p.start, p.steps + [TStep(p.es, p.addr, p.live, rd)], es, next, live);
            CurrentOk(code, cfg, Captured(b, k, new_, p'), k, sh)
  {
    hide Step, Refines, FlagsKept, NextAddr, Follows;
    var p := b.trails[k];
    var p' := Trail(p.start, p.steps + [TStep(p.es, p.addr, p.live, rd)], es, next, live);
    ChainStep(code, cfg, p, b.bbs[k].addr, InitCode(cfg, k), Slice(b, k), rd, es, next, live, new_);
    CapturedSlice(b, k, new_, p');
    hide Chain;
  }

  function NextTrail(p: Trail, rd: Word -> Word, es: EState, next: Word, live: Live): Trail {
    Trail(p.start, p.steps + [TStep(p.es, p.addr, p.live, rd)], es, next, live)
  }

  lemma StepKeeps(code: Code, cfg: Config, b: Book, k: nat, sh: Shape, rd: Word -> Word,
                  es: EState, next: Word, live: Live, new_: seq<Instr>)
    requires BookOk(code, cfg, b, sh) && b.cur == Some(k) && Fits(es, sh)
    requires Follows(code, cfg, TStep(b.trails[k].es, b.trails[k].addr, b.trails[k].live, rd), es, next, live, new_)
    ensures var c := Captured(b, k, new_, NextTrail(b.trails[k], rd, es, next, live));
            BookOk(code, cfg, c, sh) && Grows(b, c)
  {
    hide Step, Refines, FlagsKept, NextAddr, Follows, Chain, BranchOk, ReturnOk;
    StepExtends(code, cfg, b, k, sh, rd, es, next, live, new_);
    CapturedKeeps(code, cfg, b, k, new_, NextTrail(b.trails[k], rd, es, next, live), sh);
    CapturedSlice(b, k, new_, NextTrail(b.trails[k], rd, es, next, live));
  }

  lemma CapturedTwice(b: Book, k: nat, new_: seq<Instr>, p: Trail, q: Trail)
    requires k < |b.bbs| && k < |b.trails|
    ensures Captured(b.(trails := b.trails[k := q]), k, new_, q) == Captured(b, k, new_, q)
    ensures var c := Captured(b, k, new_, q);
            c.cur == b.cur && c.saved == b.saved && |c.trails| == |b.trails| && c.trails[k] == q && |c.bbs| == |b.bbs|
  {
    assert b.trails[k := q][k := q] == b.trails[k := q];
  }

  lemma CapturedFacts(b: Book, k: nat, new_: seq<Instr>, p: Trail)
    requires k < |b.bbs| && k < |b.trails|
    ensures var c := Captured(b, k, new_, p);
            c.cur == b.cur && c.stack == b.stack && c.saved == b.saved && |c.bbs| == |b.bbs| && |c.trails| == |b.trails|
  {}

  /** Closing the current block by a conditional jump. */
  lemma BranchedOk(code: Code, cfg: Config, b: Book, c: Book, k: nat, sh: Shape)
    requires CurrentOk(code, cfg, b, k, sh) && Grows(b, c)
    requires k < |c.trails| && c.trails[k] == b.trails[k]
    requires c.bbs[k].end.Branches? && c.bbs[k] == b.bbs[k].(end := c.bbs[k].end, preferBranch := c.bbs[k].preferBranch)
    requires var p, e := b.trails[k], c.bbs[k].end;
             && p.addr in code && code[p.addr].i.Jcc? && e.cond == CapturedCond(code[p.addr].i.cond)
             && DynamicJump(p.es, code[p.addr].i.cond)
             && e.branch < |c.bbs| && e.fallThrough < |c.bbs|
             && c.bbs[e.branch].addr == code[p.addr].i.target
             && c.bbs[e.fallThrough].addr == Wrap(p.addr + code[p.addr].len)
             && c.bbs[e.branch].esID == c.bbs[e.fallThrough].esID < |c.saved|
             && Fits(c.saved[c.bbs[e.branch].esID], sh)
             && Refines(p.es, c.saved[c.bbs[e.branch].esID])
    ensures ClosedOk(code, cfg, c, k, sh)
  {
    hide Step, Refines, Chain, DynamicJump, CapturedCond;
    SliceKept(b, c, k);
    TrailKept(b, c, k, sh);
  }

  predicate OneOf(j: int, x: int, y: int) { j == x || j == y }

  /** What the conditional jump that closes block k leaves behind: the block gets its two successors,
      which are old blocks or empty new ones of saved state id, and they are on top of the stack. */
  ghost predicate Branched(b: Book, c: Book, k: nat, e: End, id: nat, first: nat, second: nat)
    requires k < |b.bbs| && b.stack != [] && e.Branches?
  {
    && c.instrs == b.instrs && b.saved <= c.saved && c.cur == None
    && |c.trails| == |c.bbs| && |b.trails| == |b.bbs| <= |c.bbs|
    && (forall j :: 0 <= j < |b.bbs| ==> c.trails[j] == b.trails[j])
    && (forall j :: 0 <= j < |b.bbs| && j != k ==> c.bbs[j] == b.bbs[j])
    && c.bbs[k] == b.bbs[k].(end := e, preferBranch := c.bbs[k].preferBranch)
    && id < |c.saved| && e.branch < |c.bbs| && e.fallThrough < |c.bbs|
    && c.bbs[e.branch].esID == id && c.bbs[e.fallThrough].esID == id
    && (forall j :: |b.bbs| <= j < |c.bbs| ==>
          OneOf(j, e.branch, e.fallThrough) && c.bbs[j] == CBB(c.bbs[j].addr, id, 0, 0, Open, false))
    && c.stack == b.stack[..|b.stack| - 1] + [first, second]
    && {first, second} == {e.branch, e.fallThrough}
  }

  lemma IsBranched(b: Book, c: Book, k: nat, prefer: bool, grown: seq<CBB>, e: End, id: nat, first: nat, second: nat)
    requires k < |b.bbs| == |b.trails| && b.stack != [] && e.Branches?
    requires |b.bbs| <= |grown| && forall j :: 0 <= j < |b.bbs| && j != k ==> grown[j] == b.bbs[j]
    requires grown[k] == b.bbs[k].(end := grown[k].end, preferBranch := prefer)
    requires c.bbs == grown[k := grown[k].(end := e)] && c.cur == None
    requires c.instrs == b.instrs && b.saved <= c.saved && |c.trails| == |grown|
    requires forall j :: 0 <= j < |b.trails| ==> c.trails[j] == b.trails[j]
    requires id < |c.saved| && e.branch < |grown| && e.fallThrough < |grown|
    requires grown[e.branch].esID == id && grown[e.fallThrough].esID == id
    requires forall j :: |b.bbs| <= j < |grown| ==>
               OneOf(j, e.branch, e.fallThrough) && grown[j] == CBB(grown[j].addr, id, 0, 0, Open, false)
    requires c.stack == b.stack[..|b.stack| - 1] + [first] + [second]
    requires {first, second} == {e.branch, e.fallThrough}
    ensures Branched(b, c, k, e, id, first, second)
  {
    assert c.stack == b.stack[..|b.stack| - 1] + [first, second];
  }

  lemma BranchCloses(code: Code, cfg: Config, b: Book, c: Book, k: nat, sh: Shape, id: nat, first: nat, second: nat)
    requires BookOk(code, cfg, b, sh) && b.cur == Some(k) && k < |c.bbs| && c.bbs[k].end.Branches?
    requires Branched(b, c, k, c.bbs[k].end, id, first, second)
    requires KeysUnique(c.bbs) && forall i :: 0 <= i < |c.saved| ==> Fits(c.saved[i], sh)
    requires b.trails[k].es.Valid() && c.saved[id].Valid()
    requires var p, e := b.trails[k], c.bbs[k].end;
             && p.addr in code && code[p.addr].i.Jcc? && e.cond == CapturedCond(code[p.addr].i.cond)
             && DynamicJump(p.es, code[p.addr].i.cond)
             && c.bbs[e.branch].addr == code[p.addr].i.target
             && c.bbs[e.fallThrough].addr == Wrap(p.addr + code[p.addr].len)
             && Refines(p.es, c.saved[id])
    ensures BookOk(code, cfg, c, sh) && Grows(b, c)
  {
    hide Step, Chain, Refines, DynamicJump, CapturedCond, BranchOk, ReturnOk, ClosedOk, TrailOk, Slice, Fits, Holds;
    hide SlicesDisjoint;
    assert Grows(b, c);
    BranchedOk(code, cfg, b, c, k, sh);
    BranchStack(b, c, k, first, second);
    assert Closes(b, c, k);
    ClosesKeeps(code, cfg, b, c, k, sh);
  }

  lemma BranchStack(b: Book, c: Book, k: nat, first: nat, second: nat)
    requires b.stack != [] && b.stack[|b.stack| - 1] == k && c.stack == b.stack[..|b.stack| - 1] + [first, second]
    ensures forall j :: j in b.stack && j != k ==> j in c.stack
    ensures first in c.stack && second in c.stack
    ensures forall j :: j in c.stack ==> j in b.stack || j == first || j == second
  {
    assert b.stack == b.stack[..|b.stack| - 1] + [k];
    assert c.stack[|c.stack| - 1] == second && c.stack[|c.stack| - 2] == first;
  }

  /** What the invariant says about the block being captured. */
  lemma CurrentFacts(code: Code, cfg: Config, b: Book, k: nat, sh: Shape)
    requires BookOk(code, cfg, b, sh) && b.cur == Some(k)
    ensures k < |b.bbs| == |b.trails| && KeysUnique(b.bbs) && b.trails[k].es.Valid() && Fits(b.trails[k].es, sh)
    ensures CodeValid(code)
    ensures b.stack != [] && b.stack[|b.stack| - 1] == k
    ensures forall i :: 0 <= i < |b.saved| ==> Fits(b.saved[i], sh)
  {
    hide Step, Chain, Refines, BranchOk, ReturnOk, ClosedOk, Slice, SlicesDisjoint;
  }

  lemma StackFacts(code: Code, cfg: Config, b: Book, sh: Shape)
    requires BookOk(code, cfg, b, sh) && b.stack != []
    ensures var k := b.stack[|b.stack| - 1];
            k < |b.bbs| == |b.trails| && b.bbs[k].esID < |b.saved| && Fits(b.saved[b.bbs[k].esID], sh)
  {
    hide Step, Chain, Refines, BranchOk, ReturnOk, ClosedOk, Slice, SlicesDisjoint, KeysUnique, Fits;
  }

  lemma AllClosed(code: Code, cfg: Config, b: Book, sh: Shape)
    requires BookOk(code, cfg, b, sh) && b.stack == [] && b.cur == None
    ensures Complete(b)
  {
    hide Step, Chain, Refines, BranchOk, ReturnOk, ClosedOk, Slice, SlicesDisjoint, KeysUnique, Fits;
  }

  lemma CloneFits(es: EState, live: nat, sh: Shape)
    requires Fits(es, sh)
    ensures Fits(Clone(es, live), sh)
  {}

  /** A state found equal to a saved one describes no more than it; both have the same stack top. */
  lemma SavedRefined(es: EState, saved: EState, sh: Shape)
    requires Fits(es, sh) && Fits(saved, sh) && |es.stack| == sh.size && EsIsEqual(es, saved)
    ensures Refines(es, saved)
  {
    EqualRefines(es, saved);
  }

  /** Emulation starts in a single block. */
  lemma FirstBlock(code: Code, cfg: Config, b: Book, sh: Shape)
    requires CodeValid(code) && |b.saved| == 1 && Fits(b.saved[0], sh)
    requires |b.bbs| == 1 == |b.trails|
    requires b.bbs[0] == CBB(b.bbs[0].addr, 0, 0, |InitCode(cfg, 0)|, Open, false) && b.instrs == InitCode(cfg, 0)
    requires b.cur == Some(0) && b.stack == [0]
    requires Fits(b.trails[0].es, sh) && Refines(b.saved[0], b.trails[0].es)
    requires b.trails[0] == TrailAt(b.trails[0].es, b.bbs[0].addr)
    ensures BookOk(code, cfg, b, sh)
  {
    hide Step, Refines, Fits;
    assert Slice(b, 0) == InitCode(cfg, 0);
    assert Chain(code, cfg, b.trails[0], b.bbs[0].addr, InitCode(cfg, 0), Slice(b, 0));
    hide Chain;
  }

  /** When everything is captured: every block ends in a return, or in a jump whose successors are in the table,
      at the addresses of the jump's target and of the next instruction, with a common saved state; no key
      occurs twice, and no two blocks share captured instructions. */
  lemma WorklistClosed(code: Code, cfg: Config, b: Book, sh: Shape)
    requires BookOk(code, cfg, b, sh) && Complete(b)
    ensures KeysUnique(b.bbs) && SlicesDisjoint(b.bbs)
    ensures forall k :: 0 <= k < |b.bbs| ==>
              match b.bbs[k].end
              case Open => false
              case Returns => true
              case Branches(cond, br, ft) =>
                && br < |b.bbs| && ft < |b.bbs| && b.bbs[br].esID == b.bbs[ft].esID < |b.saved|
                && exists a: Word :: a in code && code[a].i.Jcc? && cond == CapturedCond(code[a].i.cond)
                     && b.bbs[br].addr == code[a].i.target && b.bbs[ft].addr == Wrap(a + code[a].len)
  {
    hide Chain, Refines, ReturnOk, TrailOk, Slice, KeysUnique, SlicesDisjoint, CurrentOk, CapturedCond, DynamicJump;
    forall k | 0 <= k < |b.bbs| && b.bbs[k].end.Branches?
      ensures var e := b.bbs[k].end;
              && e.branch < |b.bbs| && e.fallThrough < |b.bbs|
              && b.bbs[e.branch].esID == b.bbs[e.fallThrough].esID < |b.saved|
              && exists a: Word :: a in code && code[a].i.Jcc? && e.cond == CapturedCond(code[a].i.cond)
                   && b.bbs[e.branch].addr == code[a].i.target && b.bbs[e.fallThrough].addr == Wrap(a + code[a].len)
    {
      assert ClosedOk(code, cfg, b, k, sh);
      var a := b.trails[k].addr;
      assert a in code && code[a].i.Jcc?;
    }
  }
}
