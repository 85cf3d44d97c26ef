/** The bytes of the rewritten function, fetched, decoded and executed, against the original function. */
module EndToEnd {
  import opened Machine
  import opened Emulator
  import opened Relation
  import opened Simulation
  import opened Ledger
  import opened Engine
  import opened Specialise
  import opened Bytes
  import opened ModRM
  import opened Codec
  import opened Layout
  import opened BlockCodec

  // ----- a processor that executes bytes

  datatype BConf = Fetch(pc: nat, m: Mach) | Done(m: Mach) | Fault

  /** Condition by its number in the opcode; the two on parity are not modelled. */
  predicate HoldsNo(n: nat, f: Flags) {
    match n
    case 0 => f.of
    case 1 => !f.of
    case 2 => f.cf
    case 3 => !f.cf
    case 4 => f.zf
    case 5 => !f.zf
    case 6 => f.cf || f.zf
    case 7 => !f.cf && !f.zf
    case 8 => f.sf
    case 9 => !f.sf
    case 12 => f.sf != f.of
    case 13 => f.sf == f.of
    case 14 => f.zf || f.sf != f.of
    case 15 => !f.zf && f.sf == f.of
    case _ => false
  }

  lemma HoldsByNo(c: Cond, f: Flags)
    ensures HoldsNo(CondNo(c), f) == Holds(c, f)
  {}

  function Goto(a: int, m: Mach): BConf { if a < 0 then Fault else Fetch(a, m) }

  /** One instruction of the rewritten function, whose code is at the bottom of the address space. */
  function ByteStep(code: seq<Byte>, c: BConf): (r: BConf)
    requires c.Fetch? ==> c.m.Valid()
    ensures r.Fetch? ==> r.m.Valid()
  {
    if !c.Fetch? then c
    else match Decode(code, c.pc)
      case Some(Read(x, next)) =>
        if IsRet(x) then Done(c.m)
        else if x.Sized? && x.z == S64 && InstrValid(x.i) then Fetch(next, Exec(c.m, x.i, 0))
        else Fault
      case None =>
        match JccAt(code, c.pc)
        case Some(j) => Goto(if HoldsNo(j.cond, c.m.flags) then j.target else j.next, c.m)
        case None =>
          match JmpAt(code, c.pc)
          case Some(a) => Goto(a, c.m)
          case None => Fault
  }

  function ByteRun(code: seq<Byte>, c: BConf, n: nat): (r: BConf)
    requires c.Fetch? ==> c.m.Valid()
    ensures r.Fetch? ==> r.m.Valid()
  {
    if n == 0 then c else ByteStep(code, ByteRun(code, c, n - 1))
  }

  lemma {:induction false} ByteRunAdd(code: seq<Byte>, c: BConf, n: nat, k: nat)
    requires c.Fetch? ==> c.m.Valid()
    ensures ByteRun(code, c, n + k) == ByteRun(code, ByteRun(code, c, n), k)
  {
    hide ByteStep;
    if k > 0 { ByteRunAdd(code, c, n, k - 1); }
  }

  lemma {:induction false} DoneStays(code: seq<Byte>, m: Mach, k: nat)
    ensures ByteRun(code, Done(m), k) == Done(m)
  {
    hide Decode, JccAt, JmpAt, Exec, HoldsNo;
    if k > 0 { DoneStays(code, m, k - 1); }
  }

  // ----- straight-line code

  /** Captured instructions have 64-bit operands. */
  function Wide(code: seq<Instr>): (r: seq<Insn>)
    ensures |r| == |code| && forall k :: 0 <= k < |r| ==> r[k] == Sized(S64, code[k])
  {
    seq(|code|, k requires 0 <= k < |code| => Sized(S64, code[k]))
  }

  predicate Emits(code: seq<Instr>) { Generates(Wide(code)) }

  /** Bytes of captured instructions. */
  function Bytecode(code: seq<Instr>): (r: seq<seq<Byte>>)
    requires Emits(code)
    ensures |r| == |code|
  {
    Encoded(Wide(code))
  }

  ghost predicate SameState(s: Mach, t: Mach) { s.Valid() && t.Valid() && s.reg == t.reg && s.mem == t.mem }

  predicate SetsFlags(i: Instr) { i.Cmp? || (i.Alu? && i.op != Imul) }

  /** The flags after the code do not depend on how registers are cleared in it. */
  predicate KeepsFlags(code: seq<Instr>)
    requires AllValid(code)
  {
    code == [] ||
    var i := code[|code| - 1];
    SetsFlags(i) || (!Clears(Sized(S64, i)) && KeepsFlags(code[..|code| - 1]))
  }

  /** An instruction in normal form, executed in a state that may differ in flags. */
  lemma NormStep(s: Mach, t: Mach, i: Instr)
    requires SameState(s, t) && InstrValid(i)
    ensures Norm(Sized(S64, i)).Sized? && InstrValid(Norm(Sized(S64, i)).i)
    ensures SameState(Exec(s, i, 0), Exec(t, Norm(Sized(S64, i)).i, 0))
    ensures SetsFlags(i) || (!Clears(Sized(S64, i)) && s.flags == t.flags) ==>
              Exec(t, Norm(Sized(S64, i)).i, 0).flags == Exec(s, i, 0).flags
  {
    NormMeans(t, i, 0);
    FlagsUnread(s, t, i);
  }

  lemma FlagsUnread(s: Mach, t: Mach, i: Instr)
    requires SameState(s, t) && InstrValid(i)
    ensures SameState(Exec(s, i, 0), Exec(t, i, 0))
    ensures SetsFlags(i) || s.flags == t.flags ==> Exec(t, i, 0).flags == Exec(s, i, 0).flags
  {
    hide Value, Assign, Result, ResultFlags, EffAddr;
    match i
    case Mov(d, o) => SameOperand(s, t, d); SameOperand(s, t, o);
    case Alu(op, d, o) => SameOperand(s, t, d); SameOperand(s, t, o); FlagsOf(op, s, t, Value(s, d, 0), Value(s, o, 0));
    case Cmp(d, o) => SameOperand(s, t, d); SameOperand(s, t, o); FlagsOf(Sub, s, t, Value(s, d, 0), Value(s, o, 0));
    case Lea(r, m) => SameOperand(s, t, R(r)); SameOperand(s, t, M(m));
    case _ =>
  }

  lemma SameOperand(s: Mach, t: Mach, o: Operand)
    requires SameState(s, t) && OperandValid(o)
    ensures Value(s, o, 0) == Value(t, o, 0) && (o.M? ==> EffAddr(s, o.m, 0) == EffAddr(t, o.m, 0))
    ensures forall v: Word :: SameState(Assign(s, o, v, 0), Assign(t, o, v, 0))
  {}

  lemma FlagsOf(op: AluOp, s: Mach, t: Mach, a: Word, b: Word)
    ensures op != Imul || s.flags == t.flags ==> ResultFlags(op, a, b, s.flags) == ResultFlags(op, a, b, t.flags)
  {
    hide Result;
  }

  predicate NoRet(code: seq<Instr>) { forall k :: 0 <= k < |code| ==> code[k] != Ret }

  ghost predicate Arrives(m: seq<Byte>, p: nat, t: Mach, code: seq<Instr>, n: nat, s': Mach)
    requires t.Valid() && Emits(code)
  {
    ByteRun(m, Fetch(p, t), n) == Fetch(p + |Flat(Bytecode(code))|, s')
  }

  /** Executing the bytes of captured code does what the code does. */
  lemma {:induction false} RunsCode(m: seq<Byte>, p: nat, code: seq<Instr>, s: Mach) returns (n: nat, t: Mach)
    requires Emits(code) && NoRet(code) && s.Valid() && Has(m, p, Flat(Bytecode(code)))
    ensures Arrives(m, p, s, code, n, t) && AllValid(code) && SameState(ExecAll(s, code), t)
    ensures KeepsFlags(code) ==> t == ExecAll(s, code)
    decreases |code|
  {
    hide Generate, Norm, Exec, ByteStep, Has, Clears, SetsFlags;
    if code == [] {
      n, t := 0, s;
    } else {
      var init, i := code[..|code| - 1], code[|code| - 1];
      EncodedLast(code);
      SplitHas(m, p, Flat(Bytecode(init)), Generate(Sized(S64, i)).value);
      n, t := RunsCode(m, p, init, s);
      var q := p + |Flat(Bytecode(init))|;
      NormStep(ExecAll(s, init), t, i);
      ShortEnough(Sized(S64, i));
      if Generate(Sized(S64, i)).value == [] {
        HintNothing(ExecAll(s, init), i);
        NotClearing(i);
      } else {
        FetchesNext(m, q, i, t);
        n := n + 1;
        t := Exec(t, Norm(Sized(S64, i)).i, 0);
      }
    }
  }

  /** One instruction from its bytes. */
  lemma FetchesNext(m: seq<Byte>, q: nat, i: Instr, t: Mach)
    requires t.Valid() && InstrValid(i) && i != Ret && InsnValid(Sized(S64, i))
    requires Generate(Sized(S64, i)).Some? && Generate(Sized(S64, i)).value != []
    requires Has(m, q, Generate(Sized(S64, i)).value) && Norm(Sized(S64, i)).Sized? && InstrValid(Norm(Sized(S64, i)).i)
    ensures ByteStep(m, Fetch(q, t)) ==
            Fetch(q + |Generate(Sized(S64, i)).value|, Exec(t, Norm(Sized(S64, i)).i, 0))
  {
    hide Generate, Norm, Exec, Decode, Has;
    InstrRoundTrip(m, q, Sized(S64, i));
    NormRet(Sized(S64, i));
    NormValid(i);
  }

  lemma HintNothing(s: Mach, i: Instr)
    requires s.Valid() && i in {HintCall, HintRet}
    ensures Exec(s, i, 0) == s
  {}

  lemma NotClearing(i: Instr)
    requires i in {HintCall, HintRet}
    ensures !SetsFlags(i)
  {}

  lemma EncodedLast(code: seq<Instr>)
    requires Emits(code) && code != []
    ensures var init := code[..|code| - 1];
            Emits(init) && Flat(Bytecode(code)) == Flat(Bytecode(init)) + Generate(Sized(S64, code[|code| - 1])).value
  {
    var init := code[..|code| - 1];
    assert Wide(init) == Wide(code)[..|code| - 1];
    assert Emits(init) by { assert forall k :: 0 <= k < |init| ==> Wide(init)[k] == Wide(code)[k]; }
    assert Bytecode(code)[..|code| - 1] == Bytecode(init);
  }

  // ----- captured code contains no return

  lemma StepNoRet(es: EState, cfg: Config, i: Instr, ip: Word, rd: Word -> Word)
    requires es.Valid() && InstrValid(i) && Step(es, cfg, i, ip, rd).Ok?
    ensures NoRet(Step(es, cfg, i, ip, rd).value.code)
  {
    hide SetOp, OpValue, Fold, OpAddr, FoldMem, Tracked, FlagsAfter;
  }

  lemma ChainStart(code: Code, cfg: Config, p: Trail, a: Word, init: seq<Instr>, caps: seq<Instr>)
    requires Chain(code, cfg, p, a, init, caps) && p.steps == []
    ensures caps == init
  {}

  lemma {:induction false} ChainNoRet(code: Code, cfg: Config, p: Trail, a: Word, init: seq<Instr>, caps: seq<Instr>)
    requires Chain(code, cfg, p, a, init, caps) && NoRet(init)
    ensures NoRet(caps)
    decreases |p.steps|
  {
    hide Step, FlagsKept, NextAddr, Chain;
    if p.steps == [] {
      ChainStart(code, cfg, p, a, init, caps);
    } else {
      LastStep(code, cfg, p, a, init, caps);
    }
    if p.steps != [] {
      var q := p.steps[|p.steps| - 1];
      var n := |CapturedBy(code, cfg, q)|;
      ChainNoRet(code, cfg, Before(p), a, init, caps[..|caps| - n]);
      var d := code[q.addr];
      StepNoRet(q.es, cfg, d.i, Wrap(q.addr + d.len), q.rd);
      assert caps == caps[..|caps| - n] + caps[|caps| - n..];
    }
  }

  lemma BranchShape(code: Code, cfg: Config, b: Book, k: nat, sh: Shape)
    requires k < |b.bbs| && ClosedOk(code, cfg, b, k, sh) && b.bbs[k].end.Branches?
    ensures NoRet(Slice(b, k))
  {
    hide Chain, Slice;
    ChainNoRet(code, cfg, b.trails[k], b.bbs[k].addr, InitCode(cfg, k), Slice(b, k));
  }

  predicate ReturnsOnce(code: seq<Instr>) {
    code != [] && code[|code| - 1] == Ret && NoRet(code[..|code| - 1])
  }

  lemma RetOnce(es: EState, cfg: Config)
    requires es.Valid()
    ensures ReturnsOnce(StepRet(es, cfg).code)
  {}

  lemma ReturnsBehind(code: seq<Instr>, n: nat)
    requires n <= |code| && NoRet(code[..n]) && ReturnsOnce(code[n..])
    ensures ReturnsOnce(code)
  {
    var ret := code[n..];
    forall j | 0 <= j < |code| - 1 ensures code[j] != Ret {
      if j < n { assert code[..n][j] != Ret; } else { assert ret[..|ret| - 1][j - n] != Ret; }
    }
  }

  lemma ReturnShape(code: Code, cfg: Config, b: Book, k: nat, sh: Shape)
    requires k < |b.bbs| && ClosedOk(code, cfg, b, k, sh) && b.bbs[k].end.Returns?
    ensures ReturnsOnce(Slice(b, k))
  {
    hide Chain, Slice, StepRet, ReturnsOnce, NoRet;
    var p, caps := b.trails[k], Slice(b, k);
    var ret := StepRet(p.es, cfg).code;
    RetOnce(p.es, cfg);
    var n := |caps| - |ret|;
    InitNoRet(cfg, k);
    ChainNoRet(code, cfg, p, b.bbs[k].addr, InitCode(cfg, k), caps[..n]);
    assert caps[n..] == ret;
    ReturnsBehind(caps, n);
  }

  lemma InitNoRet(cfg: Config, k: nat)
    ensures NoRet(InitCode(cfg, k))
  {}

  // ----- blocks in memory

  /** The captured code of a block can be encoded, and its flags survive the encoding where they are tested. */
  predicate Encodes(b: Book, k: nat)
    requires k < |b.bbs|
  {
    && SliceOk(b, k) && Emits(Slice(b, k))
    && (b.bbs[k].end.Branches? ==> AllValid(Slice(b, k)) && KeepsFlags(Slice(b, k)))
  }

  predicate BookEncodes(b: Book) { forall k :: 0 <= k < |b.bbs| ==> Encodes(b, k) }

  /** The blocks handed to the generator. */
  function FromBook(b: Book): (bs: seq<Block>)
    requires BookEncodes(b)
    ensures |bs| == |b.bbs|
  {
    seq(|b.bbs|, k requires 0 <= k < |b.bbs| => assert Encodes(b, k); Block(Bytecode(Slice(b, k)), b.bbs[k].end))
  }

  /** Captured blocks at their places in memory, as the generator leaves them. */
  ghost predicate InMemory(code: Code, cfg: Config, b: Book, sh: Shape, m: seq<Byte>, addr: seq<Info>) {
    && BookEncodes(b) && |b.bbs| > 0 && |addr| == |b.bbs|
    && (forall j :: 0 <= j < |b.bbs| ==> ClosedOk(code, cfg, b, j, sh))
    && BlocksOk(FromBook(b))
    && forall k: nat :: Reachable(FromBook(b), k) ==>
         k < |addr| && Has(m, addr[k].addr2, Flat(FromBook(b)[k].code)) && Linked(FromBook(b), m, addr, k)
  }

  ghost predicate Matches(addr: seq<Info>, r: RConf, c: BConf) {
    match r
    case InBlock(k, s) => k < |addr| && addr[k].addr2 >= 0 && s.Valid() && c == Fetch(addr[k].addr2, s)
    case Returned(s) => c.Done? && SameState(s, c.m)
    case Broken => false
  }

  lemma JumpsAreNoInstr(m: seq<Byte>, p: nat)
    ensures JccAt(m, p).Some? ==> Decode(m, p) == None && JmpAt(m, p) == None
    ensures JmpAt(m, p).Some? ==> Decode(m, p) == None
  {
    hide ReadImm8, ReadImm, ReadImm64, ArithOf, Signed32, Parse, Full;
  }

  lemma {:induction false} OneStep(m: seq<Byte>, c: BConf)
    requires c.Fetch? ==> c.m.Valid()
    ensures ByteRun(m, c, 1) == ByteStep(m, c)
  {
    assert ByteRun(m, c, 0) == c;
  }

  /** From p control arrives at a, by at most one jump instruction. */
  lemma {:induction false} Lands(m: seq<Byte>, p: nat, a: nat, s: Mach) returns (n: nat)
    requires LeadsTo(m, p, a) && s.Valid()
    ensures ByteRun(m, Fetch(p, s), n) == Fetch(a, s)
  {
    hide Decode, JccAt;
    n := 0;
    if p != a {
      JumpsAreNoInstr(m, p);
      OneStep(m, Fetch(p, s));
      n := 1;
    }
  }

  /** The jumps behind a block. */
  lemma {:induction false} TakesJump(m: seq<Byte>, q: nat, c: Cond, j: Jump, br: nat, ft: nat, s: Mach) returns (n: nat)
    requires s.Valid() && JccAt(m, q) == Some(j) && j.cond == CondNo(c) && j.target == br && LeadsTo(m, j.next, ft)
    ensures n > 0 && ByteRun(m, Fetch(q, s), n) == Fetch(if Holds(c, s.flags) then br else ft, s)
  {
    hide Decode, JmpAt, LeadsTo, Exec, ByteRun;
    JumpsAreNoInstr(m, q);
    HoldsByNo(c, s.flags);
    OneStep(m, Fetch(q, s));
    n := 1;
    if !Holds(c, s.flags) {
      var k := Lands(m, j.next, ft, s);
      ByteRunAdd(m, Fetch(q, s), 1, k);
      n := 1 + k;
    }
  }

  lemma {:induction false} BytesOfBranch(code: Code, cfg: Config, b: Book, sh: Shape, m: seq<Byte>, addr: seq<Info>,
                                         k: nat, s: Mach)
    returns (n: nat, c: BConf)
    requires BookEncodes(b) && BlocksOk(FromBook(b)) && |addr| == |b.bbs| && k < |b.bbs| && s.Valid() && Encodes(b, k)
    requires ClosedOk(code, cfg, b, k, sh) && b.bbs[k].end.Branches?
    requires Has(m, addr[k].addr2, Flat(Bytecode(Slice(b, k)))) && Linked(FromBook(b), m, addr, k)
    requires var e := b.bbs[k].end;
             e.branch < |b.bbs| && e.fallThrough < |b.bbs| && addr[e.branch].addr2 >= 0 &&
               addr[e.fallThrough].addr2 >= 0
    ensures n > 0 && ByteRun(m, Fetch(addr[k].addr2, s), n) == c && Matches(addr, ResStep(b, InBlock(k, s)), c)
  {
    hide ClosedOk, Has, Flat, JccAt, JmpAt, ExecAll, KeepsFlags, Generate, BlocksOk, Slice, NoRet, Emits, Wide;
    hide ByteStep, ByteRun;
    var caps, e, p := Slice(b, k), b.bbs[k].end, addr[k].addr2;
    BranchShape(code, cfg, b, k, sh);
    assert p >= 0 by { HasAbove(m, p, Flat(Bytecode(caps))); }
    var n1, t := RunsCode(m, p, caps, s);
    var q := p + |Flat(Bytecode(caps))|;
    var n2 := TakesJump(m, q, e.cond, JccAt(m, q).value, addr[e.branch].addr2, addr[e.fallThrough].addr2, t);
    ByteRunAdd(m, Fetch(p, s), n1, n2);
    n := n1 + n2;
    c := ByteRun(m, Fetch(p, s), n);
  }

  lemma HasAbove(m: seq<Byte>, p: int, s: seq<Byte>)
    requires Has(m, p, s)
    ensures p >= 0
  {}

  lemma {:induction false} BytesOfReturn(code: Code, cfg: Config, b: Book, sh: Shape, m: seq<Byte>, addr: seq<Info>,
                                         k: nat, s: Mach)
    returns (n: nat, c: BConf)
    requires |addr| == |b.bbs| && k < |b.bbs| && s.Valid() && Encodes(b, k)
    requires ClosedOk(code, cfg, b, k, sh) && b.bbs[k].end.Returns?
    requires Has(m, addr[k].addr2, Flat(Bytecode(Slice(b, k)))) && addr[k].addr2 >= 0
    ensures n > 0 && ByteRun(m, Fetch(addr[k].addr2, s), n) == c && Matches(addr, ResStep(b, InBlock(k, s)), c)
  {
    hide ClosedOk, Has, Flat, Decode, ExecAll, KeepsFlags, Generate, Slice;
    var caps, p := Slice(b, k), addr[k].addr2;
    ReturnShape(code, cfg, b, k, sh);
    RetBytes();
    var init := caps[..|caps| - 1];
    EncodedLast(caps);
    SplitHas(m, p, Flat(Bytecode(init)), Generate(Sized(S64, Ret)).value);
    var n1, t := RunsCode(m, p, init, s);
    InstrRoundTrip(m, p + |Flat(Bytecode(init))|, Sized(S64, Ret));
    n := n1 + 1;
    c := ByteRun(m, Fetch(p, s), n);
    LastIsRet(s, caps);
  }

  lemma RetBytes()
    ensures Generate(Sized(S64, Ret)) == Some([0xC3]) && Norm(Sized(S64, Ret)) == Sized(S64, Ret)
  {}

  lemma LastIsRet(s: Mach, caps: seq<Instr>)
    requires s.Valid() && AllValid(caps) && caps != [] && caps[|caps| - 1] == Ret
    ensures AllValid(caps[..|caps| - 1]) && ExecAll(s, caps) == ExecAll(s, caps[..|caps| - 1])
  {
    hide Exec;
    RetNothing(ExecAll(s, caps[..|caps| - 1]));
  }

  // ----- whole runs

  lemma ByteBlock(code: Code, cfg: Config, b: Book, sh: Shape, m: seq<Byte>, addr: seq<Info>, k: nat, s: Mach)
    returns (n: nat, c: BConf)
    requires InMemory(code, cfg, b, sh, m, addr) && Reachable(FromBook(b), k) && s.Valid() && k < |addr|
    ensures n > 0 && addr[k].addr2 >= 0 && ByteRun(m, Fetch(addr[k].addr2, s), n) == c
    ensures Matches(addr, ResStep(b, InBlock(k, s)), c)
    ensures ResStep(b, InBlock(k, s)).InBlock? ==> Reachable(FromBook(b), ResStep(b, InBlock(k, s)).k)
  {
    hide Reachable, Has, Linked, Matches, ByteRun, ReturnOk, TrailOk, KeepsFlags, BlocksOk;
    var bs := FromBook(b);
    assert Encodes(b, k) && ClosedOk(code, cfg, b, k, sh);
    assert bs[k] == Block(Bytecode(Slice(b, k)), b.bbs[k].end);
    HasAbove(m, addr[k].addr2, Flat(bs[k].code));
    if b.bbs[k].end.Branches? {
      var e := b.bbs[k].end;
      ReachableStep(bs, k, e.branch);
      ReachableStep(bs, k, e.fallThrough);
      HasAbove(m, addr[e.branch].addr2, Flat(bs[e.branch].code));
      HasAbove(m, addr[e.fallThrough].addr2, Flat(bs[e.fallThrough].code));
      n, c := BytesOfBranch(code, cfg, b, sh, m, addr, k, s);
    } else {
      n, c := BytesOfReturn(code, cfg, b, sh, m, addr, k, s);
    }
  }

  /** After any number of blocks the bytes are where the captured blocks are, at least as many instructions later. */
  lemma {:induction false} BytesFollow(code: Code, cfg: Config, b: Book, sh: Shape, m: seq<Byte>, addr: seq<Info>,
                                       s: Mach, n: nat)
    returns (j: nat)
    requires InMemory(code, cfg, b, sh, m, addr) && s.Valid()
    ensures addr[0].addr2 >= 0
    ensures Matches(addr, ResRun(b, InBlock(0, s), n), ByteRun(m, Fetch(addr[0].addr2, s), j))
    ensures var r := ResRun(b, InBlock(0, s), n);
            (r.InBlock? ==> j >= n && Reachable(FromBook(b), r.k))
    decreases n
  {
    hide Reachable, Has, Linked, BlocksOk, Encodes, ClosedOk, ByteStep, ResStep;
    ReachableRoot(FromBook(b));
    HasAbove(m, addr[0].addr2, Flat(FromBook(b)[0].code));
    if n == 0 {
      j := 0;
    } else {
      j := BytesFollow(code, cfg, b, sh, m, addr, s, n - 1);
      var r := ResRun(b, InBlock(0, s), n - 1);
      if r.InBlock? {
        var k, c := ByteBlock(code, cfg, b, sh, m, addr, r.k, r.m);
        ByteRunAdd(m, Fetch(addr[0].addr2, s), j, k);
        j := j + k;
      } else {
        assert ResStep(b, r) == r by { ReturnedNoStep(b, r); }
      }
    }
  }

  lemma ReturnedNoStep(b: Book, r: RConf)
    requires !r.InBlock?
    ensures ResStep(b, r) == r
  {}

  ghost predicate DoneLike(m: seq<Byte>, start: BConf, t: Mach, j: nat)
    requires start.Fetch? ==> start.m.Valid()
  {
    ByteRun(m, start, j).Done? && SameState(t, ByteRun(m, start, j).m)
  }

  ghost predicate ReturnedLike(b: Book, s: Mach, t: Mach, n: nat)
    requires s.Valid()
  {
    ResRun(b, InBlock(0, s), n).Returned? && SameState(ResRun(b, InBlock(0, s), n).m, t)
  }

  lemma FollowsOnce(code: Code, cfg: Config, b: Book, sh: Shape, m: seq<Byte>, addr: seq<Info>, s: Mach, j: nat)
    requires InMemory(code, cfg, b, sh, m, addr) && |addr| > 0 && addr[0].addr2 >= 0 && s.Valid()
    requires ByteRun(m, Fetch(addr[0].addr2, s), j).Done?
    ensures ReturnedLike(b, s, ByteRun(m, Fetch(addr[0].addr2, s), j).m, j + 1)
  {
    hide InMemory, ByteRun, ResRun, SameState;
    var i := BytesFollow(code, cfg, b, sh, m, addr, s, j + 1);
    DoneOnce(m, Fetch(addr[0].addr2, s), j, i);
  }

  /** The bytes return exactly if the captured blocks do, in the same state but for flags. */
  lemma BytesReturn(code: Code, cfg: Config, b: Book, sh: Shape, m: seq<Byte>, addr: seq<Info>, s: Mach)
    requires InMemory(code, cfg, b, sh, m, addr) && s.Valid()
    ensures |addr| > 0 && addr[0].addr2 >= 0
    ensures forall n: nat :: ResRun(b, InBlock(0, s), n).Returned? ==>
              exists j: nat :: DoneLike(m, Fetch(addr[0].addr2, s), ResRun(b, InBlock(0, s), n).m, j)
    ensures forall j: nat :: ByteRun(m, Fetch(addr[0].addr2, s), j).Done? ==>
              exists n: nat :: ReturnedLike(b, s, ByteRun(m, Fetch(addr[0].addr2, s), j).m, n)
  {
    assert |addr| > 0;
    hide InMemory, ByteRun, ResRun, SameState;
    var j0 := BytesFollow(code, cfg, b, sh, m, addr, s, 0);
    var start := Fetch(addr[0].addr2, s);
    forall n: nat | ResRun(b, InBlock(0, s), n).Returned?
      ensures exists j: nat :: DoneLike(m, start, ResRun(b, InBlock(0, s), n).m, j)
    {
      var j := BytesFollow(code, cfg, b, sh, m, addr, s, n);
      assert DoneLike(m, start, ResRun(b, InBlock(0, s), n).m, j);
    }
    forall j: nat | ByteRun(m, start, j).Done? ensures exists n: nat :: ReturnedLike(b, s, ByteRun(m, start, j).m, n) {
      FollowsOnce(code, cfg, b, sh, m, addr, s, j);
    }
  }

  /** Once done, always done in the same state. */
  lemma DoneOnce(m: seq<Byte>, c: BConf, j: nat, i: nat)
    requires (c.Fetch? ==> c.m.Valid()) && ByteRun(m, c, j).Done?
    ensures i >= j ==> ByteRun(m, c, i) == ByteRun(m, c, j)
    ensures i < j && ByteRun(m, c, i).Done? ==> ByteRun(m, c, i) == ByteRun(m, c, j)
  {
    hide ByteRun;
    if i >= j {
      ByteRunAdd(m, c, j, i - j);
      DoneStays(m, ByteRun(m, c, j).m, i - j);
    } else if ByteRun(m, c, i).Done? {
      ByteRunAdd(m, c, i, j - i);
      DoneStays(m, ByteRun(m, c, i).m, j - i);
    }
  }

  lemma OutcomeOfSame(result: bool, fr: Frame, top: int, s: Mach, t: Mach, t': Mach)
    requires SameState(t, t')
    ensures SameOutcome(result, fr, top, s, t) <==> SameOutcome(result, fr, top, s, t')
  {}

  ghost predicate DoneAs(result: bool, fr: Frame, top: int, m: seq<Byte>, start: BConf, o: Mach, j: nat)
    requires start.Fetch? ==> start.m.Valid()
  {
    ByteRun(m, start, j).Done? && SameOutcome(result, fr, top, o, ByteRun(m, start, j).m)
  }

  ghost predicate HaltedAs(code: Code, result: bool, fr: Frame, top: int, start: Conf, t: Mach, n: nat)
    requires CodeValid(code) && (start.At? ==> start.m.Valid())
  {
    OrigRun(code, start, n).Halted? && SameOutcome(result, fr, top, OrigRun(code, start, n).m, t)
  }

  lemma ToBytes(cfg: Config, b: Book, sh: Shape, fr: Frame, m: seq<Byte>, start: BConf, s: Mach, o: Mach)
    requires s.Valid() && (start.Fetch? ==> start.m.Valid()) && |b.trails| == |b.bbs|
    requires exists i: nat :: ResidualReturns(cfg, b, sh, fr, 0, s, o, i)
    requires forall n: nat :: ResRun(b, InBlock(0, s), n).Returned? ==>
               exists j: nat :: DoneLike(m, start, ResRun(b, InBlock(0, s), n).m, j)
    ensures exists j: nat :: DoneAs(GivesResult(cfg, b), fr, sh.top, m, start, o, j)
  {
    hide ResRun, ByteRun, SameOutcome, SameState;
    var i: nat :| ResidualReturns(cfg, b, sh, fr, 0, s, o, i);
    var r := ResRun(b, InBlock(0, s), i);
    var j: nat :| DoneLike(m, start, r.m, j);
    OutcomeOfSame(GivesResult(cfg, b), fr, sh.top, o, r.m, ByteRun(m, start, j).m);
    assert DoneAs(GivesResult(cfg, b), fr, sh.top, m, start, o, j);
  }

  lemma FromBytes(code: Code, cfg: Config, b: Book, sh: Shape, fr: Frame, f: Word, s: Mach, c: Mach)
    requires s.Valid() && CodeValid(code) && |b.trails| == |b.bbs|
    requires exists i: nat :: ReturnedLike(b, s, c, i)
    requires forall i: nat :: ResRun(b, InBlock(0, s), i).Returned? ==>
               exists n: nat ::
                 OriginalReturns(code, GivesResult(cfg, b), sh, fr, f, s, ResRun(b, InBlock(0, s), i).m, n)
    ensures exists n: nat :: HaltedAs(code, GivesResult(cfg, b), fr, sh.top, At(f, s), c, n)
  {
    hide ResRun, OrigRun, SameOutcome, SameState;
    var i: nat :| ReturnedLike(b, s, c, i);
    var r := ResRun(b, InBlock(0, s), i);
    var n: nat :| OriginalReturns(code, GivesResult(cfg, b), sh, fr, f, s, r.m, n);
    OutcomeOfSame(GivesResult(cfg, b), fr, sh.top, OrigRun(code, At(f, s), n).m, r.m, c);
    assert HaltedAs(code, GivesResult(cfg, b), fr, sh.top, At(f, s), c, n);
  }

  /** The rewritten function, as bytes, is the original function specialised. For every call with the configured
      parameters that keeps to the assumptions on memory accesses: the original returns if and only if the bytes
      return, and then with the same result, stack pointer, preserved registers and memory. */
  lemma Rewritten(code: Code, cfg: Config, b: Book, sh: Shape, f: Word, start: int, par: seq<Word>,
                  parState: seq<CState>, fr: Frame, m: seq<Byte>, addr: seq<Info>, s: Mach)
    requires |par| == |parState| <= 6 && EntryMachine(start, par, parState, fr, s)
    requires CodeValid(code) && s.Valid() && |b.trails| == |b.bbs| && 0 <= start && start + STACK_SIZE < M64
    requires BookOk(code, cfg, b, sh) && Complete(b) && Rooted(b, f, EntryState(start, par, parState))
    requires sh == Shape(STACK_SIZE, start + STACK_SIZE)
    requires FaithfulBook(code, fr.slots, b) && Safely(code, b, fr, 0, s)
    requires InMemory(code, cfg, b, sh, m, addr)
    ensures |addr| > 0 && addr[0].addr2 >= 0
    ensures forall n: nat :: OrigRun(code, At(f, s), n).Halted? ==>
              exists j: nat :: DoneAs(GivesResult(cfg, b), fr, sh.top, m, Fetch(addr[0].addr2, s),
                OrigRun(code, At(f, s), n).m, j)
    ensures forall j: nat :: ByteRun(m, Fetch(addr[0].addr2, s), j).Done? ==>
              exists n: nat :: HaltedAs(code, GivesResult(cfg, b), fr, sh.top, At(f, s),
                ByteRun(m, Fetch(addr[0].addr2, s), j).m, n)
  {
    hide BookOk, EntryMachine, Loaded, InMemory, ByteRun, ResRun, OrigRun, DoneLike, DoneAs, ReturnedLike, HaltedAs,
      ResidualReturns, OriginalReturns, FaithfulBook, Safely, Rooted, EntryState, Complete;
    Specialised(code, cfg, b, sh, f, start, par, parState, fr, s);
    BytesReturn(code, cfg, b, sh, m, addr, s);
    var pc := Fetch(addr[0].addr2, s);
    forall n: nat | OrigRun(code, At(f, s), n).Halted?
      ensures exists j: nat :: DoneAs(GivesResult(cfg, b), fr, sh.top, m, pc, OrigRun(code, At(f, s), n).m, j)
    {
      ToBytes(cfg, b, sh, fr, m, pc, s, OrigRun(code, At(f, s), n).m);
    }
    forall j: nat | ByteRun(m, pc, j).Done?
      ensures exists n: nat :: HaltedAs(code, GivesResult(cfg, b), fr, sh.top, At(f, s), ByteRun(m, pc, j).m, n)
    {
      FromBytes(code, cfg, b, sh, fr, f, s, ByteRun(m, pc, j).m);
    }
  }

  // ----- all calls at once

  /** A call with the configured parameters that keeps to the assumptions. */
  ghost predicate Admitted(code: Code, b: Book, start: int, par: seq<Word>, parState: seq<CState>, fr: Frame, s: Mach)
    requires CodeValid(code) && |par| == |parState| <= 6 && |b.trails| == |b.bbs|
  {
    EntryMachine(start, par, parState, fr, s) && FaithfulBook(code, fr.slots, b) && Safely(code, b, fr, 0, s)
  }

  /** Called in state s, the original function at f and the bytes at a return together, with one outcome. */
  ghost predicate SameRuns(code: Code, result: bool, f: Word, fr: Frame, top: int, m: seq<Byte>, a: nat, s: Mach)
    requires CodeValid(code) && s.Valid()
  {
    && (forall n: nat :: OrigRun(code, At(f, s), n).Halted? ==>
          exists j: nat :: DoneAs(result, fr, top, m, Fetch(a, s), OrigRun(code, At(f, s), n).m, j))
    && (forall j: nat :: ByteRun(m, Fetch(a, s), j).Done? ==>
          exists n: nat :: HaltedAs(code, result, fr, top, At(f, s), ByteRun(m, Fetch(a, s), j).m, n))
  }

  /** The bytes at a are the function at f, specialised. */
  ghost predicate Specialises(code: Code, cfg: Config, b: Book, f: Word, start: int, par: seq<Word>,
                              parState: seq<CState>, m: seq<Byte>, a: nat)
    requires CodeValid(code) && |par| == |parState| <= 6 && |b.trails| == |b.bbs|
  {
    forall fr: Frame, s: Mach :: s.Valid() && Admitted(code, b, start, par, parState, fr, s) ==>
      SameRuns(code, GivesResult(cfg, b), f, fr, start + STACK_SIZE, m, a, s)
  }

  /** Blocks captured from the configured entry, and laid out in memory, are the function specialised. */
  lemma RewrittenAlways(code: Code, cfg: Config, b: Book, sh: Shape, f: Word, start: int, par: seq<Word>,
                        parState: seq<CState>, m: seq<Byte>, addr: seq<Info>)
    requires |par| == |parState| <= 6 && CodeValid(code) && |b.trails| == |b.bbs|
    requires 0 <= start && start + STACK_SIZE < M64 && sh == Shape(STACK_SIZE, start + STACK_SIZE)
    requires BookOk(code, cfg, b, sh) && Complete(b) && Rooted(b, f, EntryState(start, par, parState))
    requires InMemory(code, cfg, b, sh, m, addr) && |addr| > 0 && addr[0].addr2 >= 0
    ensures Specialises(code, cfg, b, f, start, par, parState, m, addr[0].addr2)
  {
    hide BookOk, EntryMachine, InMemory, ByteRun, OrigRun, DoneAs, HaltedAs, FaithfulBook, Safely, Rooted, EntryState,
         Complete, GivesResult;
    forall fr: Frame, s: Mach | s.Valid() && Admitted(code, b, start, par, parState, fr, s)
      ensures SameRuns(code, GivesResult(cfg, b), f, fr, start + STACK_SIZE, m, addr[0].addr2, s)
    {
      Rewritten(code, cfg, b, sh, f, start, par, parState, fr, m, addr, s);
    }
  }
}
