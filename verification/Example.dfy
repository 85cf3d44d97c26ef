/** An example for the theorems on rewritten functions: the larger of two numbers, specialised for seven as the second
    one. The direction of its jump is unknown. */
module Example {
  import opened Machine
  import opened Emulator
  import opened Relation
  import opened SavedState
  import opened Simulation
  import opened Ledger
  import opened EmuObject
  import opened Engine
  import opened Specialise
  import opened Bytes
  import opened Layout
  import Vex
  import opened Codec
  import opened BlockCodec
  import opened EndToEnd
  import opened Rewrite

  // ----- the function, and what is captured of it

  const FUN: Word := 16
  const RETURN: Word := 27

  /** 16: mov rax, rdi. 19: cmp rdi, rsi. 22: jge 27. 24: mov rax, rsi. 27: ret. */
  function Larger(): (code: Code)
    ensures CodeValid(code)
  {
    map[FUN := Decoded(Mov(R(RAX), R(RDI)), 3), 19 := Decoded(Cmp(R(RDI), R(RSI)), 3),
        22 := Decoded(Jcc(CGE, RETURN), 2), 24 := Decoded(Mov(R(RAX), R(RSI)), 3), RETURN := Decoded(Ret, 1)]
  }

  const PLAIN: Config := Config(false, false, false)

  const PAR: seq<Word> := [0, 7]
  const PAR_STATE: seq<CState> := [Dyn, Static]

  function Nothing(): Word -> Word { (a: Word) => 0 }

  predicate StartOk(start: int) { 0 <= start && start + STACK_SIZE < M64 }

  function Entry(start: int): (es: EState)
    requires StartOk(start)
    ensures es.Valid() && es.accessed == es.Top() == start + STACK_SIZE && |es.stack| == STACK_SIZE
  {
    EntryState(start, PAR, PAR_STATE)
  }

  /** Behind the move. */
  function Copied(start: int): (es: EState)
    requires StartOk(start)
    ensures es.Valid() && es.accessed == es.Top() == start + STACK_SIZE && |es.stack| == STACK_SIZE
  {
    var es := Entry(start);
    es.(reg := es.reg[RAX := es.reg[RDI]], rs := es.rs[RAX := Dyn])
  }

  /** Behind the comparison. */
  function Tested(start: int): (es: EState)
    requires StartOk(start)
    ensures es.Valid() && es.accessed == es.Top() == start + STACK_SIZE && |es.stack| == STACK_SIZE
  {
    Copied(start).(flags := SubFlags(0, 7), fs := AllFlags(Dyn))
  }

  /** Behind the other move, which is not captured. */
  function Replaced(start: int): (es: EState)
    requires StartOk(start)
    ensures es.Valid() && es.accessed == es.Top() == start + STACK_SIZE && |es.stack| == STACK_SIZE
  {
    var es := Tested(start);
    es.(reg := es.reg[RAX := 7], rs := es.rs[RAX := Static])
  }

  lemma EntryRegs(start: int)
    requires StartOk(start)
    ensures var es := Entry(start);
            && es.rs[RDI] == Dyn && es.reg[RDI] == 0 && es.rs[RSI] == Static && es.reg[RSI] == 7
            && es.rs[RSP] == StackRel && es.reg[RSP] == start + STACK_SIZE
            && es.fs == AllFlags(Dead) && forall r <- CALLEE_SAVED :: es.rs[r] == Dyn
  {
    var e := Initial(STACK_SIZE, start);
    assert PAR[..1] == [0] && PAR_STATE[..1] == [Dyn] && PAR[..1][..0] == [] && PAR_STATE[..1][..0] == [];
    assert Loaded(e, PAR[..1][..0], PAR_STATE[..1][..0]) == e;
    assert Loaded(e, PAR[..1], PAR_STATE[..1]) == e.(reg := e.reg[RDI := 0], rs := e.rs[RDI := Dyn]);
  }

  // ----- the captured blocks

  const CMP_CODE: seq<Instr> := [Mov(R(RAX), R(RDI)), Cmp(R(RDI), I64(7))]
  const RET_CODE: seq<Instr> := [Ret]
  const SEVEN_CODE: seq<Instr> := [Mov(R(RAX), I64(7)), Ret]

  function FirstTrail(start: int): Trail
    requires StartOk(start)
  {
    var l := StartLive(Entry(start));
    Trail(Entry(start), [TStep(Entry(start), FUN, l, Nothing()), TStep(Copied(start), 19, l, Nothing())],
          Tested(start), 22, Live(ALL_FLAGS, ALL_FLAGS))
  }

  function SevenTrail(start: int): Trail
    requires StartOk(start)
  {
    var es := Tested(start);
    Trail(es, [TStep(es, 24, StartLive(es), Nothing())], Replaced(start), RETURN, StartLive(es))
  }

  /** Three blocks: up to the jump, the return it leads to, and the return of seven. */
  function LargerBook(start: int): (b: Book)
    requires StartOk(start)
    ensures |b.bbs| == 3 && |b.trails| == 3
  {
    Book(CMP_CODE + RET_CODE + SEVEN_CODE,
         [CBB(FUN, 0, 0, 2, Branches(CGE, 1, 2), false), CBB(RETURN, 1, 2, 1, Returns, false),
          CBB(24, 1, 3, 2, Returns, false)],
         None, [], [Clone(Entry(start), 1), Clone(Tested(start), 1)],
         [FirstTrail(start), TrailAt(Tested(start), RETURN), SevenTrail(start)])
  }

  function LargerShape(start: int): Shape { Shape(STACK_SIZE, start + STACK_SIZE) }

  lemma Slices(start: int)
    requires StartOk(start)
    ensures var b := LargerBook(start);
            && SliceOk(b, 0) && SliceOk(b, 1) && SliceOk(b, 2)
            && Slice(b, 0) == CMP_CODE && Slice(b, 1) == RET_CODE && Slice(b, 2) == SEVEN_CODE
  {
    hide Entry, Tested, Clone, FirstTrail, SevenTrail;
  }

  lemma MoveFollows(start: int)
    requires StartOk(start)
    ensures var l := StartLive(Entry(start));
            Follows(Larger(), PLAIN, TStep(Entry(start), FUN, l, Nothing()), Copied(start), 19, l, [CMP_CODE[0]])
  {
    hide StartLive, Entry;
    EntryRegs(start);
  }

  lemma CompareFollows(start: int)
    requires StartOk(start)
    ensures var l := StartLive(Entry(start));
            Follows(Larger(), PLAIN, TStep(Copied(start), 19, l, Nothing()), Tested(start), 22,
                    Live(ALL_FLAGS, ALL_FLAGS), [CMP_CODE[1]])
  {
    hide StartLive, SubFlags, Entry;
    EntryRegs(start);
    var es := Copied(start);
    assert CaptureCmp(es, R(RDI), R(RSI), Ev(0, W64, Dyn), Ev(7, W64, Static), Dyn, 22) == [] + [CMP_CODE[1]];
    assert [] + [CMP_CODE[1]] == [CMP_CODE[1]];
  }

  lemma SevenFollows(start: int)
    requires StartOk(start)
    ensures var es := Tested(start);
            Follows(Larger(), PLAIN, TStep(es, 24, StartLive(es), Nothing()), Replaced(start), RETURN, StartLive(es),
                    [])
  {
    hide StartLive, SubFlags, Entry;
    EntryRegs(start);
  }

  lemma FirstChain(start: int)
    requires StartOk(start)
    ensures Chain(Larger(), PLAIN, FirstTrail(start), FUN, [], CMP_CODE)
  {
    hide Follows, StartLive, Entry, Copied, Tested, Larger;
    var l := StartLive(Entry(start));
    var p, q := TStep(Entry(start), FUN, l, Nothing()), TStep(Copied(start), 19, l, Nothing());
    MoveFollows(start);
    CompareFollows(start);
    NoSteps(Entry(start), FUN);
    ChainStep(Larger(), PLAIN, TrailAt(Entry(start), FUN), FUN, [], [], Nothing(), Copied(start), 19, l, [CMP_CODE[0]]);
    assert [] + [p] == [p] && [] + [CMP_CODE[0]] == [CMP_CODE[0]];
    ChainStep(Larger(), PLAIN, Trail(Entry(start), [p], Copied(start), 19, l), FUN, [], [CMP_CODE[0]], Nothing(),
              Tested(start), 22, Live(ALL_FLAGS, ALL_FLAGS), [CMP_CODE[1]]);
    assert [p] + [q] == [p, q] && [CMP_CODE[0]] + [CMP_CODE[1]] == CMP_CODE;
  }

  lemma SevenChain(start: int)
    requires StartOk(start)
    ensures Chain(Larger(), PLAIN, SevenTrail(start), 24, [], [])
  {
    hide Follows, StartLive, Tested, Replaced, Larger;
    var es := Tested(start);
    SevenFollows(start);
    NoSteps(es, 24);
    ChainStep(Larger(), PLAIN, TrailAt(es, 24), 24, [], [], Nothing(), Replaced(start), RETURN, StartLive(es), []);
    assert [] + [TStep(es, 24, StartLive(es), Nothing())] == [TStep(es, 24, StartLive(es), Nothing())];
  }

  lemma ReturnsOf(start: int)
    requires StartOk(start)
    ensures StepRet(Tested(start), PLAIN).code == RET_CODE && StepRet(Replaced(start), PLAIN).code == SEVEN_CODE
  {
    hide SubFlags, Entry;
    EntryRegs(start);
  }

  lemma TrailsOk(start: int)
    requires StartOk(start)
    ensures forall k :: 0 <= k < 3 ==> TrailOk(LargerBook(start), k, LargerShape(start))
    ensures Refines(Tested(start), Clone(Tested(start), 1))
  {
    hide Refines, Clone, Entry, SubFlags;
    CloneRefines(Entry(start), 1);
    CloneRefines(Tested(start), 1);
    CloneSize(Entry(start), 1);
    CloneSize(Tested(start), 1);
  }

  lemma CloneSize(es: EState, live: nat)
    requires es.Valid() && es.accessed == es.Top()
    ensures |Clone(es, live).stack| == 0
  {}

  lemma FirstClosed(start: int)
    requires StartOk(start)
    ensures ClosedOk(Larger(), PLAIN, LargerBook(start), 0, LargerShape(start))
  {
    hide Refines, Clone, Entry, SubFlags, Chain, Slice, StepRet, StartLive;
    Slices(start);
    TrailsOk(start);
    FirstChain(start);
    assert SF in Consults(CGE) && StateOf(Tested(start).fs, SF) == Dyn;
    assert DynamicJump(Tested(start), CGE);
    var b, sh := LargerBook(start), LargerShape(start);
    assert SliceOk(b, 0);
    assert TrailOk(b, 0, sh);
    assert TrailOk(b, 1, sh);
    assert Refines(Tested(start), b.saved[1]);
    assert Ledger.Fits(b.saved[1], sh);
    assert Chain(Larger(), PLAIN, b.trails[0], b.bbs[0].addr, InitCode(PLAIN, 0), Slice(b, 0));
    assert BranchOk(Larger(), PLAIN, b, 0, sh);
  }

  lemma NoSteps(es: EState, a: Word)
    ensures Chain(Larger(), PLAIN, TrailAt(es, a), a, [], [])
  {
    hide StartLive;
  }

  /** A block of nothing but the return. */
  lemma OnlyReturns(b: Book, k: nat, sh: Shape)
    requires 0 < k < |b.bbs| && k < |b.trails| && SliceOk(b, k) && TrailOk(b, k, sh) && b.bbs[k].end == Returns
    requires var p := b.trails[k];
             && p.addr in Larger() && Larger()[p.addr].i == Ret && Slice(b, k) == StepRet(p.es, PLAIN).code
             && Chain(Larger(), PLAIN, p, b.bbs[k].addr, [], [])
    ensures ClosedOk(Larger(), PLAIN, b, k, sh)
  {
    hide TrailOk, StepRet, Chain, Larger, Slice;
    var c := Slice(b, k);
    assert c[|c| - |c|..] == c && c[..|c| - |c|] == [];
  }

  lemma ReturnClosed(start: int)
    requires StartOk(start)
    ensures ClosedOk(Larger(), PLAIN, LargerBook(start), 1, LargerShape(start))
  {
    hide ClosedOk, Refines, Clone, Slice, StepRet, StartLive, TrailOk, Tested, SevenTrail, FirstTrail, Chain;
    Slices(start);
    TrailsOk(start);
    ReturnsOf(start);
    NoSteps(Tested(start), RETURN);
    OnlyReturns(LargerBook(start), 1, LargerShape(start));
  }

  lemma SevenClosed(start: int)
    requires StartOk(start)
    ensures ClosedOk(Larger(), PLAIN, LargerBook(start), 2, LargerShape(start))
  {
    hide ClosedOk, Refines, Clone, Slice, StepRet, StartLive, TrailOk, Tested, Replaced, FirstTrail, Chain;
    Slices(start);
    TrailsOk(start);
    ReturnsOf(start);
    SevenChain(start);
    OnlyReturns(LargerBook(start), 2, LargerShape(start));
  }

  lemma BlocksClosed(start: int)
    requires StartOk(start)
    ensures forall k :: 0 <= k < 3 ==> ClosedOk(Larger(), PLAIN, LargerBook(start), k, LargerShape(start))
  {
    hide ClosedOk, LargerBook;
    FirstClosed(start);
    ReturnClosed(start);
    SevenClosed(start);
  }

  /** The blocks are those of a complete emulation. */
  lemma LargerCaptured(start: int)
    requires StartOk(start)
    ensures BookOk(Larger(), PLAIN, LargerBook(start), LargerShape(start))
    ensures Complete(LargerBook(start)) && Rooted(LargerBook(start), FUN, EntryState(start, PAR, PAR_STATE))
  {
    hide ClosedOk, Clone, SubFlags, Slice, Loaded, EntryState;
    BlocksClosed(start);
    CloneSize(Entry(start), 1);
    CloneSize(Tested(start), 1);
    Slices(start);
  }

  // ----- the conditions of the theorems

  lemma RegisterStep(es: EState, slots: set<int>, i: Instr, ip: Word, fr: Frame, s: Mach)
    requires es.Valid() && s.Valid() && InstrValid(i)
    requires i.Mov? && i.dst.R? && i.src.R?
    ensures Faithful(es, slots, i, ip, Nothing()) && Safe(es, fr, s, i, ip, Nothing())
  {}

  lemma CompareStep(es: EState, slots: set<int>, ip: Word, fr: Frame, s: Mach)
    requires es.Valid() && s.Valid() && es.rs[RDI] == Dyn
    ensures Faithful(es, slots, Cmp(R(RDI), R(RSI)), ip, Nothing())
    ensures Safe(es, fr, s, Cmp(R(RDI), R(RSI)), ip, Nothing())
  {}

  lemma ReturnsFaithfully(start: int)
    requires StartOk(start)
    ensures FaithfulRet(Tested(start)) && FaithfulRet(Replaced(start))
  {
    hide SubFlags, Entry;
    EntryRegs(start);
  }

  /** No condition on the emulator states is violated. */
  lemma LargerFaithful(start: int, fr: Frame, s: Mach)
    requires StartOk(start) && s.Valid()
    ensures FaithfulBook(Larger(), fr.slots, LargerBook(start))
  {
    hide Faithful, FaithfulRet, Entry, SubFlags, Clone, StartLive, Safe;
    EntryRegs(start);
    ReturnsFaithfully(start);
    RegisterStep(Entry(start), fr.slots, Larger()[FUN].i, 19, fr, s);
    CompareStep(Copied(start), fr.slots, 22, fr, s);
    RegisterStep(Tested(start), fr.slots, Larger()[24].i, 27, fr, s);
    assert FaithfulBranch(Tested(start), Live(ALL_FLAGS, ALL_FLAGS), CGE);
    assert FaithfulTrail(Larger(), fr.slots, FirstTrail(start));
    assert FaithfulTrail(Larger(), fr.slots, SevenTrail(start));
  }

  lemma FirstSafe(start: int, fr: Frame, s: Mach)
    requires StartOk(start) && s.Valid()
    ensures SafeTrail(Larger(), FirstTrail(start), fr, s)
  {
    hide Safe, Entry, Copied, Tested, StartLive, Exec;
    var l := StartLive(Entry(start));
    var p, q := TStep(Entry(start), FUN, l, Nothing()), TStep(Copied(start), 19, l, Nothing());
    var t := Trail(Entry(start), [p], Copied(start), 19, l);
    assert Before(FirstTrail(start)) == t by { assert [p, q][..1] == [p]; }
    assert Before(t).steps == [];
    RegisterStep(Entry(start), fr.slots, Larger()[FUN].i, 19, fr, s);
    assert TrailMach(Larger(), Before(t), s) == s;
    assert SafeTrail(Larger(), t, fr, s);
    CopiedRegs(start);
    CompareStep(Copied(start), fr.slots, 22, fr, TrailMach(Larger(), t, s));
  }

  lemma CopiedRegs(start: int)
    requires StartOk(start)
    ensures Copied(start).rs[RDI] == Dyn
  {
    hide Entry;
    EntryRegs(start);
  }

  lemma BlockSafe(start: int, k: nat, fr: Frame, s: Mach)
    requires StartOk(start) && s.Valid() && k < 3
    ensures SafeBlock(Larger(), LargerBook(start), k, fr, s)
    ensures NextBlock(Larger(), LargerBook(start), k, s) < 3
  {
    hide Safe, Entry, Copied, Tested, Clone, StartLive, Exec, TrailMach, FirstTrail, SafeTrail;
    assert FirstTrail(start).addr == 22 by { FirstAddress(start); }
    if k == 0 {
      FirstSafe(start, fr, s);
    } else if k == 2 {
      SevenSafe(start, fr, s);
    } else {
      StartSafe(Tested(start), RETURN, fr, s);
    }
  }

  lemma StartSafe(es: EState, a: Word, fr: Frame, s: Mach)
    requires s.Valid()
    ensures SafeTrail(Larger(), TrailAt(es, a), fr, s)
  {}

  lemma SevenSafe(start: int, fr: Frame, s: Mach)
    requires StartOk(start) && s.Valid()
    ensures SafeTrail(Larger(), SevenTrail(start), fr, s)
  {
    hide Safe, Tested, Replaced, StartLive, Exec;
    var b := Before(SevenTrail(start));
    assert b.steps == [] && TrailMach(Larger(), b, s) == s && SafeTrail(Larger(), b, fr, s);
    RegisterStep(Tested(start), fr.slots, Larger()[24].i, 27, fr, s);
  }

  lemma FirstAddress(start: int)
    requires StartOk(start)
    ensures FirstTrail(start).addr == 22
  {}

  lemma {:induction false} RunSafe(start: int, k: nat, fr: Frame, s: Mach, n: nat)
    requires StartOk(start) && s.Valid() && k < 3
    ensures SafeRun(Larger(), LargerBook(start), fr, k, s, n)
    decreases n
  {
    hide SafeBlock, NextBlock, TrailMach, Larger, LargerBook;
    if n > 0 {
      BlockSafe(start, k, fr, s);
      var b := LargerBook(start);
      RunSafe(start, NextBlock(Larger(), b, k, s), fr, TrailMach(Larger(), b.trails[k], s), n - 1);
    }
  }

  /** Every call with seven as the second argument meets the conditions. */
  lemma LargerAdmitted(start: int, fr: Frame, s: Mach)
    requires StartOk(start) && EntryMachine(start, PAR, PAR_STATE, fr, s)
    ensures Admitted(Larger(), LargerBook(start), start, PAR, PAR_STATE, fr, s)
  {
    hide EntryMachine, FaithfulBook, SafeRun, LargerBook, Larger;
    assert s.Valid() by { EntryValid(start, fr, s); }
    LargerFaithful(start, fr, s);
    forall n: nat ensures SafeRun(Larger(), LargerBook(start), fr, 0, s, n) { RunSafe(start, 0, fr, s, n); }
  }

  lemma EntryValid(start: int, fr: Frame, s: Mach)
    requires EntryMachine(start, PAR, PAR_STATE, fr, s)
    ensures s.Valid() && s.reg[RSI] == 7
  {
    assert IsStatic(PAR_STATE[1]) && PAR_REG[1] == RSI;
  }

  // ----- the bytes

  /** mov rax, rdi; cmp rdi, 7; jge over the next two; mov rax, 7; ret; ret. */
  const BYTES: seq<Byte> :=
    [0x48, 0x89, 0xF8, 0x48, 0x83, 0xFF, 0x07, 0x7D, 0x08, 0x48, 0xC7, 0xC0, 0x07, 0x00, 0x00, 0x00, 0xC3, 0xC3]

  const PLACES: seq<Info> := [Info(7, 0, 0, true, false), Info(1, 17, 17, false, false), Info(8, 9, 9, false, false)]

  lemma MoveBytes()
    ensures Generate(Sized(S64, CMP_CODE[0])) == Some([0x48, 0x89, 0xF8])
  {
    assert Prefix(Vex.PNone, 8, false) == [0x48];
    assert [0x48] + [0x89] + [0xF8] + [] == [0x48, 0x89, 0xF8];
  }

  lemma CompareBytes()
    ensures Generate(Sized(S64, CMP_CODE[1])) == Some([0x48, 0x83, 0xFF, 0x07])
  {
    assert Prefix(Vex.PNone, 8, false) == [0x48];
    assert [0x48] + [0x83] + [0xFF] + [0x07] == [0x48, 0x83, 0xFF, 0x07];
  }

  lemma SevenBytes()
    ensures Generate(Sized(S64, SEVEN_CODE[0])) == Some([0x48, 0xC7, 0xC0, 0x07, 0x00, 0x00, 0x00])
  {
    assert Prefix(Vex.PNone, 8, false) == [0x48];
    assert BytesOf(0, 2) == [0] + BytesOf(0, 1) && BytesOf(0, 1) == [0] + BytesOf(0, 0);
    assert BytesOf(7, 4) == [7] + BytesOf(0, 3) && BytesOf(0, 3) == [0] + BytesOf(0, 2);
    assert ImmBytes(S64, 7) == [0x07, 0x00, 0x00, 0x00];
    assert [0x48] + [0xC7] + [0xC0] + [0x07, 0x00, 0x00, 0x00] == [0x48, 0xC7, 0xC0, 0x07, 0x00, 0x00, 0x00];
  }

  lemma TwoEncoded(x: Instr, y: Instr)
    requires InsnValid(Sized(S64, x)) && InsnValid(Sized(S64, y))
    requires Generate(Sized(S64, x)).Some? && Generate(Sized(S64, y)).Some?
    ensures Emits([x, y]) && Emits([x])
    ensures Flat(Bytecode([x, y])) == Generate(Sized(S64, x)).value + Generate(Sized(S64, y)).value
    ensures Flat(Bytecode([x])) == Generate(Sized(S64, x)).value
  {
    hide Generate, InsnValid;
    assert Emits([x, y]) && Emits([x]);
    EncodedLast([x, y]);
    EncodedLast([x]);
    assert [x, y][..1] == [x] && [x][..0] == [];
  }

  lemma BlockBytes(start: int)
    requires StartOk(start)
    ensures BookEncodes(LargerBook(start))
    ensures var bs := FromBook(LargerBook(start));
            && Flat(bs[0].code) == BYTES[..7] && Flat(bs[1].code) == BYTES[17..] && Flat(bs[2].code) == BYTES[9..17]
            && BlocksOk(bs)
  {
    hide Clone, Entry, Tested, Slice, Generate, Flat, Bytecode, Emits, FirstTrail, SevenTrail;
    Slices(start);
    MoveBytes();
    CompareBytes();
    SevenBytes();
    RetBytes();
    TwoEncoded(CMP_CODE[0], CMP_CODE[1]);
    TwoEncoded(SEVEN_CODE[0], Ret);
    TwoEncoded(Ret, Ret);
    assert CMP_CODE == [CMP_CODE[0], CMP_CODE[1]] && SEVEN_CODE == [SEVEN_CODE[0], Ret] && RET_CODE == [Ret];
    assert Encodes(LargerBook(start), 0);
    assert Encodes(LargerBook(start), 1);
    assert Encodes(LargerBook(start), 2);
    var b := LargerBook(start);
    var bs := FromBook(b);
    forall k, i | 0 <= k < |bs| && 0 <= i < |bs[k].code| ensures |bs[k].code[i]| < 15 {
      InstrBytes(Slice(b, k), i);
    }
  }

  lemma JumpThere(start: int)
    requires StartOk(start)
    ensures JccAt(BYTES, 7) == Some(Jump(CondNo(CGE), 17, 9))
  {}

  lemma {:induction false} PathsInside(bs: seq<Block>, k: nat)
    requires BlocksOk(bs) && Reachable(bs, k)
    ensures k < |bs|
  {
    var p: seq<nat> :| IsPath(bs, p) && p[|p| - 1] == k;
    if |p| > 1 { assert Edge(bs, p[|p| - 2], p[|p| - 1]); }
  }

  lemma LargerInMemory(start: int)
    requires StartOk(start)
    ensures InMemory(Larger(), PLAIN, LargerBook(start), LargerShape(start), BYTES, PLACES)
  {
    hide ClosedOk, BlocksOk, Reachable, Flat, Clone, Entry, Tested, FirstTrail, SevenTrail, JccAt, BookEncodes;
    BlockBytes(start);
    BlocksClosed(start);
    JumpThere(start);
    var b, bs := LargerBook(start), FromBook(LargerBook(start));
    forall k: nat | Reachable(bs, k)
      ensures k < 3 && Has(BYTES, PLACES[k].addr2, Flat(bs[k].code)) && Linked(bs, BYTES, PLACES, k)
    {
      PathsInside(bs, k);
      if k == 0 {
        assert Len(bs[0]) == 7 && Linked(bs, BYTES, PLACES, 0);
      }
    }
  }

  // ----- what the function does

  lemma LargerReturns(s: Mach)
    requires s.Valid() && s.reg[RSI] == 7
    ensures var c := OrigRun(Larger(), At(FUN, s), 5);
            && c.Halted? && c.m.Valid() && c.m.reg[RAX] == (if Signed(s.reg[RDI]) >= 7 then s.reg[RDI] else 7)
  {
    hide Signed;
    var f, c := Larger(), At(FUN, s);
    var m1 := s.(reg := s.reg[RAX := s.reg[RDI]]);
    var m2 := m1.(flags := ResultFlags(Sub, s.reg[RDI], 7, m1.flags));
    assert OrigRun(f, c, 1) == At(19, m1) by { assert OrigRun(f, c, 0) == c; }
    assert OrigRun(f, c, 2) == At(22, m2);
    LargerJumps(s.reg[RDI], m1.flags);
    var m3 := m2.(reg := m2.reg[RAX := 7]);
    if Signed(s.reg[RDI]) >= 7 {
      assert OrigRun(f, c, 3) == At(RETURN, m2);
      assert OrigRun(f, c, 4) == Halted(m2);
    } else {
      assert OrigRun(f, c, 3) == At(24, m2);
      assert OrigRun(f, c, 4) == At(RETURN, m3);
    }
  }

  lemma LargerJumps(x: Word, f: Flags)
    ensures Holds(CGE, ResultFlags(Sub, x, 7, f)) <==> Signed(x) >= 7
  {
    DifferenceFlags(x, 7, f);
  }

  lemma ResultGiven(start: int)
    requires StartOk(start)
    ensures GivesResult(PLAIN, LargerBook(start))
  {
    hide SubFlags, Entry, Clone;
  }

  /** After j instructions the bytes have returned the larger of the argument and seven. */
  ghost predicate ReturnsLarger(s: Mach, j: nat)
    requires s.Valid()
  {
    var c := ByteRun(BYTES, Fetch(0, s), j);
    && c.Done? && c.m.Valid() && c.m.reg[RSP] == s.reg[RSP]
    && c.m.reg[RAX] == (if Signed(s.reg[RDI]) >= 7 then s.reg[RDI] else 7)
  }

  lemma LargerSpecialised(start: int)
    requires StartOk(start)
    ensures Specialises(Larger(), PLAIN, LargerBook(start), FUN, start, PAR, PAR_STATE, BYTES, 0)
  {
    hide BookOk, Complete, Rooted, InMemory, LargerBook, Larger, EntryState, Specialises;
    LargerCaptured(start);
    LargerInMemory(start);
    RewrittenAlways(Larger(), PLAIN, LargerBook(start), LargerShape(start), FUN, start, PAR, PAR_STATE, BYTES, PLACES);
  }

  lemma BytesDone(start: int, fr: Frame, s: Mach) returns (j: nat)
    requires StartOk(start) && EntryMachine(start, PAR, PAR_STATE, fr, s)
    ensures s.Valid() && OrigRun(Larger(), At(FUN, s), 5).Halted?
    ensures DoneAs(true, fr, start + STACK_SIZE, BYTES, Fetch(0, s), OrigRun(Larger(), At(FUN, s), 5).m, j)
  {
    hide EntryMachine, Admitted, DoneAs, GivesResult, LargerBook, Larger, OrigRun, ByteRun, HaltedAs;
    EntryValid(start, fr, s);
    LargerSpecialised(start);
    LargerAdmitted(start, fr, s);
    LargerReturns(s);
    ResultGiven(start);
    assert SameRuns(Larger(), true, FUN, fr, start + STACK_SIZE, BYTES, 0, s);
    j :| DoneAs(true, fr, start + STACK_SIZE, BYTES, Fetch(0, s), OrigRun(Larger(), At(FUN, s), 5).m, j);
  }

  /** For every argument the eighteen bytes return the larger of it and seven, as the original function does. */
  lemma LargerOfSeven(start: int, fr: Frame, s: Mach)
    requires StartOk(start) && EntryMachine(start, PAR, PAR_STATE, fr, s)
    ensures s.Valid() && exists j: nat :: ReturnsLarger(s, j)
  {
    hide OrigRun, ByteRun, Signed, Wrap;
    EntryValid(start, fr, s);
    var j := BytesDone(start, fr, s);
    LargerReturns(s);
    assert ReturnsLarger(s, j);
  }

  /** There are such calls. */
  lemma CallExists()
    ensures exists fr: Frame, s: Mach :: EntryMachine(0, PAR, PAR_STATE, fr, s)
  {
    var s := Mach(seq(16, i => 0)[RSP := STACK_SIZE][RSI := 7], Flags(false, false, false, false), (a: int) => 0);
    assert EntryMachine(0, PAR, PAR_STATE, Frame(0, STACK_SIZE, {}), s);
  }
}
