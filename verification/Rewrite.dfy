/** The whole rewriting of a function: emulate and capture, encode the blocks, lay them out. */
module Rewrite {
  import opened Machine
  import opened Emulator
  import opened Ledger
  import opened Engine
  import opened Specialise
  import opened Bytes
  import opened Codec
  import opened Layout
  import opened BlockCodec
  import opened Contexts
  import opened Generation
  import opened EndToEnd
  import opened Simulation

  datatype RewriteError =
    | CaptureError(e: EngineError)
    | Unencodable(block: nat, instr: nat)
    | LayoutError(l: GenError)

  // ----- captured code is well-formed

  lemma StepValid(es: EState, cfg: Config, i: Instr, ip: Word, rd: Word -> Word)
    requires es.Valid() && InstrValid(i) && Step(es, cfg, i, ip, rd).Ok?
    ensures AllValid(Step(es, cfg, i, ip, rd).value.code)
  {
    hide SetOp, OpValue, OpAddr, FoldMem, Tracked, FlagsAfter, Result;
  }

  lemma {:induction false} ChainValid(code: Code, cfg: Config, p: Trail, a: Word, init: seq<Instr>, caps: seq<Instr>)
    requires Chain(code, cfg, p, a, init, caps) && AllValid(init)
    ensures AllValid(caps)
    decreases |p.steps|
  {
    hide Step, NextAddr, FlagsKept, InstrValid, Chain;
    if p.steps == [] {
      ChainStart(code, cfg, p, a, init, caps);
    } else {
      LastStep(code, cfg, p, a, init, caps);
    }
    if p.steps != [] {
      var q := p.steps[|p.steps| - 1];
      var n := |CapturedBy(code, cfg, q)|;
      ChainValid(code, cfg, Before(p), a, init, caps[..|caps| - n]);
      var d := code[q.addr];
      StepValid(q.es, cfg, d.i, Wrap(q.addr + d.len), q.rd);
      assert caps == caps[..|caps| - n] + caps[|caps| - n..];
    }
  }

  lemma RetValid(es: EState, cfg: Config)
    requires es.Valid()
    ensures AllValid(StepRet(es, cfg).code)
  {}

  lemma SliceValid(code: Code, cfg: Config, b: Book, k: nat, sh: Shape)
    requires k < |b.bbs| && ClosedOk(code, cfg, b, k, sh)
    ensures SliceOk(b, k) && AllValid(Slice(b, k))
  {
    hide Chain, Slice, Kill;
    var p, caps := b.trails[k], Slice(b, k);
    if b.bbs[k].end.Returns? { RetValid(p.es, cfg); }
    hide StepRet;
    var ret := if b.bbs[k].end.Returns? then StepRet(p.es, cfg).code else [];
    var n := |caps| - |ret|;
    assert caps[..|caps|] == caps;
    ChainValid(code, cfg, p, b.bbs[k].addr, InitCode(cfg, k), caps[..n]);
    assert caps == caps[..n] + ret;
  }

  /** In no block that ends in a jump, clearing a register has the last word on the flags. */
  predicate FlagsSurvive(b: Book) {
    forall k :: 0 <= k < |b.bbs| && b.bbs[k].end.Branches? ==>
      SliceOk(b, k) && AllValid(Slice(b, k)) && KeepsFlags(Slice(b, k))
  }

  /** Code and end of block k. */
  ghost predicate BlockOf(b: Book, k: nat, x: Block)
    requires k < |b.bbs|
  {
    SliceOk(b, k) && Emits(Slice(b, k)) && x == Block(Bytecode(Slice(b, k)), b.bbs[k].end)
  }

  lemma AllClosed(code: Code, cfg: Config, b: Book, sh: Shape)
    requires BookOk(code, cfg, b, sh) && Complete(b)
    ensures forall k :: 0 <= k < |b.bbs| ==> ClosedOk(code, cfg, b, k, sh)
  {
    hide ClosedOk;
  }

  lemma GraphOk(code: Code, cfg: Config, b: Book, sh: Shape, bs: seq<Block>)
    requires BookOk(code, cfg, b, sh) && Complete(b) && |b.bbs| > 0
    requires |bs| == |b.bbs| && forall k :: 0 <= k < |bs| ==> BlockOf(b, k, bs[k])
    ensures BlocksOk(bs)
    ensures FlagsSurvive(b) ==> BookEncodes(b) && FromBook(b) == bs
  {
    hide ReturnOk, TrailOk, Generate, KeepsFlags, BookOk, Complete, Slice, Bytecode;
    AllClosed(code, cfg, b, sh);
    forall k, i | 0 <= k < |bs| && 0 <= i < |bs[k].code| ensures |bs[k].code[i]| < 15 {
      assert BlockOf(b, k, bs[k]);
      InstrBytes(Slice(b, k), i);
    }
    forall k | 0 <= k < |bs| && bs[k].end.Branches? ensures bs[k].end.branch < |bs| && bs[k].end.fallThrough < |bs| {
      assert BlockOf(b, k, bs[k]) && ClosedOk(code, cfg, b, k, sh);
    }
    if FlagsSurvive(b) {
      forall k | 0 <= k < |bs| ensures Encodes(b, k) { assert BlockOf(b, k, bs[k]); }
      forall k | 0 <= k < |bs| ensures FromBook(b)[k] == bs[k] { assert BlockOf(b, k, bs[k]); }
    }
  }

  lemma InstrBytes(caps: seq<Instr>, i: nat)
    requires Emits(caps) && i < |caps|
    ensures |Bytecode(caps)[i]| < 15
  {
    hide Generate;
    ShortEnough(Sized(S64, caps[i]));
  }

  /** Encode all captured blocks. */
  method EncodeBlocks(r: Rewriter) returns (e: Option<RewriteError>, bs: seq<Block>)
    requires r.Valid() && Complete(r.TheBook())
    ensures e == None ==> |bs| == |r.capBB| && forall k :: 0 <= k < |bs| ==> BlockOf(r.TheBook(), k, bs[k])
  {
    ghost var b, sh := r.TheBook(), r.TheShape();
    AllClosed(r.code, r.cfg, b, sh);
    hide BookOk, Complete, ClosedOk, BlockOf, Slice;
    var bbs, instrs := r.capBB, r.capInstr;
    bs := [];
    for k := 0 to |bbs|
      invariant |bs| == k && forall j :: 0 <= j < k ==> BlockOf(b, j, bs[j])
    {
      var failed, x := EncodeBlock(r.code, r.cfg, b, k, sh, bbs[k], instrs);
      if failed.Some? { return Some(Unencodable(k, failed.value)), bs; }
      bs := bs + [x];
    }
    e := None;
  }

  /** One block, or the index of its first instruction without encoding. */
  method EncodeBlock(ghost code: Code, ghost cfg: Config, ghost b: Book, ghost k: nat, ghost sh: Shape, bb: CBB,
                     instrs: seq<Instr>)
    returns (failed: Option<nat>, x: Block)
    requires k < |b.bbs| && ClosedOk(code, cfg, b, k, sh) && bb == b.bbs[k] && instrs == b.instrs
    ensures failed == None ==> BlockOf(b, k, x)
  {
    hide ClosedOk, Encoded, Generates;
    SliceValid(code, cfg, b, k, sh);
    var caps := instrs[bb.first..bb.first + bb.count];
    var bytes;
    failed, bytes := GenerateBlock(Wide(caps));
    x := Block(bytes, bb.end);
  }

  /** Rewrite the function at f. On success the code buffer holds, from addr on, what the captured blocks are, and
      that is the function specialised. */
  method RewriteFunction(r: Rewriter, f: Word, par: seq<Word>, parState: seq<CState>, world: nat -> (Word -> Word),
                         bound: nat, size: nat)
    returns (e: Option<RewriteError>, addr: nat, g: Generator)
    requires r.Objects() && CodeValid(r.code) && |par| == |parState| && size < 0x7FFF_F000
    modifies r, r.es.Repr()
    ensures e == None ==> BookOk(r.code, r.cfg, r.TheBook(), r.TheShape()) && Complete(r.TheBook()) && |par| <= 6
    ensures e == None ==> 0 <= r.es.stackTop - STACK_SIZE && r.es.stackTop < M64
    ensures e == None ==> Rooted(r.TheBook(), f, EntryState(r.es.stackTop - STACK_SIZE, par, parState))
    ensures e == None && FlagsSurvive(r.TheBook()) ==>
      && InMemory(r.code, r.cfg, r.TheBook(), r.TheShape(), g.buf[..], g.gen)
      && addr == g.gen[0].addr2 && addr % CACHELINE == 0
    ensures e == None ==> |r.TheBook().trails| == |r.TheBook().bbs|
    ensures e == None && FlagsSurvive(r.TheBook()) ==>
      Specialises(r.code, r.cfg, r.TheBook(), f, r.es.stackTop - STACK_SIZE, par, parState, g.buf[..], addr)
  {
    hide BookOk, Rooted, Complete, FlagsSurvive, InMemory, EntryState, Rewriter.Valid, Rewriter.Objects, Specialises;
    var bs;
    e, bs := Capture(r, f, par, parState, world, bound);
    if e.Some? {
      addr := 0;
      g := new Generator([Block([], Returns)], 0);
      return;
    }
    ghost var b, sh := r.TheBook(), r.TheShape();
    e, addr, g := Lay(bs, size, r.code, r.cfg, b, sh);
    BookTrails(r.code, r.cfg, b, sh);
    if e == None && FlagsSurvive(b) {
      InMemoryRoot(r.code, r.cfg, b, sh, g.buf[..], g.gen);
      RewrittenAlways(r.code, r.cfg, b, sh, f, sh.top - STACK_SIZE, par, parState, g.buf[..], g.gen);
    }
  }

  lemma BookTrails(code: Code, cfg: Config, b: Book, sh: Shape)
    requires BookOk(code, cfg, b, sh)
    ensures CodeValid(code) && |b.trails| == |b.bbs|
  {}

  lemma InMemoryRoot(code: Code, cfg: Config, b: Book, sh: Shape, m: seq<Byte>, addr: seq<Info>)
    requires InMemory(code, cfg, b, sh, m, addr)
    ensures |addr| > 0
  {}

  method Capture(r: Rewriter, f: Word, par: seq<Word>, parState: seq<CState>, world: nat -> (Word -> Word), bound: nat)
    returns (e: Option<RewriteError>, bs: seq<Block>)
    requires r.Objects() && CodeValid(r.code) && |par| == |parState|
    modifies r, r.es.Repr()
    ensures e == None ==> BookOk(r.code, r.cfg, r.TheBook(), r.TheShape()) && Complete(r.TheBook()) && |par| <= 6
    ensures e == None ==> 0 <= r.es.stackTop - STACK_SIZE && r.es.stackTop < M64
    ensures e == None ==> Rooted(r.TheBook(), f, EntryState(r.es.stackTop - STACK_SIZE, par, parState))
    ensures e == None ==> |bs| == |r.capBB| > 0 && forall k :: 0 <= k < |bs| ==> BlockOf(r.TheBook(), k, bs[k])
  {
    hide BookOk, Rooted, Complete, EntryState, BlockOf;
    bs := [];
    var ce := r.EmulateAndCapture(f, par, parState, world, bound);
    if ce.Some? { return Some(CaptureError(ce.value)), bs; }
    RootExists(r.TheBook(), f, EntryState(r.es.stackTop - STACK_SIZE, par, parState));
    e, bs := EncodeBlocks(r);
  }

  method Lay(bs: seq<Block>, size: nat, ghost code: Code, ghost cfg: Config, ghost b: Book, ghost sh: Shape)
    returns (e: Option<RewriteError>, addr: nat, g: Generator)
    requires BookOk(code, cfg, b, sh) && Complete(b) && |b.bbs| > 0 && size < 0x7FFF_F000
    requires |bs| == |b.bbs| && forall k :: 0 <= k < |bs| ==> BlockOf(b, k, bs[k])
    ensures e == None && FlagsSurvive(b) ==>
      InMemory(code, cfg, b, sh, g.buf[..], g.gen) && addr == g.gen[0].addr2 && addr % CACHELINE == 0
  {
    hide BookOk, Complete, FlagsSurvive, Reachable, Has, Linked, BlocksOk, BlockOf, ClosedOk, BookEncodes;
    GraphOk(code, cfg, b, sh, bs);
    g := new Generator(bs, size);
    var le, a, n := g.GenerateBinary();
    addr := a;
    e := if le.Some? then Some(LayoutError(le.value)) else None;
    AllClosed(code, cfg, b, sh);
  }

  lemma RootExists(b: Book, f: Word, entry: EState)
    requires entry.Valid() && Rooted(b, f, entry)
    ensures |b.bbs| > 0
  {}
}
