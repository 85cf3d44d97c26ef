/** The 64-bit x86 fragment that is specialised: state, operands and what each instruction does. */
module Machine {
  import Bits

  const M64: int := 0x1_0000_0000_0000_0000
  const M63: int := 0x8000_0000_0000_0000

  type Word = x: int | 0 <= x < M64
  type Byte = x: int | 0 <= x < 256
  type Reg = x: int | 0 <= x < 16

  const RAX: Reg := 0
  const RCX: Reg := 1
  const RDX: Reg := 2
  const RBX: Reg := 3
  const RSP: Reg := 4
  const RBP: Reg := 5
  const RSI: Reg := 6
  const RDI: Reg := 7

  /** Byte-addressed memory; only addresses of a Word are used. */
  type Memory = int -> Byte

  datatype Flags = Flags(cf: bool, zf: bool, sf: bool, of: bool)

  datatype Mach = Mach(reg: seq<Word>, flags: Flags, mem: Memory) {
    predicate Valid() { |reg| == 16 }
  }

  datatype Base = NoBase | Gp(r: Reg) | Rip

  type Scale = x: int | x in {0, 1, 2, 4, 8} witness 0

  /** base + scale * idx + disp; scale 0 means that there is no index register. */
  datatype MemRef = MemRef(base: Base, scale: Scale, idx: Reg, disp: Word)

  datatype Operand =
    | R(r: Reg)
    | I8(b: Byte)
    | I32(d: int)
    | I64(v: Word)
    | M(m: MemRef)

  datatype AluOp = Add | Sub | And | Or | Xor | Imul

  datatype Cond = CO | CNO | CC | CNC | CZ | CNZ | CBE | CA | CS | CNS | CL | CGE | CLE | CG

  datatype Instr =
    | Mov(dst: Operand, src: Operand)
    | Alu(op: AluOp, dst: Operand, src: Operand)
    | Lea(r: Reg, m: MemRef)
    | Cmp(dst: Operand, src: Operand)
    | Jmp(target: Word)
    | Jcc(cond: Cond, target: Word)
    | Ret
    | HintCall
    | HintRet

  predicate OperandValid(o: Operand) {
    match o
    case I32(d) => 0 <= d < 0x1_0000_0000
    case _ => true
  }

  /** At most one operand is in memory, and immediates are never written. */
  predicate PairValid(d: Operand, s: Operand) {
    OperandValid(d) && OperandValid(s) && (d.R? || d.M?) && !(d.M? && s.M?)
  }

  predicate InstrValid(i: Instr) {
    match i
    case Mov(d, s) => PairValid(d, s)
    case Alu(_, d, s) => PairValid(d, s)
    case Cmp(d, s) => PairValid(d, s)
    case _ => true
  }

  // ----- words and memory

  function SignExtend8(b: Byte): Word {
    if b < 128 then b else M64 - 256 + b
  }

  function SignExtend32(d: int): Word
    requires 0 <= d < 0x1_0000_0000
  {
    if d < 0x8000_0000 then d else M64 - 0x1_0000_0000 + d
  }

  function Signed(x: Word): int {
    if x >= M63 then x - M64 else x
  }

  predicate SignedFits(v: int) { -M63 <= v < M63 }

  function Pow256(n: nat): nat { if n == 0 then 1 else 256 * Pow256(n - 1) }

  /** Value of little-endian bytes. */
  function WordOf(s: seq<Byte>): (v: nat)
    ensures v < Pow256(|s|)
  {
    if s == [] then 0 else s[0] + 256 * WordOf(s[1..])
  }

  /** The n low bytes of v, little-endian. */
  function BytesOf(v: nat, n: nat): (s: seq<Byte>)
    ensures |s| == n
  {
    if n == 0 then [] else [v % 256] + BytesOf(v / 256, n - 1)
  }

  lemma {:induction false} WordOfBytes(v: nat, n: nat)
    requires v < Pow256(n)
    ensures WordOf(BytesOf(v, n)) == v
  {
    if n > 0 {
      WordOfBytes(v / 256, n - 1);
      assert BytesOf(v, n)[1..] == BytesOf(v / 256, n - 1);
    }
  }

  lemma Pow256Of8()
    ensures Pow256(8) == M64
  {
    assert Pow256(4) == 0x1_0000_0000;
  }

  function Word8(s: seq<Byte>): Word
    requires |s| == 8
  {
    Pow256Of8();
    WordOf(s)
  }

  function Bytes8(v: Word): (s: seq<Byte>)
    ensures |s| == 8 && Word8(s) == v
  {
    Pow256Of8();
    WordOfBytes(v, 8);
    BytesOf(v, 8)
  }

  function Wrap(x: int): Word { x % M64 }

  /** The eight bytes at a, wrapping around the end of the address space. */
  function Cells(mem: Memory, a: Word): (s: seq<Byte>)
    ensures |s| == 8
  {
    seq(8, i requires 0 <= i < 8 => mem(Wrap(a + i)))
  }

  function Load64(mem: Memory, a: Word): Word { Word8(Cells(mem, a)) }

  function Store64(mem: Memory, a: Word, v: Word): Memory {
    (x: int) => if Wrap(x - a) < 8 then Bytes8(v)[Wrap(x - a)] else mem(x)
  }

  lemma LoadAfterStore(mem: Memory, a: Word, v: Word)
    ensures Load64(Store64(mem, a, v), a) == v
  {
    var m := Store64(mem, a, v);
    forall i | 0 <= i < 8 ensures Cells(m, a)[i] == Bytes8(v)[i] {
      assert Wrap(Wrap(a + i) - a) == i;
    }
    assert Cells(m, a) == Bytes8(v);
  }

  // ----- what an instruction does

  /** k * x, case by case over the five scales. */
  function Times(k: Scale, x: int): (r: int)
    ensures r == k * x
  {
    if k == 0 then 0 else if k == 1 then x else if k == 2 then 2 * x else if k == 4 then 4 * x else 8 * x
  }

  function EffAddr(s: Mach, m: MemRef, ip: Word): Word
    requires s.Valid()
  {
    var b := match m.base case NoBase => 0 case Gp(r) => s.reg[r] case Rip => ip;
    Wrap(m.disp + b + Times(m.scale, s.reg[m.idx]))
  }

  function Value(s: Mach, o: Operand, ip: Word): Word
    requires s.Valid() && OperandValid(o)
  {
    match o
    case R(r) => s.reg[r]
    case I8(b) => SignExtend8(b)
    case I32(d) => SignExtend32(d)
    case I64(v) => v
    case M(m) => Load64(s.mem, EffAddr(s, m, ip))
  }

  function Assign(s: Mach, o: Operand, v: Word, ip: Word): (s': Mach)
    requires s.Valid()
    ensures s'.Valid() && s'.flags == s.flags
  {
    match o
    case R(r) => s.(reg := s.reg[r := v])
    case M(m) => s.(mem := Store64(s.mem, EffAddr(s, m, ip), v))
    case _ => s
  }

  function AndWord(a: Word, b: Word): Word { Bits.And(a, b) }

  function OrWord(a: Word, b: Word): Word {
    assert Bits.Or(a, b) < M64 by { Pow64(); Bits.OrBound(a, b, 64); }
    Bits.Or(a, b)
  }

  function XorWord(a: Word, b: Word): Word {
    assert Bits.Xor(a, b) < M64 by { Pow64(); Bits.XorBound(a, b, 64); }
    Bits.Xor(a, b)
  }

  lemma Pow64()
    ensures Bits.Pow2(64) == M64 && Bits.Pow2(63) == M63 && Bits.Pow2(62) == M63 / 2
  {
    assert Bits.Pow2(8) == 256;
    Bits.Pow2Add(8, 8);
    Bits.Pow2Add(16, 16);
    Bits.Pow2Add(32, 30);
    assert Bits.Pow2(30) == 0x4000_0000 by { Bits.Pow2Add(16, 14); assert Bits.Pow2(14) == 0x4000; }
  }

  function Result(op: AluOp, a: Word, b: Word): Word {
    match op
    case Add => Wrap(a + b)
    case Sub => Wrap(a - b)
    case And => AndWord(a, b)
    case Or => OrWord(a, b)
    case Xor => XorWord(a, b)
    case Imul => Wrap(a * b)
  }

  /** Flags by their architectural meaning. After imul the processor leaves ZF and SF
      undefined; they are kept here and nothing below depends on them. */
  function ResultFlags(op: AluOp, a: Word, b: Word, old_: Flags): Flags {
    var r := Result(op, a, b);
    match op
    case Add => Flags(a + b >= M64, r == 0, r >= M63, !SignedFits(Signed(a) + Signed(b)))
    case Sub => Flags(a < b, r == 0, r >= M63, !SignedFits(Signed(a) - Signed(b)))
    case Imul => var o := !SignedFits(Signed(a) * Signed(b)); Flags(o, old_.zf, old_.sf, o)
    case _ => Flags(false, r == 0, r >= M63, false)
  }

  predicate Holds(c: Cond, f: Flags) {
    match c
    case CO => f.of
    case CNO => !f.of
    case CC => f.cf
    case CNC => !f.cf
    case CZ => f.zf
    case CNZ => !f.zf
    case CBE => f.cf || f.zf
    case CA => !f.cf && !f.zf
    case CS => f.sf
    case CNS => !f.sf
    case CL => f.sf != f.of
    case CGE => f.sf == f.of
    case CLE => f.zf || f.sf != f.of
    case CG => !f.zf && f.sf == f.of
  }

  /** Effect of an instruction on registers, flags and memory; jumps have none. */
  function Exec(s: Mach, i: Instr, ip: Word): (s': Mach)
    requires s.Valid() && InstrValid(i)
    ensures s'.Valid()
  {
    match i
    case Mov(d, o) => Assign(s, d, Value(s, o, ip), ip)
    case Alu(op, d, o) =>
      var a, b := Value(s, d, ip), Value(s, o, ip);
      Assign(s, d, Result(op, a, b), ip).(flags := ResultFlags(op, a, b, s.flags))
    case Lea(r, m) => Assign(s, R(r), EffAddr(s, m, ip), ip)
    case Cmp(d, o) =>
      var a, b := Value(s, d, ip), Value(s, o, ip);
      s.(flags := ResultFlags(Sub, a, b, s.flags))
    case _ => s
  }

  predicate AllValid(code: seq<Instr>) { forall k :: 0 <= k < |code| ==> InstrValid(code[k]) }

  /** Straight-line execution of captured instructions, which contain no RIP-relative operand. */
  function ExecAll(s: Mach, code: seq<Instr>): (s': Mach)
    requires s.Valid() && AllValid(code)
    ensures s'.Valid()
  {
    if code == [] then s else Exec(ExecAll(s, code[..|code| - 1]), code[|code| - 1], 0)
  }

  lemma {:induction false} ExecAllAppend(s: Mach, a: seq<Instr>, b: seq<Instr>)
    requires s.Valid() && AllValid(a) && AllValid(b)
    ensures AllValid(a + b)
    ensures ExecAll(s, a + b) == ExecAll(ExecAll(s, a), b)
  {
    if b == [] {
      assert a + b == a;
    } else {
      ExecAllAppend(s, a, b[..|b| - 1]);
      assert (a + b)[..|a + b| - 1] == a + b[..|b| - 1];
    }
  }
}
