/** Instructions as bytes: the generator and the decoder, on operands of 8 to 64 bits and on vectors. */
module Codec {
  import opened Machine
  import opened Bytes
  import opened Ledger
  import opened ModRM
  import opened Vex
  import Bits

  /** Operand size of an instruction. Byte registers have two sets of names: with the legacy ones, numbers 4 to 7 are
      AH, CH, DH and BH; with the other ones they are SPL, BPL, SIL and DIL. */
  datatype Size = S8L | S8 | S16 | S32 | S64

  predicate IsByte(z: Size) { z == S8L || z == S8 }

  /** An instruction on general registers, a legacy vector addition, and one passed through with a VEX prefix. Registers
      of the vector ones are XMM or YMM registers. */
  datatype Insn =
    | Sized(z: Size, i: Instr)
    | Sse(pp: Pp, d: Reg, s: Operand)
    | Avx(wide: bool, pp: Pp, d: Reg, v: Reg, s: Operand)

  predicate IsRet(x: Insn) { x.Sized? && x.i == Ret }

  // ----- immediates

  function Signed16of(d: int): int { if d < 0x8000 then d else d - 0x1_0000 }

  function Signed32of(d: int): int { if d < 0x8000_0000 then d else d - 0x1_0000_0000 }

  /** A 64-bit immediate that is the sign extension of its low half becomes a 32-bit one. */
  function Reduce64to32(o: Operand): (o': Operand)
    ensures OperandValid(o) ==> OperandValid(o')
  {
    if o.I64? && -0x8000_0000 < Signed(o.v) < 0x8000_0000 then I32(o.v % 0x1_0000_0000) else o
  }

  /** A 16- or 32-bit immediate that is the sign extension of its low byte becomes an 8-bit one. 16-bit ones are held
      in I32. */
  function ReduceTo8(z: Size, o: Operand): (o': Operand)
    ensures OperandValid(o) ==> OperandValid(o')
  {
    if o.I32? && -128 < (if z == S16 then Signed16of(o.d) else Signed32of(o.d)) < 128 then I8(o.d % 256) else o
  }

  /** Immediates and registers an operation of the size can have. */
  predicate Fits(z: Size, o: Operand) {
    match o
    case R(r) => z == S8L ==> r < 8
    case I32(d) => !IsByte(z) && (z == S16 ==> d < 0x1_0000)
    case I64(_) => z == S64
    case _ => true
  }

  predicate InsnValid(x: Insn) {
    match x
    case Sized(z, i) =>
      (InstrValid(i) &&
       match i
       case Mov(d, s) => Fits(z, d) && Fits(z, s)
       case Alu(_, d, s) => Fits(z, d) && Fits(z, s)
       case Cmp(d, s) => Fits(z, d) && Fits(z, s)
       case Lea(r, _) => Fits(z, R(r))
       case Ret => z == S64
       case _ => true)
    case Sse(_, _, s) => s.R? || s.M?
    case Avx(wide, pp, _, _, s) => (s.R? || s.M?) && (wide ==> pp in {PNone, P66})
  }

  /** An immediate at the size of the operation, as the decoder gives it back. */
  function Full(z: Size, o: Operand): (o': Operand)
    requires OperandValid(o)
    ensures OperandValid(o')
  {
    match o
    case I8(b) =>
      (match z
       case S64 => I64(SignExtend8(b))
       case S32 => I32(SignExtend8(b) % 0x1_0000_0000)
       case S16 => I32(SignExtend8(b) % 0x1_0000)
       case _ => o)
    case I32(d) => if z == S64 then I64(SignExtend32(d)) else I32(d)
    case _ => Canon(o)
  }

  /** Narrowing keeps the value. */
  lemma NarrowKeeps(z: Size, o: Operand)
    requires OperandValid(o) && Fits(z, o)
    ensures Full(z, Reduce64to32(o)) == Full(z, o) && Full(z, ReduceTo8(z, o)) == Full(z, o)
    ensures Full(z, ReduceTo8(z, Reduce64to32(o))) == Full(z, o)
  {
    Narrow64(z, o);
    Narrow8(z, o);
    Narrow8(z, Reduce64to32(o));
  }

  lemma Narrow64(z: Size, o: Operand)
    requires OperandValid(o) && Fits(z, o)
    ensures Full(z, Reduce64to32(o)) == Full(z, o) && Fits(z, Reduce64to32(o))
  {}

  lemma Narrow8(z: Size, o: Operand)
    requires OperandValid(o) && Fits(z, o)
    ensures Full(z, ReduceTo8(z, o)) == Full(z, o) && Fits(z, ReduceTo8(z, o))
  {
    if o.I32? && ReduceTo8(z, o) != o {
      if z == S16 { Extends16(o.d); } else { Extends32(o.d); }
    }
  }

  lemma Extends16(d: int)
    requires 0 <= d < 0x1_0000 && -128 < Signed16of(d) < 128
    ensures SignExtend8(d % 256) % 0x1_0000 == d
  {}

  lemma Extends32(d: int)
    requires 0 <= d < 0x1_0000_0000 && -128 < Signed32of(d) < 128
    ensures SignExtend8(d % 256) == SignExtend32(d) && SignExtend32(d) % 0x1_0000_0000 == d
  {}

  // ----- generator

  /** Bits of the REX prefix. */
  function RexBits(w: bool, r: nat, c: Coded): (b: nat)
    requires r < 2 && c.x < 2 && c.b < 2
    ensures b < 16
    ensures BitOf(b, REX_R) == r && BitOf(b, REX_X) == c.x && BitOf(b, REX_B) == c.b && (b >= REX_W <==> w)
  {
    (if w then REX_W else 0) + REX_R * r + REX_X * c.x + REX_B * c.b
  }

  function PpBytes(pp: Pp): (s: seq<Byte>)
    ensures |s| <= 1
  {
    match pp case PNone => [] case P66 => [0x66] case PF3 => [0xF3] case PF2 => [0xF2]
  }

  /** Mandatory prefix and REX; without any bit there is no REX unless it is forced. */
  function Prefix(pp: Pp, rex: nat, force: bool): (s: seq<Byte>)
    requires rex < 16
    ensures |s| <= 2
  {
    PpBytes(pp) + if rex > 0 || force then [0x40 + rex] else []
  }

  /** Operand rm in the r/m field, register or digit in the other one. */
  function Legacy(pp: Pp, w: bool, force: bool, opc: seq<Byte>, rm: Operand, reg: Reg,
                  imm: seq<Byte>): Option<seq<Byte>> {
    if !OperandEncodable(rm) then None
    else var c := Encode(rm, reg % 8); Some(Prefix(pp, RexBits(w, reg / 8, c), force) + opc + c.bytes + imm)
  }

  /** SPL, BPL, SIL and DIL need a REX prefix, even an empty one. */
  predicate NeedsRex(z: Size, o: Operand) { z == S8 && o.R? && 4 <= o.r < 8 }

  function PpOfSize(z: Size): Pp { if z == S16 then P66 else PNone }

  function GenRM(z: Size, opc: seq<Byte>, rm: Operand, reg: Reg, imm: seq<Byte>): Option<seq<Byte>> {
    Legacy(PpOfSize(z), z == S64, NeedsRex(z, rm) || NeedsRex(z, R(reg)), opc, rm, reg, imm)
  }

  function GenDigit(z: Size, opc: seq<Byte>, rm: Operand, digit: nat, imm: seq<Byte>): Option<seq<Byte>>
    requires digit < 8
  {
    Legacy(PpOfSize(z), z == S64, NeedsRex(z, rm), opc, rm, digit, imm)
  }

  /** The low bytes of an immediate, four of them or two for 16-bit operations. */
  function ImmBytes(z: Size, d: int): (s: seq<Byte>)
    requires 0 <= d < 0x1_0000_0000
    ensures |s| == ImmLen(z)
  {
    BytesOf(d, ImmLen(z))
  }

  function ImmLen(z: Size): nat { if z == S16 then 2 else 4 }

  /** Number of an operation in the opcode map and as sub-opcode. */
  function GroupNo(op: AluOp): nat {
    match op case Add => 0 case Or => 1 case And => 4 case Sub => 5 case Xor => 6 case Imul => 2
  }

  const CMP_NO: nat := 7

  /** Only ADD and AND are generated for bytes and 16 bits. */
  function GenArith(z: Size, g: nat, d: Operand, s: Operand): Option<seq<Byte>>
    requires g < 8 && OperandValid(s)
  {
    if z !in {S32, S64} && g !in {0, 4} then None
    else
      var wide := if IsByte(z) then 0 else 1;
      match s
      case R(r) => GenRM(z, [8 * g + wide], d, r, [])
      case M(_) => if d.R? then GenRM(z, [8 * g + 2 + wide], s, d.r, []) else None
      case I8(b) =>
        if IsByte(z) then (if d == R(RAX) then Some([8 * g + 4] + [b]) else GenDigit(z, [0x80], d, g, [b]))
        else GenDigit(z, [0x83], d, g, [b])
      case I32(v) =>
        if IsByte(z) then None
        else if d == R(RAX) && g in {0, 4} then
          Some(Prefix(PpOfSize(z), if z == S64 then REX_W else 0, false) + [8 * g + 5] + ImmBytes(z, v))
        else GenDigit(z, [0x81], d, g, ImmBytes(z, v))
      case I64(_) => None
  }

  function GenMov(z: Size, d: Operand, s: Operand): Option<seq<Byte>>
    requires OperandValid(s)
  {
    if z !in {S32, S64} then None
    else match s
      case R(r) => GenRM(z, [0x89], d, r, [])
      case M(_) => if d.R? then GenRM(z, [0x8B], s, d.r, []) else None
      case I32(v) =>
        if d.R? && v == 0 then GenRM(z, [0x31], d, d.r, []) else GenDigit(z, [0xC7], d, 0, ImmBytes(z, v))
      case I64(v) =>
        if d.R? then Some([0x48 + d.r / 8] + [0xB8 + d.r % 8] + Bytes8(v)) else None
      case I8(_) => None
  }

  /** With a 32-bit immediate only if that is the operand size. */
  function GenImul(z: Size, d: Operand, s: Operand): Option<seq<Byte>>
    requires OperandValid(s)
  {
    if !d.R? || z !in {S32, S64} then None
    else match s
      case R(_) => GenRM(z, [0x0F, 0xAF], s, d.r, [])
      case M(_) => GenRM(z, [0x0F, 0xAF], s, d.r, [])
      case I8(b) => GenRM(z, [0x6B], d, d.r, [b])
      case I32(v) => if z == S32 then GenRM(z, [0x69], d, d.r, ImmBytes(z, v)) else None
      case I64(_) => None
  }

  /** The VEX prefix of a vector addition with three operands. */
  function AvxPrefix(wide: bool, pp: Pp, d: Reg, v: Reg, c: Coded): (i: VexInfo)
    ensures VexOk(i)
  {
    VexInfo(wide, v, pp, false, d >= 8, c.x == 1, c.b == 1)
  }

  function GenAvx(wide: bool, pp: Pp, d: Reg, v: Reg, s: Operand): Option<seq<Byte>> {
    if !OperandEncodable(s) then None
    else var c := Encode(s, d % 8); Some(WriteVex(AvxPrefix(wide, pp, d, v, c)) + [0x58] + c.bytes)
  }

  function GenInstr(z: Size, i: Instr): Option<seq<Byte>>
    requires InsnValid(Sized(z, i))
  {
    match i
    case Mov(d, s) => GenMov(z, d, Reduce64to32(s))
    case Alu(op, d, s) =>
      var t := ReduceTo8(z, Reduce64to32(s));
      if op == Imul then GenImul(z, d, t) else GenArith(z, GroupNo(op), d, t)
    case Cmp(d, s) => if z in {S32, S64} then GenArith(z, CMP_NO, d, ReduceTo8(z, Reduce64to32(s))) else None
    case Lea(r, m) => if z in {S32, S64} then GenRM(z, [0x8D], M(m), r, []) else None
    case Ret => Some([0xC3])
    case HintCall => Some([])
    case HintRet => Some([])
    case _ => None
  }

  /** Bytes of an instruction; None where the generator reports unsupported operands or stops.
      Hints take no bytes. */
  function Generate(x: Insn): Option<seq<Byte>>
    requires InsnValid(x)
  {
    match x
    case Sized(z, i) => GenInstr(z, i)
    case Sse(pp, d, s) => Legacy(pp, false, false, [0x0F, 0x58], s, d, [])
    case Avx(wide, pp, d, v, s) => GenAvx(wide, pp, d, v, s)
  }

  // ----- decoder

  /** An instruction and the offset behind it. */
  datatype Read = Read(x: Insn, next: nat)

  /** Prefixes seen: the last REX, whether there is one, and the mandatory ones. */
  datatype Pre = Pre(rex: nat, hasRex: bool, p66: bool, f2: bool, f3: bool)

  const NO_PREFIX: Pre := Pre(0, false, false, false, false)

  /** What is in front of an opcode, and where the opcode is. */
  datatype Prefixed = Plain(pre: Pre, q: nat) | Vexed(v: VexInfo, q: nat)

  predicate IsRex(b: Byte) { 0x40 <= b < 0x50 }

  /** Segment overrides and the hint for jumps. */
  predicate SegPrefix(b: Byte) { b in {0x64, 0x65, 0x2E} }

  predicate VexByte(b: Byte) { b in {0xC4, 0xC5} }

  predicate MandatoryByte(b: Byte) { b in {0x66, 0xF2, 0xF3} }

  predicate IsOpcode(b: Byte) { !IsRex(b) && !SegPrefix(b) && !VexByte(b) && !MandatoryByte(b) }

  /** The prefix b behind others. */
  function WithPrefix(st: Pre, b: Byte): Pre {
    if IsRex(b) then st.(rex := b % 16, hasRex := true)
    else if b == 0x66 then st.(p66 := true)
    else if b == 0xF2 then st.(f2 := true)
    else if b == 0xF3 then st.(f3 := true)
    else st
  }

  /** Prefixes from p on. A VEX prefix stands alone. */
  function Prefixes(m: seq<Byte>, p: nat, st: Pre): (r: Option<Prefixed>)
    ensures r.Some? ==> p <= r.value.q < |m|
    ensures r.Some? && r.value.Plain? ==> IsOpcode(m[r.value.q])
    ensures r.Some? && r.value.Plain? && st.rex < 16 ==> r.value.pre.rex < 16
    decreases |m| - p
  {
    if p >= |m| || SegPrefix(m[p]) then None
    else if VexByte(m[p]) then
      match ReadVex(m, p)
      case None => None
      case Some((v, q)) => if st == NO_PREFIX && q < |m| then Some(Vexed(v, q)) else None
    else if IsRex(m[p]) || MandatoryByte(m[p]) then Prefixes(m, p + 1, WithPrefix(st, m[p]))
    else Some(Plain(st, p))
  }

  /** Operand size where the opcode does not say it. */
  function SizeOf(st: Pre): Size { if st.p66 then S16 else if st.rex >= REX_W then S64 else S32 }

  function ByteSize(st: Pre): Size { if st.hasRex then S8 else S8L }

  /** At most one mandatory prefix; more stop the decoder. */
  function PpOfPre(st: Pre): Option<Pp> {
    match (st.p66, st.f3, st.f2)
    case (false, false, false) => Some(PNone)
    case (true, false, false) => Some(P66)
    case (false, true, false) => Some(PF3)
    case (false, false, true) => Some(PF2)
    case _ => None
  }

  function ArithOf(g: nat, d: Operand, s: Operand): (r: Option<Instr>)
    ensures r.Some? ==> r.value.Alu? || r.value.Cmp?
  {
    match g
    case 0 => Some(Alu(Add, d, s))
    case 1 => Some(Alu(Or, d, s))
    case 4 => Some(Alu(And, d, s))
    case 5 => Some(Alu(Sub, d, s))
    case 6 => Some(Alu(Xor, d, s))
    case 7 => Some(Cmp(d, s))
    case _ => None
  }

  function ReadImm8(z: Size, m: seq<Byte>, p: nat): Option<Operand> {
    if p < |m| then Some(Full(z, I8(m[p]))) else None
  }

  function Unsigned(s: seq<Byte>): (d: int)
    requires |s| <= 4
    ensures 0 <= d < 0x1_0000_0000
  {
    assert Pow256(4) == 0x1_0000_0000 && Pow256(3) == 0x100_0000 && Pow256(2) == 0x1_0000 && Pow256(1) == 256;
    WordOf(s)
  }

  /** Four bytes, sign-extended to the operand size, or two. */
  function ReadImm(z: Size, m: seq<Byte>, p: nat): Option<Operand> {
    if p + ImmLen(z) <= |m| then Some(Full(z, I32(Unsigned(m[p..p + ImmLen(z)])))) else None
  }

  function ReadImm64(m: seq<Byte>, p: nat): Option<Operand> {
    if p + 8 <= |m| then Some(I64(Word8(m[p..p + 8]))) else None
  }

  function Finished(z: Size, i: Option<Instr>, next: nat): Option<Read> {
    match i case None => None case Some(x) => Some(Read(Sized(z, x), next))
  }

  /** Operation with an immediate of n bytes. */
  function WithImm(z: Size, g: nat, o: Operand, v: Option<Operand>, next: nat): Option<Read> {
    match v case None => None case Some(w) => Finished(z, ArithOf(g, o, w), next)
  }

  /** An instruction with operand bytes at q. */
  function DecodeModRM(m: seq<Byte>, opc: nat, q: nat, st: Pre): (r: Option<Read>)
    ensures r.Some? ==> q < r.value.next <= |m|
  {
    match Parse(m, q, st.rex)
    case None => None
    case Some(x) =>
      var reg, o, n, digit, z, y := R(x.reg), x.o, x.next, x.reg % 8, SizeOf(st), ByteSize(st);
      if opc < 0x40 && opc % 8 == 0 then Finished(y, ArithOf(opc / 8, o, reg), n)
      else if opc < 0x40 && opc % 8 == 1 then Finished(z, ArithOf(opc / 8, o, reg), n)
      else if opc < 0x40 && opc % 8 == 2 then Finished(y, ArithOf(opc / 8, reg, o), n)
      else if opc < 0x40 && opc % 8 == 3 then Finished(z, ArithOf(opc / 8, reg, o), n)
      else if opc == 0x80 then WithImm(y, digit, o, ReadImm8(y, m, n), n + 1)
      else if opc == 0x81 then WithImm(z, digit, o, ReadImm(z, m, n), n + ImmLen(z))
      else if opc == 0x83 then WithImm(z, digit, o, ReadImm8(z, m, n), n + 1)
      else if opc == 0x89 then Some(Read(Sized(z, Mov(o, reg)), n))
      else if opc == 0x8B then Some(Read(Sized(z, Mov(reg, o)), n))
      else if opc == 0x8D then (if o.M? then Some(Read(Sized(z, Lea(x.reg, o.m)), n)) else None)
      else if opc == 0xC7 && digit == 0 then
        match ReadImm(z, m, n)
        case None => None
        case Some(v) => Some(Read(Sized(z, Mov(o, v)), n + ImmLen(z)))
      else if opc == 0x0FAF then Some(Read(Sized(z, Alu(Imul, reg, o)), n))
      else if opc == 0x0F58 then
        match PpOfPre(st) case None => None case Some(pp) => Some(Read(Sse(pp, x.reg, o), n))
      else if (opc == 0x6B || opc == 0x69) && o == reg then
        match if opc == 0x6B then ReadImm8(z, m, n) else ReadImm(z, m, n)
        case None => None
        case Some(v) => Some(Read(Sized(z, Alu(Imul, reg, v)), n + if opc == 0x6B then 1 else ImmLen(z)))
      else None
  }

  function RexOfVex(v: VexInfo): (rex: nat)
    ensures BitOf(rex, REX_R) == (if v.r then 1 else 0) && BitOf(rex, REX_X) == (if v.x then 1 else 0)
    ensures BitOf(rex, REX_B) == (if v.b then 1 else 0)
  {
    (if v.w then REX_W else 0) + (if v.r then REX_R else 0) + (if v.x then REX_X else 0) + (if v.b then REX_B else 0)
  }

  /** The vector additions of the table, whose entries for scalars are entered for the short vectors only. */
  function DecodeVex(m: seq<Byte>, v: VexInfo, q: nat): (r: Option<Read>)
    requires q < |m|
    ensures r.Some? ==> q < r.value.next <= |m|
  {
    if m[q] != 0x58 || (v.wide && v.pp !in {PNone, P66}) || v.vvvv >= 16 then None
    else
      match Parse(m, q + 1, RexOfVex(v))
      case None => None
      case Some(x) => Some(Read(Avx(v.wide, v.pp, x.reg, v.vvvv, x.o), x.next))
  }

  /** The instruction whose opcode is at q. */
  function DecodeOpc(m: seq<Byte>, st: Pre, q: nat): (r: Option<Read>)
    requires q < |m|
    ensures r.Some? ==> q < r.value.next <= |m|
  {
    var z := SizeOf(st);
    if m[q] == 0xC3 then Some(Read(Sized(S64, Ret), q + 1))
    else if m[q] == 0x0F then
      if q + 1 < |m| && m[q + 1] == 0xAF then DecodeModRM(m, 0x0FAF, q + 2, st)
      else if q + 1 < |m| && m[q + 1] == 0x58 then DecodeModRM(m, 0x0F58, q + 2, st)
      else None
    else if 0xB8 <= m[q] < 0xC0 then
      match if z == S64 then ReadImm64(m, q + 1) else ReadImm(z, m, q + 1)
      case None => None
      case Some(v) =>
        Some(Read(Sized(z, Mov(R(m[q] % 8 + 8 * BitOf(st.rex, REX_B)), v)), q + 1 + if z == S64 then 8 else ImmLen(z)))
    else if m[q] < 0x40 && m[q] % 8 == 4 then WithImm(S8, m[q] / 8, R(RAX), ReadImm8(S8, m, q + 1), q + 2)
    else if m[q] < 0x40 && m[q] % 8 == 5 then WithImm(z, m[q] / 8, R(RAX), ReadImm(z, m, q + 1), q + 1 + ImmLen(z))
    else DecodeModRM(m, m[q], q + 1, st)
  }

  /** The instruction at p; None for the many the fragment does not have. A product with an immediate is
      decoded with three operands, here its destination is its first factor. */
  function Decode(m: seq<Byte>, p: nat): (r: Option<Read>)
    ensures r.Some? ==> p < r.value.next <= |m|
  {
    match Prefixes(m, p, NO_PREFIX)
    case None => None
    case Some(Plain(st, q)) => DecodeOpc(m, st, q)
    case Some(Vexed(v, q)) => DecodeVex(m, v, q)
  }

  // ----- round trip

  /** The names of byte registers the decoder uses for an operation: it has seen a REX prefix or not. */
  function ByteNames(z: Size, rm: Operand, reg: Option<Reg>): (y: Size)
    requires OperandEncodable(rm)
    ensures IsByte(y)
  {
    var c := Encode(rm, 0);
    var rex := c.x > 0 || c.b > 0 || NeedsRex(z, rm) || (reg.Some? && (reg.value >= 8 || NeedsRex(z, R(reg.value))));
    if rex then S8 else S8L
  }

  /** Size and names of an arithmetic operation when it is decoded. */
  function SizeAfter(z: Size, d: Operand, s: Operand): Size {
    if !IsByte(z) then z
    else match s
      case R(r) => if OperandEncodable(d) then ByteNames(z, d, Some(r)) else z
      case M(_) => if d.R? && OperandEncodable(s) then ByteNames(z, s, Some(d.r)) else z
      case _ => if d == R(RAX) then S8 else if OperandEncodable(d) then ByteNames(z, d, None) else z
  }

  /** What an instruction becomes on the way through its bytes: immediates get full width, the index field of an
      operand without index is forgotten, clearing a register by a move becomes an exclusive or, and byte registers
      get the names that go with the prefixes. */
  function Norm(x: Insn): Insn
    requires InsnValid(x)
  {
    match x
    case Sized(z, i) =>
      (match i
       case Mov(d, s) => Sized(z, if Clears(x) then Alu(Xor, d, d) else Mov(Canon(d), Full(z, s)))
       case Alu(op, d, s) => Sized(SizeAfter(z, d, s), Alu(op, Canon(d), Full(z, s)))
       case Cmp(d, s) => Sized(z, Cmp(Canon(d), Full(z, s)))
       case Lea(r, m) => Sized(z, Lea(r, Canon(M(m)).m))
       case _ => x)
    case Sse(pp, d, s) => Sse(pp, d, Canon(s))
    case Avx(wide, pp, d, v, s) => Avx(wide, pp, d, v, Canon(s))
  }

  predicate Zero(o: Operand) { o == I64(0) || o == I32(0) }

  predicate Clears(x: Insn)
    requires InsnValid(x)
  {
    x.Sized? && x.i.Mov? && x.i.dst.R? && Zero(Full(x.z, x.i.src))
  }

  lemma MandatoryReads(m: seq<Byte>, p: nat, pp: Pp)
    requires Has(m, p, PpBytes(pp))
    ensures var st := Pre(0, false, pp == P66, pp == PF2, pp == PF3);
            Prefixes(m, p, NO_PREFIX) == Prefixes(m, p + |PpBytes(pp)|, st)
  {
    if pp != PNone { assert m[p + 0] == PpBytes(pp)[0]; }
  }

  function PreOf(pp: Pp, rex: nat, force: bool): Pre { Pre(rex, rex > 0 || force, pp == P66, pp == PF2, pp == PF3) }

  lemma PrefixReads(m: seq<Byte>, p: nat, pp: Pp, rex: nat, force: bool, b: Byte)
    requires rex < 16 && p + |Prefix(pp, rex, force)| < |m| && IsOpcode(b)
    requires Has(m, p, Prefix(pp, rex, force)) && m[p + |Prefix(pp, rex, force)|] == b
    ensures Prefixes(m, p, NO_PREFIX) == Some(Plain(PreOf(pp, rex, force), p + |Prefix(pp, rex, force)|))
  {
    hide Has, PpBytes;
    var s := PpBytes(pp);
    SplitHas(m, p, s, if rex > 0 || force then [0x40 + rex] else []);
    MandatoryReads(m, p, pp);
    RexReads(m, p + |s|, Pre(0, false, pp == P66, pp == PF2, pp == PF3), rex, rex > 0 || force, b);
  }

  lemma RexReads(m: seq<Byte>, p: nat, st: Pre, rex: nat, has: bool, b: Byte)
    requires rex < 16 && IsOpcode(b) && st.rex == 0 && !st.hasRex && (rex > 0 ==> has)
    requires Has(m, p, if has then [0x40 + rex] else [])
    requires p + (if has then 1 else 0) < |m| && m[p + if has then 1 else 0] == b
    ensures Prefixes(m, p, st) == Some(Plain(st.(rex := rex, hasRex := has), p + if has then 1 else 0))
  {
    if has { assert m[p + 0] == [0x40 + rex][0]; }
  }

  /** Parts of an instruction with operand bytes. */
  lemma ModRMParts(m: seq<Byte>, p: nat, pp: Pp, w: bool, force: bool, opc: seq<Byte>, rm: Operand, reg: Reg,
                   imm: seq<Byte>)
    requires 1 <= |opc| <= 2 && IsOpcode(opc[0]) && OperandEncodable(rm)
    requires Has(m, p, Legacy(pp, w, force, opc, rm, reg, imm).value)
    ensures var c := Encode(rm, reg % 8);
            var rex := RexBits(w, reg / 8, c);
            var o := p + |Prefix(pp, rex, force)|;
            var q := o + |opc|;
            var n := q + |c.bytes|;
            && Prefixes(m, p, NO_PREFIX) == Some(Plain(PreOf(pp, rex, force), o))
            && q < |m| && m[o] == opc[0] && (|opc| == 2 ==> m[o + 1] == opc[1])
            && Parse(m, q, rex) == Some(Parsed(reg, Canon(rm), n))
            && Has(m, n, imm) && p + |Legacy(pp, w, force, opc, rm, reg, imm).value| == n + |imm|
  {
    hide Has, Encode, Parse, Canon, Prefixes, RexBits, OperandEncodable, Prefix, PreOf;
    var c := Encode(rm, reg % 8);
    var rex := RexBits(w, reg / 8, c);
    var r := Prefix(pp, rex, force);
    assert r + opc + c.bytes + imm == r + (opc + (c.bytes + imm));
    SplitHas(m, p, r, opc + (c.bytes + imm));
    FirstBytes(m, p + |r|, opc, c.bytes + imm);
    SplitHas(m, p + |r| + |opc|, c.bytes, imm);
    PrefixReads(m, p, pp, rex, force, opc[0]);
    RoundTrip(m, p + |r| + |opc|, rex, rm, reg % 8);
    assert reg % 8 + 8 * (reg / 8) == reg;
    InRange(m, p + |r| + |opc|, c.bytes);
  }

  lemma SplitHas(m: seq<Byte>, p: nat, a: seq<Byte>, s: seq<Byte>)
    requires Has(m, p, a + s)
    ensures Has(m, p, a) && Has(m, p + |a|, s)
  {
    HasParts(m, p, a, a + s);
    assert (a + s)[|a|..] == s;
  }

  lemma InRange(m: seq<Byte>, p: nat, s: seq<Byte>)
    requires Has(m, p, s)
    ensures p + |s| <= |m|
  {}

  lemma ImmReads8(z: Size, m: seq<Byte>, p: nat, b: Byte)
    requires Has(m, p, [b])
    ensures ReadImm8(z, m, p) == Some(Full(z, I8(b)))
  {
    assert m[p + 0] == [b][0];
  }

  lemma ImmReads(z: Size, m: seq<Byte>, p: nat, d: int)
    requires 0 <= d < 0x1_0000_0000 && (z == S16 ==> d < 0x1_0000) && Has(m, p, ImmBytes(z, d))
    ensures ReadImm(z, m, p) == Some(Full(z, I32(d)))
  {
    hide Full;
    assert m[p..p + ImmLen(z)] == ImmBytes(z, d);
    assert Pow256(4) == 0x1_0000_0000 && Pow256(2) == 0x1_0000;
    WordOfBytes(d, ImmLen(z));
  }

  predicate ArithNo(g: nat) { g in {0, 1, 4, 5, 6, 7} }

  lemma ArithRoundTrip(m: seq<Byte>, p: nat, z: Size, g: nat, d: Operand, s: Operand)
    requires ArithNo(g) && PairValid(d, s) && Fits(z, d) && Fits(z, s)
    requires GenArith(z, g, d, s).Some? && Has(m, p, GenArith(z, g, d, s).value)
    ensures Decode(m, p) ==
            Finished(SizeAfter(z, d, s), ArithOf(g, Canon(d), Full(z, s)), p + |GenArith(z, g, d, s).value|)
  {
    hide Decode, Has, Encode, Prefix, RexBits, NeedsRex, Canon, Full, ArithOf, ImmBytes;
    match s
    case R(r) => ArithReg(m, p, z, g, d, r); FullReg(z, s);
    case M(_) => ArithMem(m, p, z, g, d.r, s); FullReg(z, s); FullReg(z, d);
    case I8(b) =>
      if d == R(RAX) && IsByte(z) { ArithAl(m, p, g, b); FullReg(z, d); FullByte(z, b); }
      else { ArithImm8(m, p, z, g, d, b); }
    case I32(v) =>
      if d == R(RAX) && g in {0, 4} { ArithRax(m, p, z, g, v); FullReg(z, d); } else { ArithImm32(m, p, z, g, d, v); }
    case I64(_) => assert false;
  }

  lemma FullByte(z: Size, b: Byte)
    requires IsByte(z)
    ensures Full(z, I8(b)) == Full(S8, I8(b)) == I8(b)
  {}

  /** Names and size with a register in the middle field. */
  lemma NamesRM(z: Size, rm: Operand, reg: Reg)
    requires OperandEncodable(rm)
    ensures var force := NeedsRex(z, rm) || NeedsRex(z, R(reg));
            var st := PreOf(PpOfSize(z), RexBits(z == S64, reg / 8, Encode(rm, reg % 8)), force);
            && (IsByte(z) ==> ByteSize(st) == ByteNames(z, rm, Some(reg)))
            && (!IsByte(z) ==> SizeOf(st) == z)
  {
    EncodeBits(rm, reg % 8);
  }

  lemma NamesDigit(z: Size, rm: Operand, digit: nat)
    requires OperandEncodable(rm) && digit < 8
    ensures var st := PreOf(PpOfSize(z), RexBits(z == S64, 0, Encode(rm, digit)), NeedsRex(z, rm));
            && (IsByte(z) ==> ByteSize(st) == ByteNames(z, rm, None))
            && (!IsByte(z) ==> SizeOf(st) == z)
  {
    EncodeBits(rm, digit);
  }

  /** The bits beside the operand bytes do not depend on the middle field. */
  lemma EncodeBits(rm: Operand, digit: nat)
    requires OperandEncodable(rm) && digit < 8
    ensures Encode(rm, digit).x == Encode(rm, 0).x && Encode(rm, digit).b == Encode(rm, 0).b
  {}

  lemma ArithReg(m: seq<Byte>, p: nat, z: Size, g: nat, d: Operand, r: Reg)
    requires ArithNo(g) && OperandEncodable(d) && Has(m, p, GenRM(z, [8 * g + WideBit(z)], d, r, []).value)
    ensures Decode(m, p) == Finished(if IsByte(z) then ByteNames(z, d, Some(r)) else z, ArithOf(g, Canon(d), R(r)),
                                     p + |GenRM(z, [8 * g + WideBit(z)], d, r, []).value|)
  {
    hide Parse, Encode, Canon, ArithOf, Prefix, RexBits, Prefixes, SizeOf, ByteSize, ByteNames, Has, NeedsRex;
    NamesRM(z, d, r);
    ModRMParts(m, p, PpOfSize(z), z == S64, NeedsRex(z, d) || NeedsRex(z, R(r)), [8 * g + WideBit(z)], d, r, []);
    OpcodeOf(g, WideBit(z));
  }

  function WideBit(z: Size): (n: nat)
    ensures n < 2
  {
    if IsByte(z) then 0 else 1
  }

  lemma OpcodeOf(g: nat, k: nat)
    requires g < 8 && k < 8
    ensures (8 * g + k) % 8 == k && (8 * g + k) / 8 == g
  {}

  lemma ArithMem(m: seq<Byte>, p: nat, z: Size, g: nat, r: Reg, s: Operand)
    requires ArithNo(g) && OperandEncodable(s) && Has(m, p, GenRM(z, [8 * g + 2 + WideBit(z)], s, r, []).value)
    ensures Decode(m, p) == Finished(if IsByte(z) then ByteNames(z, s, Some(r)) else z, ArithOf(g, R(r), Canon(s)),
                                     p + |GenRM(z, [8 * g + 2 + WideBit(z)], s, r, []).value|)
  {
    hide Parse, Encode, Canon, ArithOf, Prefix, RexBits, Prefixes, SizeOf, ByteSize, ByteNames, Has, NeedsRex;
    NamesRM(z, s, r);
    ModRMParts(m, p, PpOfSize(z), z == S64, NeedsRex(z, s) || NeedsRex(z, R(r)), [8 * g + 2 + WideBit(z)], s, r, []);
    OpcodeOf(g, 2 + WideBit(z));
  }

  lemma ArithImm8(m: seq<Byte>, p: nat, z: Size, g: nat, d: Operand, b: Byte)
    requires ArithNo(g) && OperandEncodable(d) && Has(m, p, GenDigit(z, [0x80 + 3 * WideBit(z)], d, g, [b]).value)
    ensures Decode(m, p) == Finished(if IsByte(z) then ByteNames(z, d, None) else z,
                                     ArithOf(g, Canon(d), Full(z, I8(b))),
                                     p + |GenDigit(z, [0x80 + 3 * WideBit(z)], d, g, [b]).value|)
  {
    hide Parse, Encode, Canon, ArithOf, Full, ReadImm8, ReadImm, Prefix, RexBits, Prefixes, SizeOf, ByteSize;
    hide ByteNames, Has, NeedsRex;
    NamesDigit(z, d, g);
    ModRMParts(m, p, PpOfSize(z), z == S64, NeedsRex(z, d), [0x80 + 3 * WideBit(z)], d, g, [b]);
    var n := p + |GenDigit(z, [0x80 + 3 * WideBit(z)], d, g, [b]).value| - 1;
    ImmReads8(z, m, n, b);
    if IsByte(z) {
      ImmReads8(ByteNames(z, d, None), m, n, b);
      SameByteFull(z, ByteNames(z, d, None), b);
    }
  }

  lemma SameByteFull(z: Size, y: Size, b: Byte)
    requires IsByte(z)
    ensures y in {S8, S8L} ==> Full(y, I8(b)) == Full(z, I8(b))
  {}

  lemma ArithImm32(m: seq<Byte>, p: nat, z: Size, g: nat, d: Operand, v: int)
    requires !IsByte(z) && 0 <= v < 0x1_0000_0000 && (z == S16 ==> v < 0x1_0000)
    requires ArithNo(g) && OperandEncodable(d) && Has(m, p, GenDigit(z, [0x81], d, g, ImmBytes(z, v)).value)
    ensures Decode(m, p) ==
            Finished(z, ArithOf(g, Canon(d), Full(z, I32(v))), p + |GenDigit(z, [0x81], d, g, ImmBytes(z, v)).value|)
  {
    hide Parse, Encode, Canon, ArithOf, Full, ReadImm8, ReadImm, ImmBytes, Prefix, RexBits, Prefixes, SizeOf, ByteSize;
    hide Has, NeedsRex;
    NamesDigit(z, d, g);
    ModRMParts(m, p, PpOfSize(z), z == S64, NeedsRex(z, d), [0x81], d, g, ImmBytes(z, v));
    ImmReads(z, m, p + |GenDigit(z, [0x81], d, g, ImmBytes(z, v)).value| - ImmLen(z), v);
  }

  lemma ArithAl(m: seq<Byte>, p: nat, g: nat, b: Byte)
    requires g in {0, 4} && Has(m, p, [8 * g + 4] + [b])
    ensures Decode(m, p) == Finished(S8, ArithOf(g, R(RAX), Full(S8, I8(b))), p + 2)
  {
    hide ArithOf, Full, ReadImm8, Prefixes;
    FirstBytes(m, p, [8 * g + 4], [b]);
    PrefixReads(m, p, PNone, 0, false, 8 * g + 4);
    ImmReads8(S8, m, p + 1, b);
  }

  lemma ArithRax(m: seq<Byte>, p: nat, z: Size, g: nat, v: int)
    requires !IsByte(z) && 0 <= v < 0x1_0000_0000 && (z == S16 ==> v < 0x1_0000) && g in {0, 4}
    requires Has(m, p, Prefix(PpOfSize(z), if z == S64 then REX_W else 0, false) + [8 * g + 5] + ImmBytes(z, v))
    ensures Decode(m, p) ==
            Finished(z, ArithOf(g, R(RAX), Full(z, I32(v))),
                     p + |Prefix(PpOfSize(z), if z == S64 then REX_W else 0, false)| + 1 + ImmLen(z))
  {
    hide ArithOf, Full, ReadImm, ImmBytes, Prefixes, Prefix;
    var rex := if z == S64 then REX_W else 0;
    var r := Prefix(PpOfSize(z), rex, false);
    assert r + [8 * g + 5] + ImmBytes(z, v) == r + ([8 * g + 5] + ImmBytes(z, v));
    SplitHas(m, p, r, [8 * g + 5] + ImmBytes(z, v));
    FirstBytes(m, p + |r|, [8 * g + 5], ImmBytes(z, v));
    PrefixReads(m, p, PpOfSize(z), rex, false, 8 * g + 5);
    ImmReads(z, m, p + |r| + 1, v);
  }

  lemma FullReg(z: Size, o: Operand)
    requires OperandValid(o) && (o.R? || o.M?)
    ensures Full(z, o) == Canon(o) && (o.R? ==> Canon(o) == o) && (o.M? ==> Canon(o).M?)
  {}

  lemma MovRoundTrip(m: seq<Byte>, p: nat, z: Size, d: Operand, s: Operand)
    requires PairValid(d, s) && Fits(z, d) && Fits(z, s) && GenMov(z, d, s).Some? && Has(m, p, GenMov(z, d, s).value)
    requires s.I64? ==> s.v != 0
    ensures Decode(m, p) == Some(Read(Norm(Sized(z, Mov(d, s))), p + |GenMov(z, d, s).value|))
  {
    hide Decode, Has, Encode, Prefix, RexBits, NeedsRex, Canon, Full, ImmBytes, BytesOf;
    match s
    case R(r) => MovParts(m, p, z, 0x89, d, r); FullReg(z, s); FullReg(z, d);
    case M(_) => MovParts(m, p, z, 0x8B, s, d.r); FullReg(z, s); FullReg(z, d);
    case I32(v) =>
      FullImm(z, s);
      FullReg(z, d);
      if d.R? && v == 0 {
        MovParts(m, p, z, 0x31, d, d.r);
      } else {
        MovImm32(m, p, z, d, v);
      }
    case I64(v) =>
      FullImm(z, s);
      FullReg(z, d);
      MovImm64(m, p, d.r, v);
    case I8(_) => assert false;
  }

  /** The move of a register or of memory, or the clearing of a register. */
  lemma MovParts(m: seq<Byte>, p: nat, z: Size, opc: Byte, rm: Operand, reg: Reg)
    requires !IsByte(z) && opc in {0x89, 0x8B, 0x31} && OperandEncodable(rm)
    requires Has(m, p, GenRM(z, [opc], rm, reg, []).value)
    ensures Decode(m, p) == Some(Read(Sized(z,
              if opc == 0x89 then Mov(Canon(rm), R(reg)) else if opc == 0x8B then Mov(R(reg), Canon(rm))
              else Alu(Xor, Canon(rm), R(reg))), p + |GenRM(z, [opc], rm, reg, []).value|))
  {
    hide Parse, Encode, Canon, Prefix, RexBits, Has, ReadImm, ReadImm8, ReadImm64, Prefixes, SizeOf, ByteSize, NeedsRex;
    NamesRM(z, rm, reg);
    ModRMParts(m, p, PpOfSize(z), z == S64, NeedsRex(z, rm) || NeedsRex(z, R(reg)), [opc], rm, reg, []);
  }

  lemma MovImm32(m: seq<Byte>, p: nat, z: Size, d: Operand, v: int)
    requires z in {S32, S64} && 0 <= v < 0x1_0000_0000 && OperandEncodable(d)
    requires Has(m, p, GenDigit(z, [0xC7], d, 0, ImmBytes(z, v)).value)
    ensures Decode(m, p) ==
            Some(Read(Sized(z, Mov(Canon(d), Full(z, I32(v)))), p + |GenDigit(z, [0xC7], d, 0, ImmBytes(z, v)).value|))
  {
    hide Parse, Encode, Canon, Full, ReadImm, ImmBytes, Prefix, RexBits, Has, Prefixes, SizeOf, ByteSize, NeedsRex;
    NamesDigit(z, d, 0);
    ModRMParts(m, p, PpOfSize(z), z == S64, NeedsRex(z, d), [0xC7], d, 0, ImmBytes(z, v));
    ImmReads(z, m, p + |GenDigit(z, [0xC7], d, 0, ImmBytes(z, v)).value| - ImmLen(z), v);
  }

  lemma FullImm(z: Size, o: Operand)
    requires OperandValid(o) && (o.I32? || o.I64?)
    ensures o.I32? ==> (Zero(Full(z, o)) <==> o.d == 0)
    ensures o.I64? ==> Full(z, o) == o
  {}

  lemma MovImm64(m: seq<Byte>, p: nat, r: Reg, v: Word)
    requires Has(m, p, [0x48 + r / 8] + [0xB8 + r % 8] + Bytes8(v))
    ensures Decode(m, p) == Some(Read(Sized(S64, Mov(R(r), I64(v))), p + 10))
  {
    hide Bytes8, Prefixes;
    var rex, opc := [0x48 + r / 8], [0xB8 + r % 8];
    assert rex + opc + Bytes8(v) == rex + (opc + Bytes8(v));
    SplitHas(m, p, rex, opc + Bytes8(v));
    FirstBytes(m, p + 1, opc, Bytes8(v));
    assert Prefix(PNone, 8 + r / 8, false) == rex;
    PrefixReads(m, p, PNone, 8 + r / 8, false, 0xB8 + r % 8);
    InRange(m, p + 2, Bytes8(v));
    assert m[p + 2..p + 10] == Bytes8(v);
    assert r % 8 + 8 * (r / 8) == r;
  }

  lemma ImulRoundTrip(m: seq<Byte>, p: nat, z: Size, d: Operand, s: Operand)
    requires PairValid(d, s) && Fits(z, d) && Fits(z, s) && GenImul(z, d, s).Some? && Has(m, p, GenImul(z, d, s).value)
    ensures Decode(m, p) == Some(Read(Sized(z, Alu(Imul, d, Full(z, s))), p + |GenImul(z, d, s).value|))
  {
    hide Decode, Has, Canon, Full, ImmBytes, Encode, Prefix, RexBits;
    FullReg(z, d);
    match s
    case R(_) => ImulPlain(m, p, z, d.r, s); FullReg(z, s);
    case M(_) => ImulPlain(m, p, z, d.r, s); FullReg(z, s);
    case I8(b) => ImulImm8(m, p, z, d.r, b);
    case I32(v) => ImulImm32(m, p, z, d.r, v);
    case I64(_) => assert false;
  }

  lemma ImulPlain(m: seq<Byte>, p: nat, z: Size, r: Reg, s: Operand)
    requires !IsByte(z) && OperandEncodable(s) && Has(m, p, GenRM(z, [0x0F, 0xAF], s, r, []).value)
    ensures Decode(m, p) ==
            Some(Read(Sized(z, Alu(Imul, R(r), Canon(s))), p + |GenRM(z, [0x0F, 0xAF], s, r, []).value|))
  {
    hide Parse, Encode, Canon, Prefix, RexBits, Has, ReadImm, ReadImm8, ReadImm64, Prefixes, SizeOf, ByteSize, NeedsRex;
    NamesRM(z, s, r);
    ModRMParts(m, p, PpOfSize(z), z == S64, NeedsRex(z, s) || NeedsRex(z, R(r)), [0x0F, 0xAF], s, r, []);
  }

  lemma ImulImm8(m: seq<Byte>, p: nat, z: Size, r: Reg, b: Byte)
    requires !IsByte(z) && Has(m, p, GenRM(z, [0x6B], R(r), r, [b]).value)
    ensures Decode(m, p) ==
            Some(Read(Sized(z, Alu(Imul, R(r), Full(z, I8(b)))), p + |GenRM(z, [0x6B], R(r), r, [b]).value|))
  {
    hide Parse, Encode, Full, Prefix, RexBits, Has, ReadImm, ReadImm8, ReadImm64, Prefixes, SizeOf, ByteSize, NeedsRex;
    NamesRM(z, R(r), r);
    ModRMParts(m, p, PpOfSize(z), z == S64, NeedsRex(z, R(r)) || NeedsRex(z, R(r)), [0x6B], R(r), r, [b]);
    ImmReads8(z, m, p + |GenRM(z, [0x6B], R(r), r, [b]).value| - 1, b);
  }

  lemma ImulImm32(m: seq<Byte>, p: nat, z: Size, r: Reg, v: int)
    requires !IsByte(z) && 0 <= v < 0x1_0000_0000 && (z == S16 ==> v < 0x1_0000)
    requires Has(m, p, GenRM(z, [0x69], R(r), r, ImmBytes(z, v)).value)
    ensures Decode(m, p) ==
            Some(Read(Sized(z, Alu(Imul, R(r), Full(z, I32(v)))),
                      p + |GenRM(z, [0x69], R(r), r, ImmBytes(z, v)).value|))
  {
    hide Parse, Encode, Full, Prefix, RexBits, Has, ImmBytes, ReadImm, ReadImm8, ReadImm64, Prefixes, SizeOf, ByteSize;
    hide NeedsRex;
    NamesRM(z, R(r), r);
    ModRMParts(m, p, PpOfSize(z), z == S64, NeedsRex(z, R(r)) || NeedsRex(z, R(r)), [0x69], R(r), r, ImmBytes(z, v));
    ImmReads(z, m, p + |GenRM(z, [0x69], R(r), r, ImmBytes(z, v)).value| - ImmLen(z), v);
  }

  lemma SseRoundTrip(m: seq<Byte>, p: nat, pp: Pp, d: Reg, s: Operand)
    requires OperandEncodable(s) && Has(m, p, Legacy(pp, false, false, [0x0F, 0x58], s, d, []).value)
    ensures Decode(m, p) ==
            Some(Read(Sse(pp, d, Canon(s)), p + |Legacy(pp, false, false, [0x0F, 0x58], s, d, []).value|))
  {
    hide Parse, Encode, Canon, Prefix, RexBits, Has, ReadImm, ReadImm8, ReadImm64, Prefixes, SizeOf, ByteSize;
    ModRMParts(m, p, pp, false, false, [0x0F, 0x58], s, d, []);
  }

  /** A VEX prefix is read with its bits, which the operand bytes are then read with. */
  lemma AvxRoundTrip(m: seq<Byte>, p: nat, wide: bool, pp: Pp, d: Reg, v: Reg, s: Operand)
    requires OperandEncodable(s) && (wide ==> pp in {PNone, P66}) && Has(m, p, GenAvx(wide, pp, d, v, s).value)
    ensures Decode(m, p) == Some(Read(Avx(wide, pp, d, v, Canon(s)), p + |GenAvx(wide, pp, d, v, s).value|))
  {
    hide Parse, Encode, Canon, Has, ReadVex, WriteVex, OperandEncodable, RexOfVex;
    var c := Encode(s, d % 8);
    var i := AvxPrefix(wide, pp, d, v, c);
    var w := WriteVex(i);
    assert w + [0x58] + c.bytes == w + ([0x58] + c.bytes);
    SplitHas(m, p, w, [0x58] + c.bytes);
    FirstBytes(m, p + |w|, [0x58], c.bytes);
    InRange(m, p + |w| + 1, c.bytes);
    VexRoundTrip(m, p, i);
    VexStarts(m, p, i);
    assert Prefixes(m, p, NO_PREFIX) == Some(Vexed(i, p + |w|));
    RoundTrip(m, p + |w| + 1, RexOfVex(i), s, d % 8);
    assert d % 8 + 8 * (d / 8) == d;
  }

  lemma VexStarts(m: seq<Byte>, p: nat, i: VexInfo)
    requires VexOk(i) && Has(m, p, WriteVex(i))
    ensures p < |m| && VexByte(m[p])
  {
    assert m[p + 0] == WriteVex(i)[0];
  }

  /** Decoding the bytes of an instruction gives the instruction, in normal form, and its length, in front of
      whatever follows. */
  lemma InstrRoundTrip(m: seq<Byte>, p: nat, x: Insn)
    requires InsnValid(x) && Generate(x).Some? && Generate(x).value != [] && Has(m, p, Generate(x).value)
    ensures Decode(m, p) == Some(Read(Norm(x), p + |Generate(x).value|))
  {
    hide Decode, GenArith, GenMov, GenImul, Full, Canon, Has, Reduce64to32, ReduceTo8, Encode, SizeAfter, Prefix,
         WriteVex;
    match x
    case Sized(z, i) => SizedRoundTrip(m, p, z, i);
    case Sse(pp, d, s) => SseRoundTrip(m, p, pp, d, s);
    case Avx(wide, pp, d, v, s) => AvxRoundTrip(m, p, wide, pp, d, v, s);
  }

  lemma SizedRoundTrip(m: seq<Byte>, p: nat, z: Size, i: Instr)
    requires InsnValid(Sized(z, i)) && GenInstr(z, i).Some? && GenInstr(z, i).value != []
    requires Has(m, p, GenInstr(z, i).value)
    ensures Decode(m, p) == Some(Read(Norm(Sized(z, i)), p + |GenInstr(z, i).value|))
  {
    hide Decode, GenArith, GenMov, GenImul, Full, Canon, Has, Reduce64to32, ReduceTo8, Encode, SizeAfter, Prefix;
    match i
    case Mov(d, s) =>
      NarrowKeeps(z, s);
      NarrowedZero(s);
      ReducedPair(z, d, s);
      MovRoundTrip(m, p, z, d, Reduce64to32(s));
    case Alu(op, d, s) =>
      NarrowKeeps(z, s);
      ReducedPair(z, d, s);
      SameSizeAfter(z, d, s);
      if op == Imul {
        ImulRoundTrip(m, p, z, d, ReduceTo8(z, Reduce64to32(s)));
        ImulShape(z, d, ReduceTo8(z, Reduce64to32(s)));
        FullReg(z, d);
        WordSize(z, d, s);
      } else {
        ArithRoundTrip(m, p, z, GroupNo(op), d, ReduceTo8(z, Reduce64to32(s)));
      }
    case Cmp(d, s) =>
      NarrowKeeps(z, s);
      ReducedPair(z, d, s);
      WordSize(z, d, ReduceTo8(z, Reduce64to32(s)));
      ArithRoundTrip(m, p, z, CMP_NO, d, ReduceTo8(z, Reduce64to32(s)));
    case Lea(r, a) => LeaRoundTrip(m, p, z, r, a);
    case Ret => RetRoundTrip(m, p);
  }

  lemma WordSize(z: Size, d: Operand, s: Operand)
    ensures !IsByte(z) ==> SizeAfter(z, d, s) == z
  {}

  lemma ImulShape(z: Size, d: Operand, s: Operand)
    requires OperandValid(s) && GenImul(z, d, s).Some?
    ensures d.R? && !IsByte(z)
  {}

  /** Narrowing an immediate does not change the names of byte registers. */
  lemma SameSizeAfter(z: Size, d: Operand, s: Operand)
    ensures SizeAfter(z, d, ReduceTo8(z, Reduce64to32(s))) == SizeAfter(z, d, s)
  {
    hide ByteNames;
  }

  lemma ReducedPair(z: Size, d: Operand, s: Operand)
    requires PairValid(d, s) && Fits(z, s)
    ensures PairValid(d, Reduce64to32(s)) && PairValid(d, ReduceTo8(z, Reduce64to32(s)))
    ensures Fits(z, Reduce64to32(s)) && Fits(z, ReduceTo8(z, Reduce64to32(s)))
  {
    Narrow64(z, s);
    Narrow8(z, Reduce64to32(s));
  }

  lemma NarrowedZero(s: Operand)
    ensures Reduce64to32(s).I64? ==> Reduce64to32(s).v != 0
  {}

  lemma LeaRoundTrip(m: seq<Byte>, p: nat, z: Size, r: Reg, a: MemRef)
    requires !IsByte(z) && Encodable(a) && Has(m, p, GenRM(z, [0x8D], M(a), r, []).value)
    ensures Decode(m, p) == Some(Read(Sized(z, Lea(r, Canon(M(a)).m)), p + |GenRM(z, [0x8D], M(a), r, []).value|))
  {
    hide Parse, Encode, Prefix, RexBits, Has, Prefixes, SizeOf, ByteSize, NeedsRex, ReadImm, ReadImm8;
    NamesRM(z, M(a), r);
    ModRMParts(m, p, PpOfSize(z), z == S64, NeedsRex(z, M(a)) || NeedsRex(z, R(r)), [0x8D], M(a), r, []);
  }

  lemma RetRoundTrip(m: seq<Byte>, p: nat)
    requires Has(m, p, [0xC3])
    ensures Decode(m, p) == Some(Read(Sized(S64, Ret), p + 1))
  {
    assert m[p + 0] == [0xC3][0];
  }

  // ----- names of byte registers

  /** The register that a number names: 0 to 15 the low bytes, 16 and up the high ones. */
  function NamedReg(z: Size, r: Reg): nat { if z == S8L && 4 <= r < 8 then 12 + r else r }

  /** Registers of an operation that are not part of an address. */
  function PlainRegs(d: Operand, s: Operand): set<Reg> {
    (if d.R? then {d.r} else {}) + (if s.R? then {s.r} else {})
  }

  /** AH, CH, DH or BH occurs. */
  predicate HasHigh(z: Size, d: Operand, s: Operand) { z == S8L && exists r <- PlainRegs(d, s) :: 4 <= r < 8 }

  /** The operand has a register with a number of eight or more, whose top bit only a prefix can hold. */
  predicate NeedsExt(o: Operand) {
    match o
    case R(r) => r >= 8
    case M(m) => (m.base.Gp? && m.base.r >= 8) || (m.scale > 0 && m.idx >= 8)
    case _ => false
  }

  lemma ExtBits(o: Operand)
    requires OperandEncodable(o)
    ensures NeedsExt(o) <==> Encode(o, 0).x > 0 || Encode(o, 0).b > 0
  {}

  /** A byte operation on the legacy names is decoded with the other ones exactly if one of its operands has a register
      of the upper eight; adding to or masking AL by an immediate is always decoded with them. */
  lemma NamesChange(d: Operand, s: Operand)
    requires PairValid(d, s) && (s.R? || s.M? ==> OperandEncodable(if s.R? then d else s))
    requires (s.M? ==> d.R?) && (s.R? || s.M? || (s.I8? && OperandEncodable(d)))
    ensures SizeAfter(S8L, d, s) == S8 <==> NeedsExt(d) || NeedsExt(s) || (s.I8? && d == R(RAX))
  {
    hide Encode;
    if OperandEncodable(d) { ExtBits(d); }
    if OperandEncodable(s) { ExtBits(s); }
  }

  /** A decoded byte operation has the registers of the generated one, exactly unless one of AH to BH stands beside a
      register of the upper eight. */
  lemma NamesKept(z: Size, op: AluOp, d: Operand, s: Operand)
    requires InsnValid(Sized(z, Alu(op, d, s))) && Generate(Sized(z, Alu(op, d, s))).Some?
    ensures var y := Norm(Sized(z, Alu(op, d, s))).z;
            (forall r <- PlainRegs(d, s) :: NamedReg(y, r) == NamedReg(z, r))
            <==> !(HasHigh(z, d, s) && (NeedsExt(d) || NeedsExt(s)))
  {
    hide Full, Canon, Encode, Prefix;
    if z == S8L { NamesChange(d, s); }
    if z == S8 && SizeAfter(z, d, s) == S8L {
      forall r | r in PlainRegs(d, s) ensures !(4 <= r < 8) { SplNamed(d, s, r); }
    }
    if HasHigh(z, d, s) && SizeAfter(z, d, s) == S8 {
      var r :| r in PlainRegs(d, s) && 4 <= r < 8;
      assert NamedReg(S8, r) != NamedReg(z, r);
    }
  }

  /** SPL to DIL keep their names. */
  lemma SplNamed(d: Operand, s: Operand, r: Reg)
    requires PairValid(d, s) && SizeAfter(S8, d, s) == S8L && r in PlainRegs(d, s)
    ensures !(4 <= r < 8)
  {
    hide Encode;
  }

  /** add ah, [r8] comes back as add spl, [r8]. */
  lemma HighLost()
    ensures var x := Sized(S8L, Alu(Add, R(4), M(MemRef(Gp(8), 0, 0, 0))));
            InsnValid(x) && Generate(x).Some? && Norm(x).z == S8
  {}

  /** An instruction takes less than 15 bytes. */
  lemma ShortEnough(x: Insn)
    requires InsnValid(x) && Generate(x).Some?
    ensures |Generate(x).value| < 15
    ensures Generate(x).value == [] <==> x.Sized? && x.i in {HintCall, HintRet}
  {
    hide GenArith, GenMov, GenImul, GenRM, GenAvx, Legacy, Reduce64to32, ReduceTo8;
    match x
    case Sized(z, i) =>
      match i {
        case Mov(d, s) => MovShort(z, d, Reduce64to32(s));
        case Alu(op, d, s) =>
          ArithShort(z, GroupNo(op), d, ReduceTo8(z, Reduce64to32(s)));
          ImulShort(z, d, ReduceTo8(z, Reduce64to32(s)));
        case Cmp(d, s) => ArithShort(z, CMP_NO, d, ReduceTo8(z, Reduce64to32(s)));
        case Lea(r, m) => RMShort(z, [0x8D], M(m), r, []);
        case _ =>
      }
    case Sse(pp, d, s) => LegacyShort(pp, false, false, [0x0F, 0x58], s, d, []);
    case Avx(wide, pp, d, v, s) => AvxShort(wide, pp, d, v, s);
  }

  predicate Short(s: Option<seq<Byte>>) { s.Some? ==> 0 < |s.value| < 15 }

  lemma LegacyShort(pp: Pp, w: bool, force: bool, opc: seq<Byte>, rm: Operand, reg: Reg, imm: seq<Byte>)
    requires 1 <= |opc| <= 2 && |imm| <= 4
    ensures Short(Legacy(pp, w, force, opc, rm, reg, imm))
  {
    hide Encode, Prefix, RexBits, OperandEncodable;
  }

  lemma RMShort(z: Size, opc: seq<Byte>, rm: Operand, reg: Reg, imm: seq<Byte>)
    requires 1 <= |opc| <= 2 && |imm| <= 4
    ensures Short(GenRM(z, opc, rm, reg, imm)) && (reg < 8 ==> Short(GenDigit(z, opc, rm, reg, imm)))
  {
    hide Legacy, NeedsRex, Short;
    LegacyShort(PpOfSize(z), z == S64, NeedsRex(z, rm) || NeedsRex(z, R(reg)), opc, rm, reg, imm);
    LegacyShort(PpOfSize(z), z == S64, NeedsRex(z, rm), opc, rm, reg, imm);
  }

  lemma ArithShort(z: Size, g: nat, d: Operand, s: Operand)
    requires g < 8 && OperandValid(s)
    ensures Short(GenArith(z, g, d, s))
  {
    hide GenRM, GenDigit, Prefix, ImmBytes;
    var wide := WideBit(z);
    match s
    case R(r) => RMShort(z, [8 * g + wide], d, r, []);
    case M(_) => if d.R? { RMShort(z, [8 * g + 2 + wide], s, d.r, []); }
    case I8(b) => RMShort(z, [0x80], d, g, [b]); RMShort(z, [0x83], d, g, [b]);
    case I32(v) => RMShort(z, [0x81], d, g, ImmBytes(z, v));
    case I64(_) =>
  }

  lemma MovShort(z: Size, d: Operand, s: Operand)
    requires OperandValid(s)
    ensures Short(GenMov(z, d, s))
  {
    hide GenRM, GenDigit, ImmBytes, Bytes8;
    match s
    case R(r) => RMShort(z, [0x89], d, r, []);
    case M(_) => if d.R? { RMShort(z, [0x8B], s, d.r, []); }
    case I32(v) =>
      if d.R? { RMShort(z, [0x31], d, d.r, []); }
      RMShort(z, [0xC7], d, 0, ImmBytes(z, v));
    case I64(_) =>
    case I8(_) =>
  }

  lemma ImulShort(z: Size, d: Operand, s: Operand)
    requires OperandValid(s)
    ensures Short(GenImul(z, d, s))
  {
    hide GenRM, ImmBytes;
    if d.R? {
      match s
      case I8(b) => RMShort(z, [0x6B], d, d.r, [b]);
      case I32(v) => RMShort(z, [0x69], d, d.r, ImmBytes(z, v));
      case _ => RMShort(z, [0x0F, 0xAF], s, d.r, []);
    }
  }

  lemma AvxShort(wide: bool, pp: Pp, d: Reg, v: Reg, s: Operand)
    ensures Short(GenAvx(wide, pp, d, v, s))
  {
    hide Encode, OperandEncodable;
  }

  /** At 32 and 64 bits an operand keeps its value. */
  lemma FullValue(s: Mach, z: Size, o: Operand, ip: Word)
    requires s.Valid() && OperandValid(o) && z in {S32, S64}
    ensures Value(s, Full(z, o), ip) == Value(s, o, ip)
  {
    CanonSame(s, o, ip);
  }

  lemma ClearsRegister(s: Mach, r: Reg)
    requires s.Valid()
    ensures Result(Xor, s.reg[r], s.reg[r]) == 0
    ensures ResultFlags(Xor, s.reg[r], s.reg[r], s.flags) == Flags(false, true, false, false)
  {
    Bits.XorSelf(s.reg[r]);
  }

  lemma LeaSame(s: Mach, m: MemRef, ip: Word)
    requires s.Valid()
    ensures EffAddr(s, Canon(M(m)).m, ip) == EffAddr(s, m, ip)
  {}

  lemma NormValid(i: Instr)
    requires InstrValid(i)
    ensures InsnValid(Sized(S64, i))
    ensures Norm(Sized(S64, i)).Sized? && Norm(Sized(S64, i)).z == S64 && InstrValid(Norm(Sized(S64, i)).i)
  {}

  lemma ZeroValue(s: Mach, i: Instr, ip: Word)
    requires s.Valid() && InsnValid(Sized(S64, i)) && Clears(Sized(S64, i))
    ensures Value(s, i.src, ip) == 0
  {
    FullValue(s, S64, i.src, ip);
  }

  /** On 64 bits the normal form does what the instruction does; clearing by exclusive or in addition sets the
      flags. */
  lemma NormMeans(s: Mach, i: Instr, ip: Word)
    requires s.Valid() && InstrValid(i)
    ensures var x := Sized(S64, i);
            && InsnValid(x) && Norm(x).Sized? && InstrValid(Norm(x).i)
            && (!Clears(x) ==> Exec(s, Norm(x).i, ip) == Exec(s, i, ip))
            && (Clears(x) ==> Exec(s, Norm(x).i, ip) == Exec(s, i, ip).(flags := Flags(false, true, false, false)))
  {
    hide Canon, EffAddr, Full;
    NormValid(i);
    match i
    case Mov(d, o) =>
      FullValue(s, S64, o, ip);
      CanonSame(s, d, ip);
      if Clears(Sized(S64, i)) {
        ZeroValue(s, i, ip);
        ClearsRegister(s, d.r);
      }
    case Alu(_, d, o) =>
      FullValue(s, S64, o, ip);
      CanonSame(s, d, ip);
    case Cmp(d, o) =>
      FullValue(s, S64, o, ip);
      CanonSame(s, d, ip);
    case Lea(r, m) => LeaSame(s, m, ip);
    case _ =>
  }
}
