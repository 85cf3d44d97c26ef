/** The contexts that the generator and the decoder fill step by step. */
module Contexts {
  import opened Machine
  import opened Bytes
  import opened Ledger
  import opened ModRM
  import opened Vex
  import opened Codec
  import opened BlockCodec
  import opened Layout

  /** Generation of one instruction: REX bits and whether an empty REX is asked for, mandatory prefix, the VEX form with
      its vector length and second source, operand bytes, output. Fields of a byte are set once each, so that adding
      them is the same as or-ing them. */
  class GContext {
    var rex: nat
    var emptyRex: bool
    var ps: Pp
    var vp: Option<(bool, Reg)>
    var b: seq<Byte>
    var buf: seq<Byte>

    constructor ()
      ensures rex == 0 && !emptyRex && ps == PNone && vp == None && b == [] && buf == []
    {
      rex, emptyRex, ps, vp, b, buf := 0, false, PNone, None, [], [];
    }

    /** Operand bytes of o with a digit or register in the middle field; z is the operand size unless the instruction
        implies it. Fails where the generator stops. */
    method CalcModRMDigit(z: Option<Size>, o: Operand, digit: nat) returns (ok: bool)
      requires digit < 8 && rex in {0, REX_R}
      modifies this`rex, this`emptyRex, this`b
      ensures ok <==> OperandEncodable(o)
      ensures ok ==> var c := Encode(o, digit);
        && b == c.bytes && rex == old(rex) + (if z == Some(S64) then REX_W else 0) + REX_X * c.x + REX_B * c.b
        && emptyRex == (old(emptyRex) || (z.Some? && NeedsRex(z.value, o)))
    {
      if z == Some(S64) { rex := rex + REX_W; }
      var modrm := 8 * digit;
      if o.R? {
        if z == Some(S8) && 4 <= o.r < 8 { emptyRex := true; }
        if o.r >= 8 { rex := rex + REX_B; }
        b := [modrm + 192 + o.r % 8];
        return true;
      }
      if !o.M? { return false; }
      ok := CalcMem(o.m, digit);
    }

    /** The same with a register in the middle field. */
    method CalcModRM(z: Option<Size>, o: Operand, reg: Reg) returns (ok: bool)
      requires rex == 0
      modifies this`rex, this`emptyRex, this`b
      ensures ok <==> OperandEncodable(o)
      ensures ok ==> var c := Encode(o, reg % 8);
        && b == c.bytes && rex == RexBits(z == Some(S64), reg / 8, c)
        && emptyRex == (old(emptyRex) || (z.Some? && (NeedsRex(z.value, o) || NeedsRex(z.value, R(reg)))))
    {
      hide Encode, OperandEncodable;
      if z == Some(S8) && 4 <= reg < 8 { emptyRex := true; }
      if reg >= 8 { rex := rex + REX_R; }
      ok := CalcModRMDigit(z, o, reg % 8);
    }

    method CalcMem(m: MemRef, digit: nat) returns (ok: bool)
      requires digit < 8
      modifies this`rex, this`b
      ensures ok <==> Encodable(m)
      ensures ok ==> var c := EncodeMem(m, digit); b == c.bytes && rex == old(rex) + REX_X * c.x + REX_B * c.b
    {
      var v := Signed(m.disp);
      var mod := 0;
      if v != 0 {
        if -128 <= v < 128 { mod := 1; }
        else if -0x8000_0000 <= v < 0x8000_0000 { mod := 2; }
        else { return false; }
      }
      if m.base.Rip? { return false; }
      if m.scale == 0 && m.base != Gp(RSP) && m.base != Gp(12) {
        CalcBase(m, digit, mod);
        ok := true;
      } else {
        ok := CalcSib(m, digit, mod);
      }
    }

    /** No SIB byte is needed for the base register; without one it holds the missing base. */
    method CalcBase(m: MemRef, digit: nat, mod0: nat)
      requires digit < 8 && Encodable(m) && m.scale == 0 && m.base != Gp(RSP) && m.base != Gp(12)
      requires mod0 == DispMod(Signed(m.disp))
      modifies this`rex, this`b
      ensures var c := EncodeMem(m, digit); b == c.bytes && rex == old(rex) + REX_X * c.x + REX_B * c.b
    {
      hide Byte8, Bytes32;
      var v, mod := Signed(m.disp), mod0;
      if m.base.NoBase? {
        b := [8 * digit + 4, 4 * 8 + 5] + Bytes32(v);
      } else {
        var r1 := m.base.r;
        if (r1 == RBP || r1 == 13) && v == 0 { mod := 1; }
        if r1 >= 8 { rex := rex + REX_B; }
        b := [64 * mod + 8 * digit + r1 % 8];
        AppendDisp(v, mod == 1, mod == 2);
      }
    }

    method CalcSib(m: MemRef, digit: nat, mod0: nat) returns (ok: bool)
      requires digit < 8 && mod0 == DispMod(Signed(m.disp)) && !m.base.Rip?
      requires -0x8000_0000 <= Signed(m.disp) < 0x8000_0000
      requires m.base.Gp? ==> m.scale > 0 || m.base.r % 8 == 4
      modifies this`rex, this`b
      ensures ok <==> Encodable(m)
      ensures ok ==> var c := EncodeMem(m, digit); b == c.bytes && rex == old(rex) + REX_X * c.x + REX_B * c.b
    {
      hide Signed, Byte8, Bytes32;
      var v, mod := Signed(m.disp), mod0;
      var ss := if m.scale == 2 then 64 else if m.scale == 4 then 128 else if m.scale == 8 then 192 else 0;
      var ri := 4;
      if m.scale != 0 {
        if m.idx == RSP { return false; }
        if m.idx >= 8 { rex := rex + REX_X; }
        ri := m.idx % 8;
      }
      if m.base.NoBase? {
        b := [8 * digit + 4, ss + 8 * ri + 5] + Bytes32(v);
      } else {
        if (m.base.r == RBP || m.base.r == 13) && mod == 0 { mod := 1; }
        if m.base.r >= 8 { rex := rex + REX_B; }
        b := [64 * mod + 8 * digit + 4, ss + 8 * ri + m.base.r % 8];
        AppendDisp(v, mod == 1, mod == 2);
      }
      ok := true;
    }

    method AppendDisp(v: int, useDisp8: bool, useDisp32: bool)
      modifies this`b
      ensures b == old(b) + if useDisp8 then [Byte8(v)] else if useDisp32 then Bytes32(v) else []
    {
      if useDisp8 { b := b + [Byte8(v)]; } else if useDisp32 { b := b + Bytes32(v); }
    }

    /** Mandatory and REX prefix, or one of the VEX prefixes, which imply the leading opcode byte 0x0F. */
    method GenPrefix() returns (r: seq<Byte>)
      requires rex < 16
      modifies {}
      ensures vp == None ==> r == Prefix(ps, rex, emptyRex)
      ensures vp.Some? ==> r == WriteVex(VexOfRex(vp.value, ps, rex))
    {
      if vp == None {
        r := PpBytes(ps);
        if rex > 0 || emptyRex { r := r + [0x40 + rex]; }
        return;
      }
      var (wide, vvvv) := vp.value;
      var last := 8 * (15 - vvvv) + if wide then 4 else 0;
      match ps {
        case P66 => last := last + 1;
        case PF3 => last := last + 2;
        case PF2 => last := last + 3;
        case PNone =>
      }
      if BitOf(rex, REX_X) == 0 && BitOf(rex, REX_B) == 0 && BitOf(rex, REX_W) == 0 {
        r := [0xC5, last + if BitOf(rex, REX_R) == 1 then 0 else 128];
      } else {
        var b0 := 1;
        if BitOf(rex, REX_R) == 0 { b0 := b0 + 128; }
        if BitOf(rex, REX_X) == 0 { b0 := b0 + 64; }
        if BitOf(rex, REX_B) == 0 { b0 := b0 + 32; }
        if BitOf(rex, REX_W) == 0 { last := last + 128; }
        r := [0xC4, b0, last];
      }
    }

    /** Prefix, opcode, operand bytes and immediate. */
    method GenModRM(z: Size, opc: seq<Byte>, rm: Operand, reg: Reg, imm: seq<Byte>) returns (ok: bool)
      requires vp == None
      modifies this`rex, this`emptyRex, this`ps, this`b, this`buf
      ensures ok <==> GenRM(z, opc, rm, reg, imm).Some?
      ensures ok ==> buf == GenRM(z, opc, rm, reg, imm).value
    {
      hide Encode, OperandEncodable, Prefix, NeedsRex;
      rex, emptyRex, ps := 0, false, PpOfSize(z);
      ok := CalcModRM(Some(z), rm, reg);
      if ok {
        var r := GenPrefix();
        buf := r + opc + b + imm;
      }
    }

    method GenDigitRM(z: Size, opc: seq<Byte>, rm: Operand, digit: nat, imm: seq<Byte>) returns (ok: bool)
      requires vp == None && digit < 8
      modifies this`rex, this`emptyRex, this`ps, this`b, this`buf
      ensures ok <==> GenDigit(z, opc, rm, digit, imm).Some?
      ensures ok ==> buf == GenDigit(z, opc, rm, digit, imm).value
    {
      hide Encode, OperandEncodable, Prefix, NeedsRex, RexBits;
      rex, emptyRex, ps := 0, false, PpOfSize(z);
      ok := CalcModRMDigit(Some(z), rm, digit);
      if ok {
        WithDigit(z == S64, digit, Encode(rm, digit));
        var r := GenPrefix();
        buf := r + opc + b + imm;
      }
    }

    /** A vector addition: its opcode implies the operand size. */
    method GenVector(p: Pp, d: Reg, s: Operand, v: Option<(bool, Reg)>) returns (ok: bool)
      modifies this
      ensures v == None ==> var g := Legacy(p, false, false, [0x0F, 0x58], s, d, []);
        (ok <==> g.Some?) && (ok ==> buf == g.value)
      ensures v.Some? ==> var g := GenAvx(v.value.0, p, d, v.value.1, s);
        (ok <==> g.Some?) && (ok ==> buf == g.value)
    {
      hide Encode, OperandEncodable, Prefix, WriteVex;
      rex, emptyRex, ps, vp := 0, false, p, v;
      ok := CalcModRM(None, s, d);
      if ok {
        var r := GenPrefix();
        if v.Some? { SameVex(v.value.0, p, d, v.value.1, Encode(s, d % 8)); }
        buf := r + (if v == None then [0x0F, 0x58] else [0x58]) + b;
      }
    }

    method GenerateArith(z: Size, g: nat, d: Operand, s: Operand) returns (ok: bool)
      requires g < 8 && OperandValid(s) && vp == None
      modifies this`rex, this`emptyRex, this`ps, this`b, this`buf
      ensures ok <==> GenArith(z, g, d, s).Some?
      ensures ok ==> buf == GenArith(z, g, d, s).value
    {
      hide GenRM, GenDigit, ImmBytes;
      ok := false;
      if z !in {S32, S64} && g !in {0, 4} { return; }
      var wide := if IsByte(z) then 0 else 1;
      match s
      case R(r) => ok := GenModRM(z, [8 * g + wide], d, r, []);
      case M(_) => if d.R? { ok := GenModRM(z, [8 * g + 2 + wide], s, d.r, []); }
      case I8(v) =>
        if !IsByte(z) { ok := GenDigitRM(z, [0x83], d, g, [v]); }
        else if d == R(RAX) { buf, ok := [8 * g + 4] + [v], true; }
        else { ok := GenDigitRM(z, [0x80], d, g, [v]); }
      case I32(v) =>
        if IsByte(z) { return; }
        if d == R(RAX) && g in {0, 4} {
          rex, emptyRex, ps := if z == S64 then REX_W else 0, false, PpOfSize(z);
          var r := GenPrefix();
          buf, ok := r + [8 * g + 5] + ImmBytes(z, v), true;
        } else {
          ok := GenDigitRM(z, [0x81], d, g, ImmBytes(z, v));
        }
      case I64(_) =>
    }

    method GenerateMov(z: Size, d: Operand, s: Operand) returns (ok: bool)
      requires OperandValid(s) && vp == None
      modifies this`rex, this`emptyRex, this`ps, this`b, this`buf
      ensures ok <==> GenMov(z, d, s).Some?
      ensures ok ==> buf == GenMov(z, d, s).value
    {
      hide GenRM, GenDigit, ImmBytes, Bytes8;
      ok := false;
      if z !in {S32, S64} { return; }
      match s
      case R(r) => ok := GenModRM(z, [0x89], d, r, []);
      case M(_) => if d.R? { ok := GenModRM(z, [0x8B], s, d.r, []); }
      case I32(v) =>
        if d.R? && v == 0 { ok := GenModRM(z, [0x31], d, d.r, []); }
        else { ok := GenDigitRM(z, [0xC7], d, 0, ImmBytes(z, v)); }
      case I64(v) =>
        if d.R? {
          rex, emptyRex, ps := if d.r >= 8 then REX_W + REX_B else REX_W, false, PNone;
          var r := GenPrefix();
          buf, ok := r + [0xB8 + d.r % 8] + Bytes8(v), true;
        }
      case I8(_) =>
    }

    method GenerateImul(z: Size, d: Operand, s: Operand) returns (ok: bool)
      requires OperandValid(s) && vp == None
      modifies this`rex, this`emptyRex, this`ps, this`b, this`buf
      ensures ok <==> GenImul(z, d, s).Some?
      ensures ok ==> buf == GenImul(z, d, s).value
    {
      hide GenRM, ImmBytes;
      ok := false;
      if !d.R? || z !in {S32, S64} { return; }
      match s
      case R(_) => ok := GenModRM(z, [0x0F, 0xAF], s, d.r, []);
      case M(_) => ok := GenModRM(z, [0x0F, 0xAF], s, d.r, []);
      case I8(v) => ok := GenModRM(z, [0x6B], d, d.r, [v]);
      case I32(v) => if z == S32 { ok := GenModRM(z, [0x69], d, d.r, ImmBytes(z, v)); }
      case I64(_) =>
    }

    method GenerateInstr(x: Insn) returns (ok: bool)
      requires InsnValid(x)
      modifies this
      ensures ok <==> Generate(x).Some?
      ensures ok ==> buf == Generate(x).value
    {
      hide GenInstr, GenAvx, Legacy;
      match x
      case Sse(p, d, s) => ok := GenVector(p, d, s, None);
      case Avx(wide, p, d, v, s) => ok := GenVector(p, d, s, Some((wide, v)));
      case Sized(z, i) =>
        vp := None;
        ok := GenerateSized(z, i);
    }

    method GenerateSized(z: Size, i: Instr) returns (ok: bool)
      requires InsnValid(Sized(z, i)) && vp == None
      modifies this`rex, this`emptyRex, this`ps, this`b, this`buf
      ensures ok <==> GenInstr(z, i).Some?
      ensures ok ==> buf == GenInstr(z, i).value
    {
      hide GenArith, GenMov, GenImul, GenRM;
      ok := false;
      match i
      case Mov(d, s) => ok := GenerateMov(z, d, Reduce64to32(s));
      case Alu(op, d, s) =>
        var t := ReduceTo8(z, Reduce64to32(s));
        if op == Imul { ok := GenerateImul(z, d, t); } else { ok := GenerateArith(z, GroupNo(op), d, t); }
      case Cmp(d, s) =>
        if z in {S32, S64} { ok := GenerateArith(z, CMP_NO, d, ReduceTo8(z, Reduce64to32(s))); }
      case Lea(r, m) => if z in {S32, S64} { ok := GenModRM(z, [0x8D], M(m), r, []); }
      case Ret => buf, ok := [0xC3], true;
      case HintCall => buf, ok := [], true;
      case HintRet => buf, ok := [], true;
      case _ =>
    }
  }

  lemma WithDigit(w: bool, digit: nat, c: Coded)
    requires digit < 8 && c.x < 2 && c.b < 2
    ensures RexBits(w, digit / 8, c) == (if w then REX_W else 0) + REX_X * c.x + REX_B * c.b
  {}

  /** The VEX prefix for REX bits. */
  function VexOfRex(vp: (bool, Reg), ps: Pp, rex: nat): (i: VexInfo)
    ensures VexOk(i)
  {
    VexInfo(vp.0, vp.1, ps, BitOf(rex, REX_W) == 1, BitOf(rex, REX_R) == 1, BitOf(rex, REX_X) == 1,
            BitOf(rex, REX_B) == 1)
  }

  lemma SameVex(wide: bool, p: Pp, d: Reg, v: Reg, c: Coded)
    requires c.x < 2 && c.b < 2
    ensures VexOfRex((wide, v), p, RexBits(false, d / 8, c)) == AvxPrefix(wide, p, d, v, c)
  {}

  /** Code of a block, instruction by instruction, or the index of the first one without encoding. */
  method GenerateBlock(code: seq<Insn>) returns (failed: Option<nat>, bytes: seq<seq<Byte>>)
    requires forall k :: 0 <= k < |code| ==> InsnValid(code[k])
    ensures failed == None ==> Generates(code) && bytes == Encoded(code)
    ensures failed.Some? ==>
              failed.value < |code| && Generates(code[..failed.value]) && Generate(code[failed.value]) == None
  {
    hide Generate;
    bytes := [];
    for k := 0 to |code|
      invariant Generates(code[..k]) && bytes == Encoded(code[..k])
    {
      var cxt := new GContext();
      var ok := cxt.GenerateInstr(code[k]);
      if !ok { return Some(k), bytes; }
      bytes := bytes + [cxt.buf];
    }
    assert code[..|code|] == code;
    failed := None;
  }

  /** Decoding of a block: code, offset of the next byte, prefixes seen, VEX prefix, instructions so far. */
  class DContext {
    const f: seq<Byte>
    var off: nat
    var pre: Pre
    var vex: Option<VexInfo>
    var decInstr: seq<Listed>

    constructor (f: seq<Byte>, start: nat)
      ensures this.f == f && off == start && decInstr == []
    {
      this.f := f;
      off, pre, vex, decInstr := start, NO_PREFIX, None, [];
    }

    method DecodePrefixes() returns (ok: bool)
      modifies this`off, this`pre, this`vex
      ensures ok <==> Prefixes(f, old(off), NO_PREFIX).Some?
      ensures ok ==> off < |f| && match Prefixes(f, old(off), NO_PREFIX).value
        case Plain(st, q) => vex == None && pre == st && off == q
        case Vexed(v, q) => vex == Some(v) && pre.rex == RexOfVex(v) && off == q
    {
      hide ReadVex, RexOfVex;
      pre, vex := NO_PREFIX, None;
      while off < |f| && (IsRex(f[off]) || MandatoryByte(f[off]))
        invariant vex == None && Prefixes(f, old(off), NO_PREFIX) == Prefixes(f, off, pre)
        decreases |f| - off
      {
        if IsRex(f[off]) { pre := pre.(rex := f[off] % 16, hasRex := true); }
        else if f[off] == 0xF2 { pre := pre.(f2 := true); }
        else if f[off] == 0xF3 { pre := pre.(f3 := true); }
        else { pre := pre.(p66 := true); }
        off := off + 1;
      }
      if off >= |f| || SegPrefix(f[off]) { return false; }
      if VexByte(f[off]) {
        if pre != NO_PREFIX { return false; }
        ok := DecodeVexPrefix();
      } else {
        ok := true;
      }
    }

    /** The bits of a VEX prefix are kept like those of a REX prefix. */
    method DecodeVexPrefix() returns (ok: bool)
      requires off < |f| && VexByte(f[off])
      modifies this`off, this`pre, this`vex
      ensures ok <==> ReadVex(f, old(off)).Some? && ReadVex(f, old(off)).value.1 < |f|
      ensures ok ==> vex == Some(ReadVex(f, old(off)).value.0) && off == ReadVex(f, old(off)).value.1
      ensures ok ==> pre.rex == RexOfVex(vex.value)
    {
      var two, b := f[off] == 0xC5, off + 1;
      if b >= |f| || (!two && (b + 1 >= |f| || f[b] % 32 != 1)) { return false; }
      var last := if two then f[b] else f[b + 1];
      var r, x := f[b] < 128, !two && f[b] / 64 % 2 == 0;
      var v := Low(last, !two && last < 128, r, x, !two && f[b] / 32 % 2 == 0);
      vex, pre := Some(v), pre.(rex := RexOfVex(v), hasRex := true);
      off := if two then b + 1 else b + 2;
      ok := off < |f|;
    }

    method ParseModRM() returns (r: Option<Parsed>)
      modifies this`off
      ensures r == Parse(f, old(off), pre.rex)
      ensures r.Some? ==> off == r.value.next
    {
      hide ReadDisp, ParseSib;
      if off >= |f| { return None; }
      var mod, reg, rm := f[off] / 64, f[off] / 8 % 8, f[off] % 8;
      off := off + 1;
      if BitOf(pre.rex, REX_R) == 1 { reg := reg + 8; }
      if mod == 3 {
        if BitOf(pre.rex, REX_B) == 1 { rm := rm + 8; }
        return Some(Parsed(reg, R(rm), off));
      }
      var sib, hasSIB, n := 0, rm == 4, DispLen(mod, rm == 5);
      if hasSIB {
        if off >= |f| { return None; }
        sib := f[off];
        off := off + 1;
        n := DispLen(mod, sib % 8 == 5);
      }
      if off + n > |f| { return None; }
      var disp := ReadDisp(f, off, n);
      off := off + n;
      if hasSIB { return Some(Parsed(reg, M(ParseSib(sib, mod, pre.rex, disp)), off)); }
      var base := if mod == 0 && rm == 5 then Rip else Gp(if BitOf(pre.rex, REX_B) == 1 then rm + 8 else rm);
      r := Some(Parsed(reg, M(MemRef(base, 0, 0, disp)), off));
    }

    /** Opcode and operands at the offset, after the prefixes. */
    method ProcessOpc(opc: nat) returns (r: Option<Insn>)
      modifies this`off
      ensures DecodeModRM(f, opc, old(off), pre) == Found(r, off)
    {
      hide Parse, ArithOf, ReadImm, ReadImm8;
      var x := ParseModRM();
      if x == None { return None; }
      var reg, o, digit, z, y := R(x.value.reg), x.value.o, x.value.reg % 8, SizeOf(pre), ByteSize(pre);
      if opc < 0x40 && opc % 8 == 0 { return SizedAs(y, ArithOf(opc / 8, o, reg)); }
      if opc < 0x40 && opc % 8 == 1 { return SizedAs(z, ArithOf(opc / 8, o, reg)); }
      if opc < 0x40 && opc % 8 == 2 { return SizedAs(y, ArithOf(opc / 8, reg, o)); }
      if opc < 0x40 && opc % 8 == 3 { return SizedAs(z, ArithOf(opc / 8, reg, o)); }
      if opc in {0x80, 0x81, 0x83} {
        var t := if opc == 0x80 then y else z;
        var v := if opc == 0x81 then ReadImm(z, f, off) else ReadImm8(t, f, off);
        off := off + if opc == 0x81 then ImmLen(z) else 1;
        return if v.Some? then SizedAs(t, ArithOf(digit, o, v.value)) else None;
      }
      if opc == 0x89 { return Some(Sized(z, Mov(o, reg))); }
      if opc == 0x8B { return Some(Sized(z, Mov(reg, o))); }
      if opc == 0x8D { return if o.M? then Some(Sized(z, Lea(x.value.reg, o.m))) else None; }
      if opc == 0xC7 && digit == 0 {
        var v := ReadImm(z, f, off);
        off := off + ImmLen(z);
        return if v.Some? then Some(Sized(z, Mov(o, v.value))) else None;
      }
      if opc == 0x0FAF { return Some(Sized(z, Alu(Imul, reg, o))); }
      if opc == 0x0F58 { return if PpOfPre(pre).Some? then Some(Sse(PpOfPre(pre).value, x.value.reg, o)) else None; }
      if opc in {0x6B, 0x69} && o == reg {
        var v := if opc == 0x6B then ReadImm8(z, f, off) else ReadImm(z, f, off);
        off := off + if opc == 0x6B then 1 else ImmLen(z);
        return if v.Some? then Some(Sized(z, Alu(Imul, reg, v.value))) else None;
      }
      r := None;
    }

    /** The vector additions with three operands. */
    method ProcessVex() returns (r: Option<Insn>)
      requires vex.Some? && off < |f| && pre.rex == RexOfVex(vex.value)
      modifies this`off
      ensures DecodeVex(f, vex.value, old(off)) == Found(r, off)
    {
      hide Parse, RexOfVex;
      var opc, v := f[off], vex.value;
      off := off + 1;
      if opc != 0x58 || (v.wide && v.pp !in {PNone, P66}) || v.vvvv >= 16 { return None; }
      var x := ParseModRM();
      r := if x.Some? then Some(Avx(v.wide, v.pp, x.value.reg, v.vvvv, x.value.o)) else None;
    }

    method ProcessPlain() returns (r: Option<Insn>)
      requires off < |f|
      modifies this`off
      ensures DecodeOpc(f, pre, old(off)) == Found(r, off)
    {
      hide DecodeModRM, ArithOf, ReadImm, ReadImm8, ReadImm64;
      var opc, z := f[off], SizeOf(pre);
      off := off + 1;
      if opc == 0xC3 { return Some(Sized(S64, Ret)); }
      if opc == 0x0F {
        if off < |f| && f[off] in {0xAF, 0x58} {
          off := off + 1;
          r := ProcessOpc(if f[off - 1] == 0xAF then 0x0FAF else 0x0F58);
          return;
        }
        return None;
      }
      if 0xB8 <= opc < 0xC0 {
        var v := if z == S64 then ReadImm64(f, off) else ReadImm(z, f, off);
        off := off + if z == S64 then 8 else ImmLen(z);
        return if v.Some? then Some(Sized(z, Mov(R(opc % 8 + 8 * BitOf(pre.rex, REX_B)), v.value))) else None;
      }
      if opc < 0x40 && opc % 8 in {4, 5} {
        var t := if opc % 8 == 4 then S8 else z;
        var v := if opc % 8 == 4 then ReadImm8(S8, f, off) else ReadImm(z, f, off);
        off := off + if opc % 8 == 4 then 1 else ImmLen(z);
        return if v.Some? then SizedAs(t, ArithOf(opc / 8, R(RAX), v.value)) else None;
      }
      r := ProcessOpc(opc);
    }

    method DecodeInstr() returns (r: Option<Insn>)
      modifies this`off, this`pre, this`vex
      ensures Decode(f, old(off)) == Found(r, off)
    {
      hide DecodeOpc, DecodeVex, Prefixes, RexOfVex;
      var ok := DecodePrefixes();
      if !ok { return None; }
      if vex.Some? { r := ProcessVex(); } else { r := ProcessPlain(); }
    }

    /** All instructions up to the first return. */
    method DecodeBB() returns (ok: bool)
      requires decInstr == []
      modifies this
      ensures ok <==> DecodeBlock(f, old(off)).Some?
      ensures ok ==> Some(decInstr) == DecodeBlock(f, old(off))
    {
      hide Decode;
      PrependNil(DecodeBlock(f, off));
      while true
        invariant DecodeBlock(f, old(off)) == Prepend(decInstr, DecodeBlock(f, off))
        decreases |f| - off
      {
        ghost var tail := DecodeBlock(f, off);
        var start := off;
        var x := DecodeInstr();
        if x == None { return false; }
        PrependOne(decInstr, Listed(x.value, start, off - start), DecodeBlock(f, off));
        decInstr := decInstr + [Listed(x.value, start, off - start)];
        if IsRet(x.value) { return true; }
      }
    }
  }

  function Found(x: Option<Insn>, next: nat): Option<Read> {
    match x case None => None case Some(y) => Some(Read(y, next))
  }

  function SizedAs(z: Size, i: Option<Instr>): Option<Insn> {
    match i case None => None case Some(x) => Some(Sized(z, x))
  }

  lemma PrependNil(o: Option<seq<Listed>>)
    ensures Prepend([], o) == o
  {
    if o.Some? { assert [] + o.value == o.value; }
  }

  lemma PrependOne(xs: seq<Listed>, x: Listed, o: Option<seq<Listed>>)
    ensures Prepend(xs, Prepend([x], o)) == Prepend(xs + [x], o)
  {
    if o.Some? { assert xs + ([x] + o.value) == xs + [x] + o.value; }
  }

  function Prepend(xs: seq<Listed>, o: Option<seq<Listed>>): Option<seq<Listed>> {
    match o case None => None case Some(rest) => Some(xs + rest)
  }
}
