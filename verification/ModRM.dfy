/** Operand bytes: ModRM, SIB and displacement, written by the generator and read by the decoder. */
module ModRM {
  import opened Machine
  import opened Bytes
  import opened Ledger

  /** Bits of the REX prefix. */
  const REX_B := 1
  const REX_X := 2
  const REX_R := 4
  const REX_W := 8

  /** Operand bytes, and the REX bits they need. */
  datatype Coded = Coded(x: nat, b: nat, bytes: seq<Byte>)

  function Pack(hi: nat, mid: nat, lo: nat): (v: Byte)
    requires hi < 4 && mid < 8 && lo < 8
    ensures v / 64 == hi && v / 8 % 8 == mid && v % 8 == lo
  {
    var v := 64 * hi + 8 * mid + lo;
    assert v / 8 == 8 * hi + mid;
    v
  }

  function ScaleBits(s: Scale): (b: nat)
    ensures b < 4
  {
    if s == 2 then 1 else if s == 4 then 2 else if s == 8 then 3 else 0
  }

  // ----- writing

  /** Displacement size as far as its value is concerned: 0 none, 1 a byte, 2 four bytes. */
  function DispMod(v: int): (mod: nat)
    ensures mod < 3
  {
    if v == 0 then 0 else if -128 <= v < 128 then 1 else 2
  }

  function DispBytes(mod: nat, v: int): seq<Byte> {
    if mod == 0 then [] else if mod == 1 then [Byte8(v)] else Bytes32(v)
  }

  /** What the encoding demands of a memory operand. */
  predicate Encodable(m: MemRef) {
    && !m.base.Rip? && -0x8000_0000 <= Signed(m.disp) < 0x8000_0000
    && (m.scale > 0 ==> m.idx != RSP)
  }

  /** rbp and r13 as base need a displacement: the encoding without one is taken. */
  function BaseMod(r: Reg, v: int): (mod: nat)
    ensures mod < 3
  {
    if DispMod(v) == 0 && r % 8 == 5 then 1 else DispMod(v)
  }

  function EncodeMem(m: MemRef, digit: nat): (c: Coded)
    requires Encodable(m) && digit < 8
    ensures c.x < 2 && c.b < 2 && 1 <= |c.bytes| <= 6
  {
    var v := Signed(m.disp);
    var idx := if m.scale == 0 then 4 else m.idx;
    if m.base.NoBase? then
      Coded(idx / 8, 0, [Pack(0, digit, 4), Pack(ScaleBits(m.scale), idx % 8, 5)] + Bytes32(v))
    else
      var r := m.base.r;
      var mod := BaseMod(r, v);
      if m.scale == 0 && r % 8 != 4 then Coded(0, r / 8, [Pack(mod, digit, r % 8)] + DispBytes(mod, v))
      else Coded(idx / 8, r / 8, [Pack(mod, digit, 4), Pack(ScaleBits(m.scale), idx % 8, r % 8)] + DispBytes(mod, v))
  }

  predicate OperandEncodable(o: Operand) {
    match o
    case R(_) => true
    case M(m) => Encodable(m)
    case _ => false
  }

  function Encode(o: Operand, digit: nat): (c: Coded)
    requires OperandEncodable(o) && digit < 8
    ensures c.x < 2 && c.b < 2 && 1 <= |c.bytes| <= 6
  {
    if o.R? then Coded(0, o.r / 8, [Pack(3, digit, o.r % 8)]) else EncodeMem(o.m, digit)
  }

  // ----- reading

  /** Register or digit field with the REX extension, operand, offset of the next byte. */
  datatype Parsed = Parsed(reg: Reg, o: Operand, next: nat)

  function BitOf(rex: nat, mask: nat): (b: nat)
    requires mask > 0
    ensures b < 2
  {
    rex / mask % 2
  }

  function DispLen(mod: nat, noBase: bool): nat {
    if mod == 1 then 1 else if mod == 2 || (mod == 0 && noBase) then 4 else 0
  }

  function ReadDisp(m: seq<Byte>, q: nat, n: nat): Word
    requires q + n <= |m|
  {
    Wrap(if n == 1 then Signed8(m[q]) else if n == 4 then Signed32(m[q..q + 4]) else 0)
  }

  function ScaleOf(bits: nat): Scale {
    if bits == 0 then 1 else if bits == 1 then 2 else if bits == 2 then 4 else 8
  }

  /** Operand bytes at p; None at the end of the code. */
  function Parse(m: seq<Byte>, p: nat, rex: nat): (r: Option<Parsed>)
    ensures r.Some? ==> p < r.value.next <= |m| && (r.value.o.R? || r.value.o.M?)
  {
    if p >= |m| then None
    else
      var mod, reg, rm := m[p] / 64, m[p] / 8 % 8 + 8 * BitOf(rex, REX_R), m[p] % 8;
      if mod == 3 then Some(Parsed(reg, R(rm + 8 * BitOf(rex, REX_B)), p + 1))
      else if rm == 4 then
        if p + 1 >= |m| then None
        else
          var n := DispLen(mod, m[p + 1] % 8 == 5);
          if p + 2 + n > |m| then None
          else Some(Parsed(reg, M(ParseSib(m[p + 1], mod, rex, ReadDisp(m, p + 2, n))), p + 2 + n))
      else
        var n := DispLen(mod, rm == 5);
        if p + 1 + n > |m| then None
        else
          var base := if mod == 0 && rm == 5 then Rip else Gp(rm + 8 * BitOf(rex, REX_B));
          Some(Parsed(reg, M(MemRef(base, 0, 0, ReadDisp(m, p + 1, n))), p + 1 + n))
  }

  function ParseSib(sib: Byte, mod: nat, rex: nat, disp: Word): MemRef {
    var idx := sib / 8 % 8 + 8 * BitOf(rex, REX_X);
    var base := if mod == 0 && sib % 8 == 5 then NoBase else Gp(sib % 8 + 8 * BitOf(rex, REX_B));
    if idx == 4 then MemRef(base, 0, 0, disp) else MemRef(base, ScaleOf(sib / 64), idx, disp)
  }

  // ----- round trip

  /** Without an index register the index field means nothing. */
  function Canon(o: Operand): Operand {
    if o.M? && o.m.scale == 0 then M(o.m.(idx := 0)) else o
  }

  lemma CanonSame(s: Mach, o: Operand, ip: Word)
    requires s.Valid() && OperandValid(o)
    ensures OperandValid(Canon(o)) && Value(s, Canon(o), ip) == Value(s, o, ip)
    ensures forall v: Word :: Assign(s, Canon(o), v, ip) == Assign(s, o, v, ip)
  {
    if o.M? && o.m.scale == 0 { assert EffAddr(s, Canon(o).m, ip) == EffAddr(s, o.m, ip); }
  }

  lemma SignedWrap(x: Word)
    ensures Wrap(Signed(x)) == x
  {}

  lemma DispReads(m: seq<Byte>, q: nat, mod: nat, noBase: bool, d: Word)
    requires -0x8000_0000 <= Signed(d) < 0x8000_0000
    requires mod < 3 && ((noBase && mod == 0) || mod == DispMod(Signed(d)) || (mod == 1 && DispMod(Signed(d)) == 0))
    requires Has(m, q, if noBase && mod == 0 then Bytes32(Signed(d)) else DispBytes(mod, Signed(d)))
    ensures q + DispLen(mod, noBase) <= |m|
    ensures ReadDisp(m, q, DispLen(mod, noBase)) == d
  {
    var v, n := Signed(d), DispLen(mod, noBase);
    SignedWrap(d);
    if n == 1 {
      Disp8(v);
      assert m[q + 0] == DispBytes(mod, v)[0];
    } else if n == 4 {
      Disp32(v);
      assert m[q..q + 4] == Bytes32(v);
    }
  }

  lemma FirstBytes(m: seq<Byte>, p: nat, a: seq<Byte>, s: seq<Byte>)
    requires Has(m, p, a + s) && 1 <= |a| <= 2
    ensures p + |a| <= |m| && m[p] == a[0] && (|a| == 2 ==> m[p + 1] == a[1])
    ensures Has(m, p + |a|, s)
  {
    HasParts(m, p, a, a + s);
    assert (a + s)[|a|..] == s;
    assert m[p + 0] == a[0];
  }

  /** rex carries the bits the operand asked for; its R bit is free. */
  predicate Carries(rex: nat, c: Coded) { BitOf(rex, REX_X) == c.x && BitOf(rex, REX_B) == c.b }

  lemma BaseRoundTrip(m: seq<Byte>, p: nat, rex: nat, o: MemRef, digit: nat)
    requires Encodable(o) && digit < 8 && o.base.Gp? && o.scale == 0 && o.base.r % 8 != 4
    requires Has(m, p, EncodeMem(o, digit).bytes) && Carries(rex, EncodeMem(o, digit))
    ensures Parse(m, p, rex) ==
            Some(Parsed(digit + 8 * BitOf(rex, REX_R), Canon(M(o)), p + |EncodeMem(o, digit).bytes|))
  {
    var r, v := o.base.r, Signed(o.disp);
    var mod := BaseMod(r, v);
    FirstBytes(m, p, [Pack(mod, digit, r % 8)], DispBytes(mod, v));
    DispReads(m, p + 1, mod, r % 8 == 5, o.disp);
  }

  lemma SibRoundTrip(m: seq<Byte>, p: nat, rex: nat, o: MemRef, digit: nat)
    requires Encodable(o) && digit < 8 && (o.base.Gp? ==> o.scale > 0 || o.base.r % 8 == 4)
    requires Has(m, p, EncodeMem(o, digit).bytes) && Carries(rex, EncodeMem(o, digit))
    ensures Parse(m, p, rex) ==
            Some(Parsed(digit + 8 * BitOf(rex, REX_R), Canon(M(o)), p + |EncodeMem(o, digit).bytes|))
  {
    hide Bytes32, ReadDisp, ParseSib, Has, Signed;
    var v := Signed(o.disp);
    var idx := if o.scale == 0 then 4 else o.idx;
    var mod := if o.base.NoBase? then 0 else BaseMod(o.base.r, v);
    var low := if o.base.NoBase? then 5 else o.base.r % 8;
    var a := [Pack(mod, digit, 4), Pack(ScaleBits(o.scale), idx % 8, low)];
    var d := if o.base.NoBase? then Bytes32(v) else DispBytes(mod, v);
    assert EncodeMem(o, digit).bytes == a + d;
    FirstBytes(m, p, a, d);
    DispReads(m, p + 2, mod, low == 5, o.disp);
    SibReads(o, mod, rex, idx, low);
  }

  lemma SibReads(o: MemRef, mod: nat, rex: nat, idx: Reg, low: nat)
    requires !o.base.Rip? && (o.scale > 0 ==> o.idx != RSP) && idx == if o.scale == 0 then 4 else o.idx
    requires BitOf(rex, REX_X) == idx / 8
    requires low < 8
    requires if o.base.NoBase? then mod == 0 && low == 5 else low == o.base.r % 8 && BitOf(rex, REX_B) == o.base.r / 8
    requires o.base.Gp? && low == 5 ==> mod != 0
    ensures ParseSib(Pack(ScaleBits(o.scale), idx % 8, low), mod, rex, o.disp) == Canon(M(o)).m
  {
    assert idx % 8 + 8 * (idx / 8) == idx;
  }

  /** Reading undoes writing, for every operand and digit, in front of whatever follows. */
  lemma RoundTrip(m: seq<Byte>, p: nat, rex: nat, o: Operand, digit: nat)
    requires OperandEncodable(o) && digit < 8
    requires Has(m, p, Encode(o, digit).bytes) && Carries(rex, Encode(o, digit))
    ensures Parse(m, p, rex) ==
            Some(Parsed(digit + 8 * BitOf(rex, REX_R), Canon(o), p + |Encode(o, digit).bytes|))
  {
    match o {
      case R(r) =>
        assert m[p + 0] == Encode(o, digit).bytes[0];
        assert r % 8 + 8 * (r / 8) == r;
      case M(a) =>
        if a.base.Gp? && a.scale == 0 && a.base.r % 8 != 4 {
          BaseRoundTrip(m, p, rex, a, digit);
        } else {
          SibRoundTrip(m, p, rex, a, digit);
        }
    }
  }

  /** Different operands have different bytes or REX bits. */
  lemma EncodeInjective(o: Operand, o': Operand, d: nat, d': nat)
    requires OperandEncodable(o) && OperandEncodable(o') && d < 8 && d' < 8
    requires Encode(o, d) == Encode(o', d')
    ensures Canon(o) == Canon(o') && d == d'
  {
    hide Encode, Parse, Canon;
    var c := Encode(o, d);
    var rex := c.x * REX_X + c.b;
    assert BitOf(rex, REX_X) == c.x && BitOf(rex, REX_B) == c.b && BitOf(rex, REX_R) == 0;
    RoundTrip(c.bytes, 0, rex, o, d);
    RoundTrip(c.bytes, 0, rex, o', d');
  }
}
