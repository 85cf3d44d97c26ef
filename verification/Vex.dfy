/** Prefixes of vector instructions: the two VEX forms, written and read. */
module Vex {
  import opened Machine
  import opened Bytes
  import opened Ledger

  /** Mandatory prefix that is part of the opcode. */
  datatype Pp = PNone | P66 | PF3 | PF2

  /** Vector length, second source register, mandatory prefix, and the four REX bits. */
  datatype VexInfo = VexInfo(wide: bool, vvvv: nat, pp: Pp, w: bool, r: bool, x: bool, b: bool)

  predicate VexOk(v: VexInfo) { v.vvvv < 16 }

  function PpNo(p: Pp): (n: nat)
    ensures n < 4
  {
    match p case PNone => 0 case P66 => 1 case PF3 => 2 case PF2 => 3
  }

  function PpOf(n: nat): Pp {
    if n == 1 then P66 else if n == 2 then PF3 else if n == 3 then PF2 else PNone
  }

  function Inverted(bit: bool, weight: nat): nat { if bit then 0 else weight }

  /** The last byte but for its top bit. */
  function LowBits(v: VexInfo): (b: nat)
    requires VexOk(v)
    ensures b < 128
  {
    8 * (15 - v.vvvv) + (if v.wide then 4 else 0) + PpNo(v.pp)
  }

  /** Two bytes suffice without X, B and W. The leading opcode byte 0x0F is implied by both forms. */
  function WriteVex(v: VexInfo): (s: seq<Byte>)
    requires VexOk(v)
    ensures |s| == if v.x || v.b || v.w then 3 else 2
  {
    if !v.x && !v.b && !v.w then [0xC5, LowBits(v) + Inverted(v.r, 128)]
    else [0xC4, 1 + Inverted(v.r, 128) + Inverted(v.x, 64) + Inverted(v.b, 32), LowBits(v) + Inverted(v.w, 128)]
  }

  function Low(n: Byte, w: bool, r: bool, x: bool, b: bool): VexInfo {
    VexInfo(n / 4 % 2 == 1, 15 - n / 8 % 16, PpOf(n % 4), w, r, x, b)
  }

  /** The prefix at p and the offset behind it. Other leading opcodes than 0x0F stop the decoder. */
  function ReadVex(m: seq<Byte>, p: nat): Option<(VexInfo, nat)> {
    if p + 2 <= |m| && m[p] == 0xC5 then Some((Low(m[p + 1], false, m[p + 1] < 128, false, false), p + 2))
    else if p + 3 <= |m| && m[p] == 0xC4 && m[p + 1] % 32 == 1 then
      var b1, b2 := m[p + 1], m[p + 2];
      Some((Low(b2, b2 < 128, b1 < 128, b1 / 64 % 2 == 0, b1 / 32 % 2 == 0), p + 3))
    else None
  }

  lemma Fields(k: nat, l: nat, p: nat, top: nat)
    requires k < 16 && l < 2 && p < 4 && top < 2
    ensures var n := 8 * k + 4 * l + p + 128 * top;
            n / 8 % 16 == k && n / 4 % 2 == l && n % 4 == p && (n < 128 <==> top == 0)
  {
    var n := 8 * k + 4 * l + p + 128 * top;
    assert n / 8 == k + 16 * top && n / 4 == 2 * k + l + 32 * top;
  }

  lemma LowReads(v: VexInfo, top: nat)
    requires VexOk(v) && top in {0, 128}
    ensures Low(LowBits(v) + top, v.w, v.r, v.x, v.b) == v && (LowBits(v) + top < 128 <==> top == 0)
  {
    Fields(15 - v.vvvv, if v.wide then 1 else 0, PpNo(v.pp), top / 128);
  }

  /** Reading a prefix undoes writing it, in both forms and in front of anything. */
  lemma VexRoundTrip(m: seq<Byte>, p: nat, v: VexInfo)
    requires VexOk(v) && Has(m, p, WriteVex(v))
    ensures ReadVex(m, p) == Some((v, p + |WriteVex(v)|))
  {
    var s := WriteVex(v);
    assert m[p + 0] == s[0] && m[p + 1] == s[1];
    if |s| == 2 {
      LowReads(v, Inverted(v.r, 128));
    } else {
      assert m[p + 2] == s[2];
      LowReads(v, Inverted(v.w, 128));
      MiddleReads(v.r, v.x, v.b);
    }
  }

  lemma MiddleReads(r: bool, x: bool, b: bool)
    ensures var n := 1 + Inverted(r, 128) + Inverted(x, 64) + Inverted(b, 32);
            n % 32 == 1 && (n < 128 <==> r) && (n / 64 % 2 == 0 <==> x) && (n / 32 % 2 == 0 <==> b)
  {}
}
