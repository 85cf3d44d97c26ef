/** Bytes in memory, and little-endian signed numbers in them. */
module Bytes {
  import opened Machine

  /** The bytes s lie in m at a. */
  predicate Has(m: seq<Byte>, a: int, s: seq<Byte>) {
    0 <= a && a + |s| <= |m| && forall j :: 0 <= j < |s| ==> m[a + j] == s[j]
  }

  function Byte8(v: int): Byte { v % 256 }

  function Signed8(b: Byte): int { if b < 128 then b else b - 256 }

  function Bytes32(v: int): (s: seq<Byte>)
    ensures |s| == 4
  {
    BytesOf(v % 0x1_0000_0000, 4)
  }

  function Signed32(s: seq<Byte>): int {
    var w := WordOf(s);
    if w < 0x8000_0000 then w else w - 0x1_0000_0000
  }

  lemma Disp8(v: int)
    requires -128 <= v < 128
    ensures Signed8(Byte8(v)) == v
  {}

  lemma Disp32(v: int)
    requires -0x8000_0000 <= v < 0x8000_0000
    ensures Signed32(Bytes32(v)) == v
  {
    assert Pow256(4) == 0x1_0000_0000;
    WordOfBytes(v % 0x1_0000_0000, 4);
  }

  lemma HasKept(m: seq<Byte>, m': seq<Byte>, a: int, s: seq<Byte>, end: int)
    requires Has(m, a, s) && a + |s| <= end && |m'| == |m| && forall p :: 0 <= p < end && p < |m| ==> m'[p] == m[p]
    ensures Has(m', a, s)
  {}

  lemma HasOutside(m: seq<Byte>, m': seq<Byte>, a: int, s: seq<Byte>, p: int, n: nat)
    requires Has(m, a, s) && (a + |s| <= p || p + n <= a)
    requires |m'| == |m| && forall x :: 0 <= x < |m| && !(p <= x < p + n) ==> m'[x] == m[x]
    ensures Has(m', a, s)
  {}

  lemma HasParts(m: seq<Byte>, p: int, s: seq<Byte>, t: seq<Byte>)
    requires Has(m, p, t) && |s| <= |t| && t[..|s|] == s
    ensures Has(m, p, s) && Has(m, p + |s|, t[|s|..])
  {
    forall j | 0 <= j < |s| ensures m[p + j] == s[j] { assert t[..|s|][j] == t[j]; }
    forall j | 0 <= j < |t| - |s| ensures m[p + |s| + j] == t[|s|..][j] { assert m[p + (|s| + j)] == t[|s| + j]; }
  }

  lemma HasConcat(m: seq<Byte>, m': seq<Byte>, p: int, s: seq<Byte>, t: seq<Byte>)
    requires |m| == |m'| && Has(m, p, s) && (t == [] || Has(m', p + |s|, t))
    requires forall x :: 0 <= x < |m| && !(p + |s| <= x < p + |s| + |t|) ==> m'[x] == m[x]
    ensures Has(m', p, s + t)
  {
    forall j | 0 <= j < |s + t| ensures m'[p + j] == (s + t)[j] {
      if j >= |s| { assert m'[p + |s| + (j - |s|)] == t[j - |s|]; }
    }
  }
}
