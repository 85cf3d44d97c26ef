/** Register file of the lifter: every register as a 64-bit value with cached narrower views. */
module RegFile {
  import opened Bits
  import opened Ledger

  type Word64 = x: int | 0 <= x < 0x1_0000_0000_0000_0000

  datatype Facet = I8 | I8H | I16 | I32 | I64

  /** Cached views of one register. */
  datatype Facets = Facets(i8: Option<Word64>, i8h: Option<Word64>, i16: Option<Word64>, i32: Option<Word64>,
                           i64: Option<Word64>)

  /** GP8Leg are the eight byte registers of the original architecture: 0..3 low, 4..7 high bytes of the
      first four registers; from 8 on low bytes again. */
  datatype RegType = GP8 | GP8Leg | GP16 | GP32 | GP64

  datatype Name = Name(rt: RegType, ri: nat)

  const RI_AH := 4
  const RI_R8L := 8

  predicate IsHigh(r: Name) { r.rt == GP8Leg && RI_AH <= r.ri < RI_R8L }

  /** Register the name belongs to. */
  function Entry(r: Name): (k: nat)
    requires r.ri < 16
    ensures k < 16
  {
    if IsHigh(r) then r.ri - RI_AH else r.ri
  }

  function FacetOf(r: Name): Facet {
    match r.rt
    case GP8 => I8
    case GP8Leg => if IsHigh(r) then I8H else I8
    case GP16 => I16
    case GP32 => I32
    case GP64 => I64
  }

  /** View of a 64-bit value. */
  function View(f: Facet, v: Word64): (x: Word64) {
    match f
    case I8 => v % 256
    case I8H => v / 256 % 256
    case I16 => v % 0x1_0000
    case I32 => v % 0x1_0000_0000
    case I64 => v
  }

  function Cached(c: Facets, f: Facet): Option<Word64> {
    match f case I8 => c.i8 case I8H => c.i8h case I16 => c.i16 case I32 => c.i32 case I64 => c.i64
  }

  function WithFacet(c: Facets, f: Facet, v: Word64): (d: Facets)
    ensures forall g :: Cached(d, g) == if g == f then Some(v) else Cached(c, g)
  {
    match f
    case I8 => c.(i8 := Some(v))
    case I8H => c.(i8h := Some(v))
    case I16 => c.(i16 := Some(v))
    case I32 => c.(i32 := Some(v))
    case I64 => c.(i64 := Some(v))
  }

  /** The 64-bit view is there, and every cached one is a view of it. */
  predicate Agrees(c: Facets) {
    c.i64.Some? && forall f: Facet :: Cached(c, f).Some? ==> Cached(c, f).value == View(f, c.i64.value)
  }

  /** 64-bit value after a write through a name: 32-bit writes clear the upper half, narrower ones keep the rest. */
  function Written(r: Name, v: Word64, x: Word64): (w: Word64)
    requires x == View(if IsHigh(r) then I8 else FacetOf(r), x)
  {
    match r.rt
    case GP64 => x
    case GP32 => x
    case GP16 => v / 0x1_0000 * 0x1_0000 + x
    case GP8 => v / 256 * 256 + x
    case GP8Leg => if IsHigh(r) then v / 0x1_0000 * 0x1_0000 + x * 256 + v % 256 else v / 256 * 256 + x
  }

  /** What is written is read back; the bits outside the name keep their value. */
  lemma WrittenReads(r: Name, v: Word64, x: Word64)
    requires x == View(if IsHigh(r) then I8 else FacetOf(r), x)
    ensures View(FacetOf(r), Written(r, v, x)) == x
    ensures IsHigh(r) ==> View(I8, Written(r, v, x)) == View(I8, v)
    ensures r.rt == GP8 || (r.rt == GP8Leg && !IsHigh(r)) ==> View(I8H, Written(r, v, x)) == View(I8H, v)
    ensures r.rt in {GP8, GP8Leg, GP16} ==> Written(r, v, x) / 0x1_0000 == v / 0x1_0000
    ensures r.rt == GP32 ==> Written(r, v, x) < 0x1_0000_0000
  {
    if IsHigh(r) {
      HighParts(v, x);
    } else if r.rt in {GP8, GP8Leg} {
      LowParts(v, x);
    } else if r.rt == GP16 {
      WordParts(v, x);
    }
  }

  lemma WordParts(v: Word64, x: nat)
    requires x < 0x1_0000
    ensures var w := v / 0x1_0000 * 0x1_0000 + x; w % 0x1_0000 == x && w / 0x1_0000 == v / 0x1_0000
  {}

  lemma HighParts(v: Word64, x: nat)
    requires x < 256
    ensures var w := v / 0x1_0000 * 0x1_0000 + x * 256 + v % 256;
            w % 256 == v % 256 && w / 256 % 256 == x && w / 0x1_0000 == v / 0x1_0000
  {
    var h := v / 0x1_0000;
    var w := h * 0x1_0000 + x * 256 + v % 256;
    assert w / 256 == h * 256 + x;
  }

  lemma LowParts(v: Word64, x: nat)
    requires x < 256
    ensures var w := v / 256 * 256 + x; w % 256 == x && w / 256 == v / 256 && w / 0x1_0000 == v / 0x1_0000
  {
    var w := v / 256 * 256 + x;
    assert w / 256 == v / 256;
    assert w / 0x1_0000 == w / 256 / 256 && v / 0x1_0000 == v / 256 / 256;
  }

  // ----- masking

  lemma TwiceTimes(p: nat, x: nat)
    ensures (2 * p) * x == 2 * (p * x) && p * x >= 0
  {}

  /** m with k ones appended. */
  function WithOnes(m: nat, k: nat): nat {
    if k == 0 then m else 2 * WithOnes(m, k - 1) + 1
  }

  lemma {:induction false} WithOnesIs(m: nat, k: nat)
    ensures WithOnes(m, k) == Pow2(k) * m + Pow2(k) - 1
  {
    if k > 0 {
      WithOnesIs(m, k - 1);
      TwiceTimes(Pow2(k - 1), m);
    }
  }

  function Shr(x: nat, k: nat): nat { if k == 0 then x else Shr(x / 2, k - 1) }

  /** The k low bits of x. */
  function Low(x: nat, k: nat): nat { if k == 0 then 0 else 2 * Low(x / 2, k - 1) + x % 2 }

  lemma {:induction false} ShrLow(x: nat, k: nat)
    ensures Shr(x, k) == x / Pow2(k) && Low(x, k) == x % Pow2(k)
    decreases k
  {
    if k > 0 {
      ShrLow(x / 2, k - 1);
      Halves(x, Pow2(k - 1));
    }
  }

  lemma {:induction false} AndLowOnes(x: nat, m: nat, k: nat)
    ensures And(x, WithOnes(m, k)) == Shifted(And(Shr(x, k), m), k) + Low(x, k)
    decreases k
  {
    if k > 0 {
      AndLowOnes(x / 2, m, k - 1);
      AndOdd(x, WithOnes(m, k - 1));
    }
  }

  lemma AndOdd(x: nat, n: nat)
    ensures And(x, 2 * n + 1) == 2 * And(x / 2, n) + x % 2
  {
    assert (2 * n + 1) / 2 == n && (2 * n + 1) % 2 == 1;
  }

  lemma Halves(x: nat, p: nat)
    requires p >= 1
    ensures x / (2 * p) == x / 2 / p && x % (2 * p) == 2 * (x / 2 % p) + x % 2
  {
    ModUnique(x, 2 * p, x / 2 / p, 2 * (x / 2 % p) + x % 2);
  }

  /** a shifted left by k. */
  function Shifted(a: nat, k: nat): nat {
    if k == 0 then a else 2 * Shifted(a, k - 1)
  }

  lemma {:induction false} ShiftedIs(a: nat, k: nat)
    ensures Shifted(a, k) == Pow2(k) * a
  {
    if k > 0 {
      ShiftedIs(a, k - 1);
      TwiceTimes(Pow2(k - 1), a);
    }
  }

  lemma {:induction false} OrLow(a: nat, b: nat, lo: nat, k: nat)
    requires lo < Pow2(k)
    ensures Or(Shifted(a, k) + lo, Shifted(b, k)) == Shifted(Or(a, b), k) + lo
    decreases k
  {
    if k > 0 {
      OrLow(a, b, lo / 2, k - 1);
      OrHalves(Shifted(a, k - 1) + lo / 2, Shifted(b, k - 1), lo % 2);
    }
  }

  lemma OrHalves(x: nat, y: nat, c: nat)
    requires c <= 1
    ensures Or(2 * x + c, 2 * y) == 2 * Or(x, y) + c
  {
    assert (2 * x + c) / 2 == x && (2 * x + c) % 2 == c && 2 * y / 2 == y && 2 * y % 2 == 0;
  }

  lemma Powers()
    ensures Pow2(8) == 256 && Pow2(16) == 0x1_0000 && Pow2(56) == 0x100_0000_0000_0000
    ensures Pow2(64) == 0x1_0000_0000_0000_0000
  {
    assert Pow2(8) == 256;
    Pow2Add(8, 8);
    Pow2Add(16, 16);
    Pow2Add(32, 24);
    Pow2Add(16, 8);
    Pow2Add(56, 8);
  }

  /** Clearing the low k bits and or-ing in a k-bit value replaces them. */
  lemma ReplacesLow(v: Word64, x: nat, k: nat, mask: nat)
    requires k in {8, 16} && x < Pow2(k) && mask == Pow2(k) - 1
    ensures mask <= 0xffff && Or(And(v, 0xffff_ffff_ffff_ffff - mask), x) == v / (mask + 1) * (mask + 1) + x
  {
    hide And, Or, Pow2;
    Powers();
    AndClearLow(v, 64, k);
    ModUnique(v - v % Pow2(k), Pow2(k), v / Pow2(k), 0);
    OrDisjoint(v - v % Pow2(k), x, k);
  }

  /** Clearing the second byte and or-ing in a byte there replaces it. */
  lemma ReplacesSecond(v: Word64, x: nat)
    requires x < 256
    ensures Or(And(v, 0xffff_ffff_ffff_ffff - 0xff00), x * 256) == v / 0x1_0000 * 0x1_0000 + x * 256 + v % 256
  {
    hide And, Or, Pow2, WithOnes, Shifted, Shr, Low;
    Powers();
    var h, m := v / 256, 0x100_0000_0000_0000 - 256;
    WithOnesIs(m, 8);
    AndLowOnes(v, m, 8);
    ShrLow(v, 8);
    AndClearLow(h, 56, 8);
    var c := h - h % 256;
    ModUnique(c, 256, h / 256, 0);
    ShiftedIs(And(h, m), 8);
    ShiftedIs(c, 8);
    ShiftedIs(x, 8);
    ShiftedIs(c + x, 8);
    OrLow(c, x, v % 256, 8);
    OrDisjoint(c, x, 8);
    assert h / 256 == v / 0x1_0000;
  }

  class RegisterFile {
    const gp: array<Facets>

    predicate Valid()
      reads this, gp
    {
      gp.Length == 16 && forall k :: 0 <= k < 16 ==> Agrees(gp[k])
    }

    /** 64-bit value of a register. */
    function Val(k: nat): Word64
      requires gp.Length == 16 && k < 16 && gp[k].i64.Some?
      reads this, gp
    {
      gp[k].i64.value
    }

    constructor (values: seq<Word64>)
      requires |values| == 16
      ensures Valid() && fresh(gp) && forall k :: 0 <= k < 16 ==> Val(k) == values[k]
    {
      gp := new Facets[16](i requires 0 <= i < 16 => Facets(None, None, None, None, Some(values[i])));
    }

    /** A view; derived from the 64-bit value and kept when it is not cached. */
    method Get(f: Facet, k: nat) returns (v: Word64)
      requires Valid() && k < 16
      modifies gp
      ensures Valid() && forall j :: 0 <= j < 16 ==> Val(j) == old(Val(j))
      ensures forall j :: 0 <= j < 16 && j != k ==> gp[j] == old(gp[j])
      ensures v == View(f, Val(k))
    {
      var c := gp[k];
      if Cached(c, f).Some? { return Cached(c, f).value; }
      var native := c.i64.value;
      match f {
        case I8 => v := native % 256;
        case I8H => v := native / 256 % 256;
        case I16 => v := native % 0x1_0000;
        case I32 => v := native % 0x1_0000_0000;
        case I64 => v := native;
      }
      gp[k] := WithFacet(c, f, v);
    }

    /** Store a facet. With clearOthers it must be the 64-bit one; without, nothing checks that it agrees. */
    method Set(f: Facet, k: nat, v: Word64, clearOthers: bool)
      requires gp.Length == 16 && k < 16 && (clearOthers ==> f == I64)
      modifies gp
      ensures gp[k] == WithFacet(if clearOthers then Facets(None, None, None, None, None) else old(gp[k]), f, v)
      ensures forall j :: 0 <= j < 16 && j != k ==> gp[j] == old(gp[j])
    {
      if clearOthers { gp[k] := Facets(None, None, None, None, None); }
      gp[k] := WithFacet(gp[k], f, v);
    }

    method Zero(k: nat)
      requires Valid() && k < 16
      modifies gp
      ensures Valid() && Val(k) == 0 && forall j :: 0 <= j < 16 && j != k ==> Val(j) == old(Val(j))
    {
      gp[k] := Facets(Some(0), Some(0), Some(0), Some(0), Some(0));
    }

    /** Register dst becomes a copy of src, with all views. */
    method Rename(dst: nat, src: nat)
      requires Valid() && dst < 16 && src < 16
      modifies gp
      ensures Valid() && Val(dst) == old(Val(src)) && forall j :: 0 <= j < 16 && j != dst ==> Val(j) == old(Val(j))
    {
      gp[dst] := gp[src];
    }

    /** Write x through a name. All cached views agree afterwards, except that a write to a low legacy byte
        register records x as the high byte: then they agree exactly if x is the high byte. */
    method StoreGp(r: Name, x: Word64)
      requires Valid() && r.ri < 16 && x == View(if IsHigh(r) then I8 else FacetOf(r), x)
      modifies gp
      ensures gp[Entry(r)].i64 == Some(Written(r, old(Val(Entry(r))), x))
      ensures forall j :: 0 <= j < 16 && j != Entry(r) ==> gp[j] == old(gp[j])
      ensures Valid() <==> (r.rt == GP8Leg && !IsHigh(r) ==> x == View(I8H, old(Val(Entry(r)))))
    {
      var k := Entry(r);
      ghost var v := Val(k);
      WrittenReads(r, v, x);
      var result := x;
      if r.rt != GP32 && r.rt != GP64 {
        var current := Get(I64, k);
        result := Merge(r, current, x);
      }
      Set(I64, k, result, true);
      if r.rt == GP32 { Set(I32, k, x, false); }
      if r.rt == GP16 { Set(I16, k, x, false); }
      if r.rt == GP8 { Set(I8, k, x, false); }
      if r.rt == GP8Leg { Set(I8H, k, x, false); }
      Stored(gp[k], r, v, x);
    }

    /** Replace the bits of a narrow register by masking. */
    static method Merge(r: Name, current: Word64, x: Word64) returns (result: Word64)
      requires r.rt in {GP8, GP8Leg, GP16} && x == View(if IsHigh(r) then I8 else FacetOf(r), x)
      ensures result == Written(r, current, x)
    {
      Powers();
      hide Pow2;
      var mask, value64 := 0xff, x;
      if IsHigh(r) {
        mask, value64 := 0xff00, x * 256;
        ReplacesSecond(current, x);
      } else if r.rt == GP16 {
        mask := 0xffff;
        ReplacesLow(current, x, 16, mask);
      } else {
        ReplacesLow(current, x, 8, mask);
      }
      result := Or(And(current, 0xffff_ffff_ffff_ffff - mask), value64);
    }

    /** Read through a name. */
    method LoadGp(r: Name) returns (v: Word64)
      requires Valid() && r.ri < 16
      modifies gp
      ensures Valid() && forall j :: 0 <= j < 16 ==> Val(j) == old(Val(j))
      ensures v == View(FacetOf(r), Val(Entry(r)))
    {
      v := Get(FacetOf(r), Entry(r));
    }
  }

  /** Which views a store leaves, and when they agree. */
  lemma Stored(c: Facets, r: Name, v: Word64, x: Word64)
    requires x == View(if IsHigh(r) then I8 else FacetOf(r), x)
    requires var f := if r.rt == GP8Leg then I8H else FacetOf(r);
             c == WithFacet(WithFacet(Facets(None, None, None, None, None), I64, Written(r, v, x)), f, x)
    ensures Agrees(c) <==> (r.rt == GP8Leg && !IsHigh(r) ==> x == View(I8H, v))
  {
    WrittenReads(r, v, x);
    var w := Written(r, v, x);
    assert Cached(c, I64) == Some(w);
    var f := if r.rt == GP8Leg then I8H else FacetOf(r);
    assert Cached(c, f) == Some(x);
    if x == View(f, w) {
      forall g: Facet | Cached(c, g).Some? ensures Cached(c, g).value == View(g, w) {}
    }
  }

  /** A write of 5 to AL, with RAX zero: the register file then has 5 for AH. */
  lemma LowByteConfused()
    ensures var none := Facets(None, None, None, None, None);
            var c := WithFacet(WithFacet(none, I64, Written(Name(GP8Leg, 0), 0, 5)), I8H, 5);
            !Agrees(c) && Cached(c, I8H) == Some(5) && View(I8H, c.i64.value) == 0
  {
    Stored(WithFacet(WithFacet(Facets(None, None, None, None, None), I64, Written(Name(GP8Leg, 0), 0, 5)), I8H, 5),
           Name(GP8Leg, 0), 0, 5);
  }
}
