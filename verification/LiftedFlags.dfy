/** Flags of lifted instructions, and the cache of the operands of the last comparison. */
module LiftedFlags {
  import opened Bits
  import opened Ledger

  /** A value of width w. */
  predicate IsWord(w: nat, x: int) { 0 <= x < Pow2(w) }

  function SubW(w: nat, a: nat, b: nat): (r: nat)
    ensures IsWord(w, r)
  {
    (a - b) % Pow2(w)
  }

  function AddW(w: nat, a: nat, b: nat): (r: nat)
    ensures IsWord(w, r)
  {
    (a + b) % Pow2(w)
  }

  function MulW(w: nat, a: int, b: int): (r: nat)
    ensures IsWord(w, r)
  {
    (a * b) % Pow2(w)
  }

  // ----- overflow of additions and subtractions

  /** Logical shift right, truncated to one bit. */
  predicate ShiftedBit(x: nat, n: nat) { x / Pow2(n) % 2 == 1 }

  lemma {:induction false} ShiftedBitIs(x: nat, n: nat)
    ensures ShiftedBit(x, n) == Bit(x, n)
    decreases n
  {
    if n > 0 {
      ShiftedBitIs(x / 2, n - 1);
      HalfShift(x, Pow2(n - 1));
    }
  }

  lemma HalfShift(x: nat, p: nat)
    requires p >= 1
    ensures x / (2 * p) == x / 2 / p
  {
    var h := x / 2;
    ModUnique(x, 2 * p, h / p, 2 * (h % p) + x % 2);
  }

  /** ((lhs ^ result) & (lhs ^ rhs)) >> (w - 1) */
  predicate OfSub(w: nat, r: nat, a: nat, b: nat)
    requires w >= 1
  {
    ShiftedBit(And(Xor(a, r), Xor(a, b)), w - 1)
  }

  /** ((lhs ^ result) & ~(lhs ^ rhs)) >> (w - 1) */
  predicate OfAdd(w: nat, r: nat, a: nat, b: nat)
    requires w >= 1 && IsWord(w, a) && IsWord(w, b)
  {
    XorBound(a, b, w);
    ShiftedBit(And(Xor(a, r), Not(w, Xor(a, b))), w - 1)
  }

  lemma OfSubBits(w: nat, r: nat, a: nat, b: nat)
    requires w >= 1 && IsWord(w, r) && IsWord(w, a) && IsWord(w, b)
    ensures var p := Pow2(w - 1); OfSub(w, r, a, b) == ((a >= p) != (r >= p) && (a >= p) != (b >= p))
  {
    ShiftedBitIs(And(Xor(a, r), Xor(a, b)), w - 1);
    AndBit(Xor(a, r), Xor(a, b), w - 1);
    XorBit(a, r, w - 1);
    XorBit(a, b, w - 1);
    TopBit(a, w);
    TopBit(b, w);
    TopBit(r, w);
  }

  lemma OfAddBits(w: nat, r: nat, a: nat, b: nat)
    requires w >= 1 && IsWord(w, r) && IsWord(w, a) && IsWord(w, b)
    ensures var p := Pow2(w - 1); OfAdd(w, r, a, b) == ((a >= p) != (r >= p) && (a >= p) == (b >= p))
  {
    XorBound(a, b, w);
    ShiftedBitIs(And(Xor(a, r), Not(w, Xor(a, b))), w - 1);
    AndBit(Xor(a, r), Not(w, Xor(a, b)), w - 1);
    NotBit(w, Xor(a, b), w - 1);
    XorBit(a, r, w - 1);
    XorBit(a, b, w - 1);
    TopBit(a, w);
    TopBit(b, w);
    TopBit(r, w);
  }

  /** At every width the formula says whether the signed difference fits, as the intrinsic does. */
  lemma OfSubExact(w: nat, a: nat, b: nat)
    requires w >= 1 && IsWord(w, a) && IsWord(w, b)
    ensures OfSub(w, SubW(w, a, b), a, b) == !InSignedRange(w, Signed(w, a) - Signed(w, b))
  {
    OfSubBits(w, SubW(w, a, b), a, b);
    hide OfSub;
    var m := Pow2(w);
    assert m == 2 * Pow2(w - 1);
    if a < b { ModUnique(a - b, m, -1, a - b + m); } else { ModUnique(a - b, m, 0, a - b); }
  }

  lemma OfAddExact(w: nat, a: nat, b: nat)
    requires w >= 1 && IsWord(w, a) && IsWord(w, b)
    ensures OfAdd(w, AddW(w, a, b), a, b) == !InSignedRange(w, Signed(w, a) + Signed(w, b))
  {
    var p, m := Pow2(w - 1), Pow2(w);
    OfAddBits(w, AddW(w, a, b), a, b);
    var k := if a + b >= m then 1 else 0;
    ModUnique(a + b, m, k, a + b - k * m);
  }

  /** The carry of a sum shows in the sum being smaller than an operand. */
  lemma CarryExact(w: nat, a: nat, b: nat)
    requires IsWord(w, a) && IsWord(w, b)
    ensures AddW(w, a, b) < a <==> a + b >= Pow2(w)
  {
    var m := Pow2(w);
    var k := if a + b >= m then 1 else 0;
    ModUnique(a + b, m, k, a + b - k * m);
  }

  // ----- overflow of products

  /** Sign extension from w to 2 * w bits. */
  function SExt(w: nat, x: nat): (r: nat)
    requires w >= 1 && IsWord(w, x)
    ensures IsWord(2 * w, r)
  {
    Signed(w, x) % Pow2(2 * w)
  }

  /** The product at double width differs from the sign-extended result. */
  predicate OfImul(w: nat, r: nat, a: nat, b: nat)
    requires w >= 1 && IsWord(w, r) && IsWord(w, a) && IsWord(w, b)
  {
    MulW(2 * w, SExt(w, a), SExt(w, b)) != SExt(w, r)
  }

  /** The variant for a result of double width, which is truncated for the comparison. */
  predicate OfImulWide(w: nat, long: nat)
    requires w >= 1 && IsWord(2 * w, long)
  {
    long != SExt(w, long % Pow2(w))
  }

  lemma SignedBounds(w: nat, x: nat)
    requires w >= 1 && IsWord(w, x)
    ensures InSignedRange(w, Signed(w, x)) && (Signed(w, x) - x) % Pow2(w) == 0
  {
    ModUnique(Signed(w, x) - x, Pow2(w), if x >= Pow2(w - 1) then -1 else 0, 0);
  }

  lemma ModProduct(a: int, b: int, x: int, y: int, m: nat)
    requires m >= 1 && (a - x) % m == 0 && (b - y) % m == 0
    ensures (a * b) % m == (x * y) % m
  {
    var j, k := (a - x) / m, (b - y) / m;
    assert a == x + j * m && b == y + k * m;
    var c := x * k + j * y + j * k * m;
    assert a * b == x * y + c * m by {
      assert (x + j * m) * (y + k * m) == x * y + (x * k + j * y + j * k * m) * m;
    }
    ModUnique(a * b, m, c + x * y / m, (x * y) % m);
  }

  lemma ModOfMod(x: int, m: nat)
    requires m >= 1
    ensures (x % m - x) % m == 0
  {
    ModUnique(x % m - x, m, -(x / m), 0);
  }

  /** Two values in the signed range of a width that are congruent are equal. */
  lemma CongruentEqual(x: int, y: int, h: nat)
    requires h >= 1 && 0 - h <= x < h && 0 - h <= y < h
    ensures x % (2 * h) == y % (2 * h) <==> x == y
  {
    ModUnique(x, 2 * h, if x < 0 then -1 else 0, if x < 0 then x + 2 * h else x);
    ModUnique(y, 2 * h, if y < 0 then -1 else 0, if y < 0 then y + 2 * h else y);
  }

  lemma ProductBound(x: int, y: int, p: nat)
    requires p >= 1 && 0 - p <= x < p && 0 - p <= y < p
    ensures 0 - p * p <= x * y <= p * p
  {
    var ax, ay := if x < 0 then -x else x, if y < 0 then -y else y;
    assert x * y == ax * ay || x * y == -(ax * ay);
    MulMono(ax, ay, p);
  }

  lemma MulMono(a: nat, b: nat, p: nat)
    requires a <= p && b <= p
    ensures 0 <= a * b <= p * p
  {
    assert a * b <= p * b <= p * p;
  }

  /** Signed value of the truncated product: the product itself exactly if it fits. */
  lemma TruncatedProduct(w: nat, v: int)
    requires w >= 1
    ensures Signed(w, v % Pow2(w)) == v <==> InSignedRange(w, v)
  {
    var p, m := Pow2(w - 1), Pow2(w);
    if InSignedRange(w, v) {
      ModUnique(v, m, if v < 0 then -1 else 0, if v < 0 then v + m else v);
    } else {
      SignedBounds(w, v % m);
    }
  }

  /** The double-width product is that of the signed operands. */
  lemma LongProduct(w: nat, a: nat, b: nat)
    requires w >= 1 && IsWord(w, a) && IsWord(w, b)
    ensures var v := Signed(w, a) * Signed(w, b);
            && MulW(2 * w, SExt(w, a), SExt(w, b)) == v % Pow2(2 * w)
            && MulW(w, a, b) == v % Pow2(w)
            && InSignedRange(2 * w, v)
  {
    hide Pow2, InSignedRange;
    var x, y, m := Signed(w, a), Signed(w, b), Pow2(2 * w);
    ModOfMod(x, m);
    ModOfMod(y, m);
    ModProduct(SExt(w, a), SExt(w, b), x, y, m);
    SignedBounds(w, a);
    SignedBounds(w, b);
    ModProduct(x, y, a, b, Pow2(w));
    ProductFits(w, x, y);
  }

  lemma ProductFits(w: nat, x: int, y: int)
    requires w >= 1 && InSignedRange(w, x) && InSignedRange(w, y)
    ensures InSignedRange(2 * w, x * y)
  {
    var p := Pow2(w - 1);
    ProductBound(x, y, p);
    Pow2Add(w - 1, w - 1);
    assert Pow2(2 * w - 1) == 2 * Pow2(2 * w - 2) == 2 * (p * p);
  }

  /** At every width the formula says whether the signed product fits. */
  lemma OfImulExact(w: nat, a: nat, b: nat)
    requires w >= 1 && IsWord(w, a) && IsWord(w, b)
    ensures OfImul(w, MulW(w, a, b), a, b) == !InSignedRange(w, Signed(w, a) * Signed(w, b))
  {
    var v, r := Signed(w, a) * Signed(w, b), MulW(w, a, b);
    LongProduct(w, a, b);
    SignedBounds(w, r);
    Pow2Mono(w - 1, 2 * w - 1);
    CongruentEqual(v, Signed(w, r), Pow2(2 * w - 1));
    TruncatedProduct(w, v);
  }

  lemma OfImulWideExact(w: nat, a: nat, b: nat)
    requires w >= 1 && IsWord(w, a) && IsWord(w, b)
    ensures OfImulWide(w, MulW(2 * w, SExt(w, a), SExt(w, b))) == !InSignedRange(w, Signed(w, a) * Signed(w, b))
  {
    var v, long := Signed(w, a) * Signed(w, b), MulW(2 * w, SExt(w, a), SExt(w, b));
    LongProduct(w, a, b);
    TruncatedLong(w, v);
    OfImulExact(w, a, b);
  }

  lemma SplitTwice(v: int, q: int, r: nat, m: nat)
    requires m >= 1 && v == q * (m * m) + r
    ensures v == (q * m + r / m) * m + r % m
  {
    assert r == r / m * m + r % m;
    assert (q * m + r / m) * m == q * m * m + r / m * m;
  }

  lemma TruncatedLong(w: nat, v: int)
    ensures v % Pow2(2 * w) % Pow2(w) == v % Pow2(w)
  {
    var m := Pow2(w);
    Pow2Add(w, w);
    hide Pow2;
    var q, r := v / (m * m), v % (m * m);
    SplitTwice(v, q, r, m);
    ModUnique(v, m, q * m + r / m, r % m);
  }
}
