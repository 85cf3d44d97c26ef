/** Bitwise arithmetic on mathematical integers, one bit at a time. */
module Bits {

  function Pow2(n: nat): (p: nat)
    ensures p >= 1
  {
    if n == 0 then 1 else 2 * Pow2(n - 1)
  }

  lemma {:induction false} Pow2Add(a: nat, b: nat)
    ensures Pow2(a + b) == Pow2(a) * Pow2(b)
  {
    if a > 0 { Pow2Add(a - 1, b); }
  }

  lemma {:induction false} Pow2Mono(a: nat, b: nat)
    requires a <= b
    ensures Pow2(a) <= Pow2(b)
  {
    if a < b { Pow2Mono(a, b - 1); }
  }

  /** Bit i of x in two's complement; x may be negative. */
  predicate Bit(x: int, i: nat)
    decreases i
  {
    if i == 0 then x % 2 == 1 else Bit(x / 2, i - 1)
  }

  function BitVal(b: bool): nat { if b then 1 else 0 }

  function And(x: nat, y: nat): (r: nat)
    ensures r <= x && r <= y
  {
    if x == 0 || y == 0 then 0
    else 2 * And(x / 2, y / 2) + (if x % 2 == 1 && y % 2 == 1 then 1 else 0)
  }

  function Or(x: nat, y: nat): (r: nat)
    ensures r <= x + y && r >= x && r >= y
  {
    if x == 0 && y == 0 then 0
    else 2 * Or(x / 2, y / 2) + (if x % 2 == 1 || y % 2 == 1 then 1 else 0)
  }

  function Xor(x: nat, y: nat): (r: nat)
    ensures r <= x + y
  {
    if x == 0 && y == 0 then 0
    else 2 * Xor(x / 2, y / 2) + (if x % 2 != y % 2 then 1 else 0)
  }

  /** Complement within w bits. */
  function Not(w: nat, x: nat): (r: nat)
    requires x < Pow2(w)
    ensures r < Pow2(w)
  {
    Pow2(w) - 1 - x
  }

  // ----- bit-by-bit meaning of the operations

  lemma {:induction false} AndBit(x: nat, y: nat, i: nat)
    ensures Bit(And(x, y), i) == (Bit(x, i) && Bit(y, i))
  {
    if i == 0 {
      if x != 0 && y != 0 { HalfMod(And(x / 2, y / 2), BitVal(x % 2 == 1 && y % 2 == 1)); }
    } else if x == 0 || y == 0 {
      ZeroBit(i);
    } else {
      HalfMod(And(x / 2, y / 2), BitVal(x % 2 == 1 && y % 2 == 1));
      AndBit(x / 2, y / 2, i - 1);
    }
  }

  lemma {:induction false} OrBit(x: nat, y: nat, i: nat)
    ensures Bit(Or(x, y), i) == (Bit(x, i) || Bit(y, i))
  {
    if x == 0 && y == 0 {
      ZeroBit(i);
    } else {
      HalfMod(Or(x / 2, y / 2), BitVal(x % 2 == 1 || y % 2 == 1));
      if i > 0 { OrBit(x / 2, y / 2, i - 1); }
    }
  }

  lemma {:induction false} XorBit(x: nat, y: nat, i: nat)
    ensures Bit(Xor(x, y), i) == (Bit(x, i) != Bit(y, i))
  {
    if x == 0 && y == 0 {
      ZeroBit(i);
    } else {
      HalfMod(Xor(x / 2, y / 2), BitVal(x % 2 != y % 2));
      if i > 0 { XorBit(x / 2, y / 2, i - 1); }
    }
  }

  lemma {:induction false} NotBit(w: nat, x: nat, i: nat)
    requires x < Pow2(w) && i < w
    ensures Bit(Not(w, x), i) == !Bit(x, i)
  {
    var n := Not(w, x);
    assert n == 2 * (Pow2(w - 1) - 1 - x / 2) + (1 - x % 2);
    HalfMod(Pow2(w - 1) - 1 - x / 2, 1 - x % 2);
    if i > 0 { NotBit(w - 1, x / 2, i - 1); }
  }

  lemma HalfMod(h: int, b: int)
    requires 0 <= b <= 1
    ensures (2 * h + b) / 2 == h && (2 * h + b) % 2 == b
  {}

  lemma {:induction false} ZeroBit(i: nat)
    ensures !Bit(0, i)
  {
    if i > 0 { ZeroBit(i - 1); }
  }

  /** Reducing modulo 2^w keeps every bit below w. */
  lemma {:induction false} ModBit(x: int, w: nat, i: nat)
    requires i < w
    ensures Bit(x % Pow2(w), i) == Bit(x, i)
    decreases i
  {
    ModHalf(x, Pow2(w - 1));
    if i > 0 { ModBit(x / 2, w - 1, i - 1); }
  }

  lemma ModHalf(x: int, p: nat)
    requires p >= 1
    ensures (x % (2 * p)) / 2 == (x / 2) % p
    ensures (x % (2 * p)) % 2 == x % 2
  {
    var q, r := x / 2, x % 2;
    ModUnique(x, 2 * p, q / p, 2 * (q % p) + r);
    HalfMod(q % p, r);
  }

  lemma ModUnique(x: int, p: nat, k: int, r: int)
    requires p >= 1 && 0 <= r < p && x == k * p + r
    ensures x % p == r && x / p == k
  {
    var q, m := x / p, x % p;
    assert x == q * p + m;
    assert (q - k) * p == r - m;
    if q > k { Multiple(q - k, p); assert false; }
    if q < k { Multiple(k - q, p); assert false; }
  }

  lemma {:induction false} Multiple(k: nat, p: nat)
    requires k >= 1
    ensures k * p >= p
  {
    if k > 1 { Multiple(k - 1, p); }
  }

  /** The top bit of a w-bit word says which half of the range it lies in. */
  lemma {:induction false} TopBit(x: nat, w: nat)
    requires w >= 1 && x < Pow2(w)
    ensures Bit(x, w - 1) == (x >= Pow2(w - 1))
  {
    if w > 1 { TopBit(x / 2, w - 1); }
  }

  // ----- neutral elements, bounds and masks

  lemma {:induction false} XorSelf(x: nat)
    ensures Xor(x, x) == 0
  {
    if x > 0 { XorSelf(x / 2); }
  }

  lemma {:induction false} OrZero(x: nat)
    ensures Or(x, 0) == x
  {
    if x > 0 { OrZero(x / 2); }
  }

  lemma {:induction false} AndOnes(x: nat, w: nat)
    requires x < Pow2(w)
    ensures And(x, Pow2(w) - 1) == x
  {
    if x > 0 { AndOnes(x / 2, w - 1); }
  }

  lemma {:induction false} OrBound(x: nat, y: nat, w: nat)
    requires x < Pow2(w) && y < Pow2(w)
    ensures Or(x, y) < Pow2(w)
  {
    if w > 0 { OrBound(x / 2, y / 2, w - 1); }
  }

  lemma {:induction false} XorBound(x: nat, y: nat, w: nat)
    requires x < Pow2(w) && y < Pow2(w)
    ensures Xor(x, y) < Pow2(w)
  {
    if w > 0 { XorBound(x / 2, y / 2, w - 1); }
  }

  lemma AndStep(x: nat, m: nat)
    ensures And(x, 2 * m) == 2 * And(x / 2, m)
  {
    HalfMod(m, 0);
  }

  /** Masking with the complement of the low k ones clears the low k bits. */
  lemma {:induction false} AndClearLow(x: nat, w: nat, k: nat)
    requires x < Pow2(w) && k <= w
    ensures Pow2(k) <= Pow2(w)
    ensures And(x, Pow2(w) - Pow2(k)) == x - x % Pow2(k)
    decreases w
  {
    hide And;
    Pow2Mono(k, w);
    if k == 0 {
      AndOnes(x, w);
    } else {
      AndClearLow(x / 2, w - 1, k - 1);
      var p, q := Pow2(k - 1), Pow2(w - 1);
      AndStep(x, q - p);
      ModHalf(x, p);
      var h := x % (2 * p);
      assert x / 2 - h / 2 == x / 2 - x / 2 % p && h == 2 * (h / 2) + h % 2;
    }
  }

  /** Or of a word without low k bits and a word of k bits is their sum. */
  lemma {:induction false} OrDisjoint(hi: nat, lo: nat, k: nat)
    requires hi % Pow2(k) == 0 && lo < Pow2(k)
    ensures Or(hi, lo) == hi + lo
    decreases k
  {
    if k == 0 {
      OrZero(hi);
    } else if hi != 0 || lo != 0 {
      ModHalf(hi, Pow2(k - 1));
      OrDisjoint(hi / 2, lo / 2, k - 1);
    }
  }

  // ----- subtraction: borrows and signed overflow

  /** Borrow into bit i when s and the borrow b are taken from d. */
  predicate Borrow(d: int, s: int, b: nat, i: nat) {
    d % Pow2(i) < s % Pow2(i) + b
  }

  lemma {:induction false} BorrowStep(d: int, s: int, b: nat, i: nat)
    requires b <= 1
    ensures var b' := BitVal(d % 2 < s % 2 + b);
            Borrow(d, s, b, i + 1) == Borrow(d / 2, s / 2, b', i)
            && (d - s - b) / 2 == d / 2 - s / 2 - b'
  {
    ModHalf(d, Pow2(i));
    ModHalf(s, Pow2(i));
  }

  lemma DifferenceParity(d: int, s: int, b: nat)
    requires b <= 1
    ensures ((d - s - b) % 2 == 1) == (((d % 2 == 1) != (s % 2 == 1)) != (b > 0))
  {}

  /** Each difference bit is the xor of both operand bits and the borrow into it. */
  lemma {:induction false} DifferenceBit(d: int, s: int, b: nat, i: nat)
    requires b <= 1
    ensures Bit(d - s - b, i) == ((Bit(d, i) != Bit(s, i)) != Borrow(d, s, b, i))
    decreases i
  {
    if i == 0 {
      assert Pow2(0) == 1;
      assert Borrow(d, s, b, 0) == (b > 0);
      DifferenceParity(d, s, b);
    } else {
      BorrowStep(d, s, b, i - 1);
      DifferenceBit(d / 2, s / 2, BitVal(d % 2 < s % 2 + b), i - 1);
    }
  }

  /** The borrow out of a bit, from the operand bits and the borrow into it. */
  lemma {:induction false} BorrowOut(d: int, s: int, b: nat, i: nat)
    requires b <= 1
    ensures Borrow(d, s, b, i + 1) ==
            ((!Bit(d, i) && Bit(s, i)) || ((!Bit(d, i) || Bit(s, i)) && Borrow(d, s, b, i)))
    decreases i
  {
    BorrowStep(d, s, b, i);
    if i > 0 {
      BorrowOut(d / 2, s / 2, BitVal(d % 2 < s % 2 + b), i - 1);
      BorrowStep(d, s, b, i - 1);
    }
  }

  /** The borrow word (r & (~d | s)) | (~d & s) of emulate.c:796, within w bits. */
  function BorrowWord(w: nat, d: nat, s: nat): (bc: nat)
    requires d < Pow2(w) && s < Pow2(w)
  {
    var r := (d - s) % Pow2(w);
    Or(And(r, Or(Not(w, d), s)), And(Not(w, d), s))
  }

  /** Bit i of the borrow word is the borrow out of bit i, at every bit of every width. */
  lemma BorrowWordBit(w: nat, d: nat, s: nat, i: nat)
    requires d < Pow2(w) && s < Pow2(w) && i < w
    ensures Bit(BorrowWord(w, d, s), i) == (d % Pow2(i + 1) < s % Pow2(i + 1))
  {
    var r, n := (d - s) % Pow2(w), Not(w, d);
    ModBit(d - s, w, i);
    DifferenceBit(d, s, 0, i);
    BorrowOut(d, s, 0, i);
    NotBit(w, d, i);
    OrBit(n, s, i);
    AndBit(r, Or(n, s), i);
    AndBit(n, s, i);
    OrBit(And(r, Or(n, s)), And(n, s), i);
  }

  /** Value of a w-bit word read as a signed number. */
  function Signed(w: nat, x: nat): int
    requires w >= 1
  {
    if x >= Pow2(w - 1) then x - Pow2(w) else x
  }

  predicate InSignedRange(w: nat, v: int)
    requires w >= 1
  {
    0 - Pow2(w - 1) <= v < Pow2(w - 1)
  }

  /** Borrow out of the top bit is unsigned less-than; the two top borrows differ
      exactly when the signed difference does not fit. */
  lemma BorrowWordFlags(w: nat, d: nat, s: nat)
    requires w >= 2 && d < Pow2(w) && s < Pow2(w)
    ensures Bit(BorrowWord(w, d, s), w - 1) == (d < s)
    ensures (Bit(BorrowWord(w, d, s), w - 1) != Bit(BorrowWord(w, d, s), w - 2))
            == !InSignedRange(w, Signed(w, d) - Signed(w, s))
  {
    BorrowWordBit(w, d, s, w - 1);
    BorrowWordBit(w, d, s, w - 2);
    var p := Pow2(w - 1);
    ModUnique(d, Pow2(w), 0, d);
    ModUnique(s, Pow2(w), 0, s);
    ModUnique(d, p, BitVal(d >= p), if d >= p then d - p else d);
    ModUnique(s, p, BitVal(s >= p), if s >= p then s - p else s);
  }
}
