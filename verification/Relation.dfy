/** The relation between the emulator state, the original machine and the residual machine. */
module Relation {
  import opened Machine
  import opened Emulator

  /** Where the tracked stack really lies: concrete address = tracked address + delta.
      The private window are the size bytes below the stack pointer at entry; slots are the places in it where
      stack addresses are spilled, counted from the top. */
  datatype Frame = Frame(delta: int, size: nat, slots: set<int>)

  /** Different slots do not overlap. */
  predicate SlotsOk(slots: set<int>) { forall a <- slots, b <- slots :: a < b ==> a + 8 <= b }

  predicate InWindow(es: EState, fr: Frame, a: int) {
    es.Top() + fr.delta - fr.size <= a < es.Top() + fr.delta
  }

  predicate FrameOk(es: EState, fr: Frame) {
    && |es.stack| <= fr.size && SlotsOk(fr.slots)
    && 0 <= es.Top() + fr.delta - fr.size
    && es.Top() + fr.delta <= M64
  }

  /** x in the original and y in the residual machine are described by the value ev of state st. */
  predicate ValRel(st: CState, ev: Word, x: Word, y: Word, delta: int) {
    match st
    case Dead => true
    case Dyn => x == y
    case Static => x == ev
    case Static2 => x == ev
    case StackRel => x == y && x == Wrap(ev + delta)
  }

  predicate ByteRel(st: CState, ev: Byte, x: Byte, y: Byte) {
    match st
    case Dead => true
    case Dyn => x == y
    case StackRel => x == y
    case _ => x == ev
  }

  predicate RegRel(es: EState, fr: Frame, s: Mach, t: Mach)
    requires es.Valid() && s.Valid() && t.Valid()
  {
    forall r :: 0 <= r < 16 ==> ValRel(es.rs[r], es.reg[r], s.reg[r], t.reg[r], fr.delta)
  }

  ghost predicate OutRel(es: EState, fr: Frame, s: Memory, t: Memory) {
    forall a: Word :: !InWindow(es, fr, a) ==> s(a) == t(a)
  }

  /** Concrete address of tracked byte i. */
  function Cell(es: EState, fr: Frame, i: int): int { es.start + fr.delta + i }

  predicate StackRelBytes(es: EState, fr: Frame, s: Memory, t: Memory)
    requires es.Valid()
  {
    forall i :: 0 <= i < |es.stack| ==>
      ByteRel(es.ss[i], es.stack[i], s(Cell(es, fr, i)), t(Cell(es, fr, i)))
  }

  /** The eight tracked bytes at i are a slot. */
  predicate IsSlot(es: EState, slots: set<int>, i: int) {
    0 <= i && i + 8 <= |es.stack| && |es.stack| - i in slots
  }

  predicate AllStackRel(es: EState, i: int)
    requires es.Valid() && 0 <= i && i + 8 <= |es.stack|
  {
    forall k :: i <= k < i + 8 ==> es.ss[k] == StackRel
  }

  predicate SlotHolds(es: EState, fr: Frame, s: Memory, i: int)
    requires es.Valid() && FrameOk(es, fr) && 0 <= i && i + 8 <= |es.stack|
  {
    Load64(s, Cell(es, fr, i)) == Wrap(Word8(es.stack[i..i + 8]) + fr.delta)
  }

  /** A spilled stack address reads back as the tracked value moved by delta. */
  ghost predicate SlotRel(es: EState, fr: Frame, s: Memory)
    requires es.Valid() && FrameOk(es, fr)
  {
    forall i :: IsSlot(es, fr.slots, i) && AllStackRel(es, i) ==> SlotHolds(es, fr, s, i)
  }

  ghost predicate StateRel(es: EState, fr: Frame, s: Mach, t: Mach) {
    && es.Valid() && s.Valid() && t.Valid() && FrameOk(es, fr)
    && RegRel(es, fr, s, t)
    && OutRel(es, fr, s.mem, t.mem)
    && StackRelBytes(es, fr, s.mem, t.mem)
    && SlotRel(es, fr, s.mem)
  }

  predicate FlagOk(st: CState, ev: bool, x: bool, y: bool) {
    match st
    case Dead => true
    case Dyn => x == y
    case StackRel => x == y
    case _ => x == ev
  }

  predicate FlagRel(es: EState, f: Flags, g: Flags) {
    && FlagOk(es.fs.cf, es.flags.cf, f.cf, g.cf)
    && FlagOk(es.fs.zf, es.flags.zf, f.zf, g.zf)
    && FlagOk(es.fs.sf, es.flags.sf, f.sf, g.sf)
    && FlagOk(es.fs.of, es.flags.of, f.of, g.of)
  }

  const ALL_FLAGS: set<Flag> := {CF, ZF, SF, OF}

  function FlagVal(f: Flags, x: Flag): bool {
    match x case CF => f.cf case ZF => f.zf case SF => f.sf case OF => f.of
  }

  /** Flags whose known values are those of the original program, and flags on which both programs agree. */
  datatype Live = Live(known: set<Flag>, same: set<Flag>)

  predicate FlagsLive(es: EState, l: Live, f: Flags, g: Flags) {
    && (forall x <- l.known :: IsStatic(StateOf(es.fs, x)) ==> FlagVal(f, x) == FlagVal(es.flags, x))
    && (forall x <- l.same :: FlagVal(f, x) == FlagVal(g, x))
  }

  predicate Shared(c: CState) { c == Dyn || c == StackRel }

  /** What FlagRel says of an emulator state. */
  function StartLive(es: EState): Live {
    Live(ALL_FLAGS, set x | x in ALL_FLAGS && Shared(StateOf(es.fs, x)))
  }

  /** Everything FlagRel says is known. */
  predicate FullyLive(es: EState, l: Live) {
    forall x <- ALL_FLAGS ::
      && (IsStatic(StateOf(es.fs, x)) ==> x in l.known)
      && (Shared(StateOf(es.fs, x)) ==> x in l.same)
  }

  lemma StartsLive(es: EState, f: Flags, g: Flags)
    requires FlagRel(es, f, g)
    ensures FlagsLive(es, StartLive(es), f, g)
  {}

  lemma FullyLiveRel(es: EState, l: Live, f: Flags, g: Flags)
    requires FlagsLive(es, l, f, g) && FullyLive(es, l)
    ensures FlagRel(es, f, g)
  {
    assert CF in ALL_FLAGS && ZF in ALL_FLAGS && SF in ALL_FLAGS && OF in ALL_FLAGS;
  }

  // ----- addresses

  /** An index register holding a stack address must not be scaled. */
  predicate AddrExact(es: EState, m: MemRef, ip: Word)
    requires es.Valid()
  {
    OpAddr(es, m, ip).st == StackRel && m.scale > 1 ==> es.rs[m.idx] != StackRel
  }

  lemma WrapAdd(a: int, b: int)
    ensures Wrap(Wrap(a) + b) == Wrap(a + b)
    ensures Wrap(b + Wrap(a)) == Wrap(a + b)
  {}

  /** Moving one summand moves the whole sum. */
  lemma WrapShift(a: int, b: int, delta: int)
    ensures Wrap(a + Wrap(b + delta)) == Wrap(Wrap(a + b) + delta)
  {
    WrapAdd(b + delta, a);
    WrapAdd(a + b, delta);
  }

  lemma OpAddrSum(es: EState, m: MemRef, ip: Word)
    requires es.Valid()
    ensures var b := match m.base case NoBase => 0 case Gp(r) => es.reg[r] case Rip => ip;
            OpAddr(es, m, ip).val == Wrap(m.disp + b + Times(m.scale, es.reg[m.idx]))
  {
    var b := match m.base case NoBase => 0 case Gp(r) => es.reg[r] case Rip => ip;
    WrapAdd(m.disp + b, Times(m.scale, es.reg[m.idx]));
  }

  /** Folding known registers into the displacement keeps the address. */
  lemma AddressRel(es: EState, fr: Frame, s: Mach, t: Mach, m: MemRef, ip: Word)
    requires StateRel(es, fr, s, t)
    requires AddrExact(es, m, ip)
    ensures var a := OpAddr(es, m, ip);
            var x, y := EffAddr(s, m, ip), EffAddr(t, FoldMem(es, m, ip), 0);
            ValRel(a.st, a.val, x, y, fr.delta) && (a.st != Dead ==> x == y)
  {
    var a := OpAddr(es, m, ip);
    if a.st != Dead {
      FoldedAddress(es, fr, s, t, m, ip);
      OriginalAddress(es, fr, s, t, m, ip);
    }
  }

  /** Sum of two described values. */
  lemma SumRel(d: int, sb: CState, be: int, bs: int, si: CState, qe: int, qs: int, delta: int)
    requires IsStatic(sb) ==> bs == be
    requires sb == StackRel ==> bs == Wrap(be + delta)
    requires IsStatic(si) ==> qs == qe
    requires si == StackRel ==> qs == Wrap(qe + delta)
    ensures var c := CombineState(sb, si, false);
            && (IsStatic(c) ==> Wrap(d + bs + qs) == Wrap(d + be + qe))
            && (c == StackRel ==> Wrap(d + bs + qs) == Wrap(Wrap(d + be + qe) + delta))
  {
    if sb == StackRel && IsStatic(si) {
      WrapShift(d + qs, be, delta);
      assert d + bs + qs == d + qs + Wrap(be + delta);
    } else if IsStatic(sb) && si == StackRel {
      WrapShift(d + bs, qe, delta);
      assert d + bs + qs == d + bs + Wrap(qe + delta);
    }
  }

  lemma RegAt(es: EState, fr: Frame, s: Mach, t: Mach, r: Reg)
    requires StateRel(es, fr, s, t)
    ensures ValRel(es.rs[r], es.reg[r], s.reg[r], t.reg[r], fr.delta)
  {}

  lemma OriginalAddress(es: EState, fr: Frame, s: Mach, t: Mach, m: MemRef, ip: Word)
    requires es.Valid() && s.Valid() && t.Valid() && StateRel(es, fr, s, t)
    requires AddrExact(es, m, ip)
    ensures var a := OpAddr(es, m, ip);
            && (IsStatic(a.st) ==> EffAddr(s, m, ip) == a.val)
            && (a.st == StackRel ==> EffAddr(s, m, ip) == Wrap(a.val + fr.delta))
  {
    hide StateRel, Times, Wrap;
    var sb := match m.base case Gp(r) => es.rs[r] case _ => Static;
    var be := match m.base case NoBase => 0 case Gp(r) => es.reg[r] case Rip => ip;
    var bs := match m.base case NoBase => 0 case Gp(r) => s.reg[r] case Rip => ip;
    RegAt(es, fr, s, t, m.idx);
    if m.base.Gp? { RegAt(es, fr, s, t, m.base.r); }
    OpAddrSum(es, m, ip);
    var q, qs := Times(m.scale, es.reg[m.idx]), Times(m.scale, s.reg[m.idx]);
    if m.scale == 0 || (m.scale > 1 && es.rs[m.idx] == StackRel) {
      SumRel(m.disp, sb, be, bs, Static, 0, 0, fr.delta);
    } else {
      SumRel(m.disp, sb, be, bs, es.rs[m.idx], q, qs, fr.delta);
    }
  }

  lemma FoldedBase(es: EState, fr: Frame, s: Mach, t: Mach, m: MemRef, ip: Word, q: int)
    requires es.Valid() && s.Valid() && t.Valid() && StateRel(es, fr, s, t)
    requires m.base.Gp? ==> es.rs[m.base.r] != Dead
    ensures var n := FoldBase(es, m, ip);
            var bs := match m.base case NoBase => 0 case Gp(r) => s.reg[r] case Rip => ip;
            var bt := if n.base.Gp? then t.reg[n.base.r] else 0;
            && !n.base.Rip? && n.scale == m.scale && n.idx == m.idx && Wrap(n.disp + bt + q) == Wrap(m.disp + bs + q)
  {
    hide StateRel;
    if m.base.Gp? {
      RegAt(es, fr, s, t, m.base.r);
      WrapAdd(m.disp + es.reg[m.base.r], q);
    } else {
      WrapAdd(m.disp + ip, q);
    }
  }

  lemma FoldedAddress(es: EState, fr: Frame, s: Mach, t: Mach, m: MemRef, ip: Word)
    requires es.Valid() && s.Valid() && t.Valid() && StateRel(es, fr, s, t)
    requires OpAddr(es, m, ip).st != Dead
    ensures EffAddr(s, m, ip) == EffAddr(t, FoldMem(es, m, ip), 0)
  {
    hide StateRel, FoldBase, FoldIndex, Wrap, Times;
    FoldedBase(es, fr, s, t, m, ip, Times(m.scale, s.reg[m.idx]));
    FoldedIndex(es, fr, s, t, FoldBase(es, m, ip));
  }

  lemma FoldedIndex(es: EState, fr: Frame, s: Mach, t: Mach, m: MemRef)
    requires StateRel(es, fr, s, t) && !m.base.Rip?
    requires m.scale > 0 ==> es.rs[m.idx] != Dead
    ensures var b := if m.base.Gp? then t.reg[m.base.r] else 0;
            EffAddr(t, FoldIndex(es, m), 0) == Wrap(m.disp + b + Times(m.scale, s.reg[m.idx]))
  {
    var b := if m.base.Gp? then t.reg[m.base.r] else 0;
    RegAt(es, fr, s, t, m.idx);
    WrapAdd(m.disp + Times(m.scale, s.reg[m.idx]), b);
  }
}
