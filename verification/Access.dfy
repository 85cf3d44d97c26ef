/** Loads and stores of the emulator against both machines. */
module Access {
  import opened Machine
  import opened Emulator
  import opened Relation

  // ----- what an access has to satisfy

  /** Checkable on the emulator state: the address is initialised and its anchor is not scaled. */
  predicate AddressExact(es: EState, o: Operand, ip: Word)
    requires es.Valid()
  {
    o.M? ==> OpAddr(es, o.m, ip).st != Dead && AddrExact(es, o.m, ip)
  }

  /** A tracked load must not mix known and unknown bytes; a stack address is read from one slot. */
  predicate LoadExact(es: EState, slots: set<int>, o: Operand, ip: Word)
    requires es.Valid()
  {
    o.M? && Tracked(es, o, ip) ==>
      var off := OpAddr(es, o.m, ip).val - es.start;
      off + 8 <= |es.stack| ==>
        && (SlotState(es, off, 8) == StackRel ==> IsSlot(es, slots, off))
        && (SlotState(es, off, 8) == Dyn ==> forall k :: off <= k < off + 8 ==> !IsStatic(es.ss[k]))
  }

  /** Nothing uninitialised leaves the tracked state; a stack address is spilled to one slot. */
  predicate StoreExact(es: EState, slots: set<int>, o: Operand, st: CState, ip: Word)
    requires es.Valid()
  {
    o.M? ==>
      if Tracked(es, o, ip) then
        st == StackRel ==> IsSlot(es, slots, OpAddr(es, o.m, ip).val - es.start)
      else st != Dead
  }

  predicate ByteOutside(es: EState, fr: Frame, x: Word, k: int) { !InWindow(es, fr, Wrap(x + k)) }

  predicate OutsideWindow(es: EState, fr: Frame, x: Word) {
    forall k :: 0 <= k < 8 ==> ByteOutside(es, fr, x, k)
  }

  /** The assumption of the emulator on the running program: an access it does not track stays off
      the private stack, and memory declared constant still holds what was read when rewriting. */
  predicate AccessSafe(es: EState, fr: Frame, s: Mach, o: Operand, ip: Word, rd: Word -> Word)
    requires es.Valid() && s.Valid()
  {
    o.M? && !Tracked(es, o, ip) ==>
      var a, x := OpAddr(es, o.m, ip), EffAddr(s, o.m, ip);
      && OutsideWindow(es, fr, x)
      && (a.st == Static2 && !OnStack(es, a.val) ==> Load64(s.mem, x) == rd(a.val))
  }

  // ----- loads

  lemma {:induction false} SlotStates(es: EState, off: nat, n: nat)
    requires es.Valid() && 1 <= n && off + n <= |es.stack|
    ensures var c := SlotState(es, off, n);
            && (IsStatic(c) ==> forall k :: off <= k < off + n ==> IsStatic(es.ss[k]))
            && (c == StackRel ==> forall k :: off <= k < off + n ==> es.ss[k] == StackRel)
            && (c == Dyn ==> forall k :: off <= k < off + n ==> es.ss[k] != Dead)
  {
    if n > 1 { SlotStates(es, off, n - 1); }
  }

  lemma CellsInside(mem: Memory, a: Word)
    requires a + 8 <= M64
    ensures forall i :: 0 <= i < 8 ==> Cells(mem, a)[i] == mem(a + i)
  {
    forall i | 0 <= i < 8 ensures Cells(mem, a)[i] == mem(a + i) {
      assert Wrap(a + i) == a + i;
    }
  }

  lemma TrackedLoad(es: EState, fr: Frame, s: Mach, t: Mach, off: nat)
    requires StateRel(es, fr, s, t) && off + 8 <= |es.stack|
    requires SlotState(es, off, 8) == StackRel ==> IsSlot(es, fr.slots, off)
    requires SlotState(es, off, 8) == Dyn ==> forall k :: off <= k < off + 8 ==> !IsStatic(es.ss[k])
    ensures var a := Cell(es, fr, off);
            ValRel(SlotState(es, off, 8), Word8(es.stack[off..off + 8]), Load64(s.mem, a), Load64(t.mem, a), fr.delta)
  {
    hide SlotState, OutRel, RegRel;
    var c, a, w := SlotState(es, off, 8), Cell(es, fr, off), es.stack[off..off + 8];
    SlotStates(es, off, 8);
    CellsInside(s.mem, a);
    CellsInside(t.mem, a);
    forall i | 0 <= i < 8
      ensures IsStatic(c) ==> Cells(s.mem, a)[i] == w[i]
      ensures c == Dyn || c == StackRel ==> Cells(s.mem, a)[i] == Cells(t.mem, a)[i]
    {
      assert ByteRel(es.ss[off + i], es.stack[off + i], s.mem(Cell(es, fr, off + i)),
                     t.mem(Cell(es, fr, off + i)));
    }
    if IsStatic(c) { assert Cells(s.mem, a) == w; }
    if c == Dyn || c == StackRel { assert Cells(s.mem, a) == Cells(t.mem, a); }
    if c == StackRel { assert AllStackRel(es, off); assert SlotHolds(es, fr, s.mem, off); }
  }

  lemma OutsideLoad(es: EState, fr: Frame, s: Mach, t: Mach, x: Word)
    requires StateRel(es, fr, s, t) && OutsideWindow(es, fr, x)
    ensures Load64(s.mem, x) == Load64(t.mem, x)
  {
    forall i | 0 <= i < 8 ensures Cells(s.mem, x)[i] == Cells(t.mem, x)[i] {
      assert ByteOutside(es, fr, x, i);
    }
    assert Cells(s.mem, x) == Cells(t.mem, x);
  }

  /** The tracked location of a stack-relative address. */
  lemma TrackedAddress(es: EState, fr: Frame, s: Mach, t: Mach, m: MemRef, ip: Word)
    requires StateRel(es, fr, s, t) && AddressExact(es, M(m), ip) && Tracked(es, M(m), ip)
    ensures var x := OpAddr(es, m, ip).val + fr.delta;
            EffAddr(s, m, ip) == x && EffAddr(t, FoldMem(es, m, ip), 0) == x
  {
    AddressRel(es, fr, s, t, m, ip);
    var x := OpAddr(es, m, ip).val + fr.delta;
    assert 0 <= x < M64;
    assert Wrap(x) == x;
  }

  /** Whatever the emulator says about an operand describes both machines; the residual machine
      evaluates the folded operand. */
  lemma ValueRel(es: EState, fr: Frame, s: Mach, t: Mach, o: Operand, ip: Word, rd: Word -> Word)
    requires es.Valid() && s.Valid() && t.Valid()
    requires StateRel(es, fr, s, t) && OperandValid(o) && OpValue(es, o, ip, rd).Ok?
    requires AddressExact(es, o, ip) && LoadExact(es, fr.slots, o, ip) && AccessSafe(es, fr, s, o, ip, rd)
    ensures var v := OpValue(es, o, ip, rd).value;
            ValRel(v.st, Extend(o, v).val, Value(s, o, ip), Value(t, Fold(es, o, ip), 0), fr.delta)
    ensures var v := OpValue(es, o, ip, rd).value;
            !Tracked(es, o, ip) ==> Value(s, o, ip) == Value(t, Fold(es, o, ip), 0)
  {
    hide StateRel, SlotState, AddrExact, FoldMem, EffAddr, Load64, OpAddr;
    match o {
      case R(r) => RegAt(es, fr, s, t, r);
      case M(m) =>
        AddressRel(es, fr, s, t, m, ip);
        var a := OpAddr(es, m, ip);
        if Tracked(es, o, ip) {
          TrackedAddress(es, fr, s, t, m, ip);
          TrackedLoad(es, fr, s, t, a.val - es.start);
        } else {
          OutsideLoad(es, fr, s, t, EffAddr(s, m, ip));
        }
      case _ =>
    }
  }

  // ----- stores

  lemma StoreCell(mem: Memory, a: Word, v: Word, x: int)
    requires a + 8 <= M64 && 0 <= x < M64
    ensures Store64(mem, a, v)(x) == if a <= x < a + 8 then Bytes8(v)[x - a] else mem(x)
  {
    if x >= a { assert Wrap(x - a) == x - a; } else { assert Wrap(x - a) == x - a + M64; }
  }

  lemma StoreOutside(mem: Memory, es: EState, fr: Frame, a: Word, v: Word, x: Word)
    requires OutsideWindow(es, fr, a) && InWindow(es, fr, x)
    ensures Store64(mem, a, v)(x) == mem(x)
  {
    var k := Wrap(x - a);
    assert Wrap(a + k) == x;
    assert !ByteOutside(es, fr, a, k);
  }

  lemma LoadSame(mem: Memory, mem': Memory, a: Word)
    requires a + 8 <= M64 && forall k :: a <= k < a + 8 ==> mem'(k) == mem(k)
    ensures Load64(mem', a) == Load64(mem, a)
  {
    CellsInside(mem, a);
    CellsInside(mem', a);
    assert Cells(mem', a) == Cells(mem, a);
  }

  /** Slots and bytes of the stack depend on the private window only. */
  lemma WindowSame(es: EState, fr: Frame, s: Mach, t: Mach, s': Memory, t': Memory)
    requires StateRel(es, fr, s, t)
    requires forall x: Word :: InWindow(es, fr, x) ==> s'(x) == s.mem(x) && t'(x) == t.mem(x)
    ensures StackRelBytes(es, fr, s', t') && SlotRel(es, fr, s')
  {
    forall i | 0 <= i < |es.stack| ensures ByteRel(es.ss[i], es.stack[i], s'(Cell(es, fr, i)), t'(Cell(es, fr, i))) {
      assert InWindow(es, fr, Cell(es, fr, i));
    }
    forall i | IsSlot(es, fr.slots, i) && AllStackRel(es, i) ensures SlotHolds(es, fr, s', i) {
      assert SlotHolds(es, fr, s.mem, i);
      forall k | Cell(es, fr, i) <= k < Cell(es, fr, i) + 8 ensures s'(k) == s.mem(k) {
        assert InWindow(es, fr, k);
      }
      LoadSame(s.mem, s', Cell(es, fr, i));
    }
  }

  /** Both machines store the same word outside the private stack. */
  lemma StoreUntracked(es: EState, fr: Frame, s: Mach, t: Mach, a: Word, v: Word)
    requires StateRel(es, fr, s, t) && OutsideWindow(es, fr, a)
    ensures StateRel(es, fr, s.(mem := Store64(s.mem, a, v)), t.(mem := Store64(t.mem, a, v)))
  {
    var s', t' := Store64(s.mem, a, v), Store64(t.mem, a, v);
    forall x: Word | InWindow(es, fr, x) ensures s'(x) == s.mem(x) && t'(x) == t.mem(x) {
      StoreOutside(s.mem, es, fr, a, v, x);
      StoreOutside(t.mem, es, fr, a, v, x);
    }
    WindowSame(es, fr, s, t, s', t');
    assert OutRel(es, fr, s', t');
  }

  lemma OutRelStored(es: EState, fr: Frame, s: Memory, t: Memory, off: nat, x: Word, y: Word)
    requires es.Valid() && FrameOk(es, fr) && OutRel(es, fr, s, t) && off + 8 <= |es.stack|
    ensures var a := Cell(es, fr, off); OutRel(es, fr, Store64(s, a, x), Store64(t, a, y))
  {
    var a := Cell(es, fr, off);
    forall b: Word | !InWindow(es, fr, b) ensures Store64(s, a, x)(b) == Store64(t, a, y)(b) {
      StoreCell(s, a, x, b);
      StoreCell(t, a, y, b);
    }
  }

  lemma BytesStored(es: EState, fr: Frame, s: Mach, t: Mach, off: nat, v: Word, st: CState, x: Word, y: Word, i: nat)
    requires StateRel(es, fr, s, t) && off + 8 <= |es.stack| && i < |es.stack|
    requires ValRel(st, v, x, y, fr.delta)
    ensures var a, es' := Cell(es, fr, off), WriteStack(es, off, v, st);
            ByteRel(es'.ss[i], es'.stack[i], Store64(s.mem, a, x)(Cell(es, fr, i)),
              Store64(t.mem, a, y)(Cell(es, fr, i)))
  {
    var a := Cell(es, fr, off);
    StoreCell(s.mem, a, x, Cell(es, fr, i));
    StoreCell(t.mem, a, y, Cell(es, fr, i));
    assert ByteRel(es.ss[i], es.stack[i], s.mem(Cell(es, fr, i)), t.mem(Cell(es, fr, i)));
  }

  /** A word written to a tracked slot: x by the original, y by the residual program. */
  lemma StoreTracked(es: EState, fr: Frame, s: Mach, t: Mach, off: nat, v: Word, st: CState, x: Word, y: Word)
    requires StateRel(es, fr, s, t) && off + 8 <= |es.stack|
    requires ValRel(st, v, x, y, fr.delta)
    requires st == StackRel ==> IsSlot(es, fr.slots, off)
    ensures var a := Cell(es, fr, off);
            StateRel(WriteStack(es, off, v, st), fr, s.(mem := Store64(s.mem, a, x)), t.(mem := Store64(t.mem, a, y)))
  {
    hide ByteRel, SlotHolds, Store64, Splice, Bytes8;
    var a := Cell(es, fr, off);
    var es' := WriteStack(es, off, v, st);
    var s', t' := Store64(s.mem, a, x), Store64(t.mem, a, y);
    OutRelStored(es, fr, s.mem, t.mem, off, x, y);
    assert OutRel(es', fr, s', t') by {
      forall b: Word | !InWindow(es', fr, b) ensures s'(b) == t'(b) { assert !InWindow(es, fr, b); }
    }
    forall i | 0 <= i < |es'.stack|
      ensures ByteRel(es'.ss[i], es'.stack[i], s'(Cell(es', fr, i)), t'(Cell(es', fr, i)))
    {
      BytesStored(es, fr, s, t, off, v, st, x, y, i);
    }
    forall i | IsSlot(es', fr.slots, i) && AllStackRel(es', i) ensures SlotHolds(es', fr, s', i) {
      SlotAfterStore(es, fr, s, t, off, v, st, x, y, i);
    }
  }

  lemma OwnSlot(es: EState, fr: Frame, mem: Memory, off: nat, v: Word, st: CState, x: Word, y: Word)
    requires es.Valid() && FrameOk(es, fr) && off + 8 <= |es.stack| && ValRel(st, v, x, y, fr.delta)
    requires AllStackRel(WriteStack(es, off, v, st), off)
    ensures SlotHolds(WriteStack(es, off, v, st), fr, Store64(mem, Cell(es, fr, off), x), off)
  {
    hide Store64, Word8, Bytes8;
    var es' := WriteStack(es, off, v, st);
    assert es'.ss[off] == st;
    LoadAfterStore(mem, Cell(es, fr, off), x);
    assert es'.stack[off..off + 8] == Bytes8(v);
  }

  lemma SlotAfterStore(es: EState, fr: Frame, s: Mach, t: Mach, off: nat, v: Word, st: CState, x: Word, y: Word, i: nat)
    requires StateRel(es, fr, s, t) && off + 8 <= |es.stack|
    requires ValRel(st, v, x, y, fr.delta)
    requires st == StackRel ==> IsSlot(es, fr.slots, off)
    requires var es' := WriteStack(es, off, v, st); IsSlot(es', fr.slots, i) && AllStackRel(es', i)
    ensures SlotHolds(WriteStack(es, off, v, st), fr, Store64(s.mem, Cell(es, fr, off), x), i)
  {
    hide SlotHolds, ValRel, Splice, Store64, AllStackRel;
    if i == off {
      OwnSlot(es, fr, s.mem, off, v, st, x, y);
    } else {
      SlotsApart(es, fr, off, v, st, i);
      OtherSlot(es, fr, s.mem, off, v, st, x, i);
    }
  }

  lemma SlotsApart(es: EState, fr: Frame, off: nat, v: Word, st: CState, i: nat)
    requires es.Valid() && SlotsOk(fr.slots) && off + 8 <= |es.stack| && i != off
    requires st == StackRel ==> IsSlot(es, fr.slots, off)
    requires var es' := WriteStack(es, off, v, st); IsSlot(es', fr.slots, i) && AllStackRel(es', i)
    ensures i + 8 <= off || off + 8 <= i
    ensures AllStackRel(es, i)
  {
    var es' := WriteStack(es, off, v, st);
    assert es'.ss[i] == StackRel && es'.ss[i + 7] == StackRel;
    forall k | i <= k < i + 8 ensures es.ss[k] == StackRel { assert es'.ss[k] == StackRel; }
  }

  lemma OtherSlot(es: EState, fr: Frame, mem: Memory, off: nat, v: Word, st: CState, x: Word, i: nat)
    requires es.Valid() && FrameOk(es, fr) && off + 8 <= |es.stack| && i + 8 <= |es.stack|
    requires i + 8 <= off || off + 8 <= i
    requires SlotHolds(es, fr, mem, i)
    ensures SlotHolds(WriteStack(es, off, v, st), fr, Store64(mem, Cell(es, fr, off), x), i)
  {
    var a, b := Cell(es, fr, off), Cell(es, fr, i);
    forall k | b <= k < b + 8 ensures Store64(mem, a, x)(k) == mem(k) { StoreCell(mem, a, x, k); }
    LoadSame(mem, Store64(mem, a, x), b);
    assert WriteStack(es, off, v, st).stack[i..i + 8] == es.stack[i..i + 8];
  }

  lemma RegisterSet(es: EState, fr: Frame, s: Mach, t: Mach, r: Reg, v: Word, st: CState, x: Word, y: Word)
    requires StateRel(es, fr, s, t) && ValRel(st, v, x, y, fr.delta)
    ensures StateRel(es.(reg := es.reg[r := v], rs := es.rs[r := st]), fr,
                     s.(reg := s.reg[r := x]), t.(reg := t.reg[r := y]))
  {
    var es' := es.(reg := es.reg[r := v], rs := es.rs[r := st]);
    assert OutRel(es', fr, s.mem, t.mem) by {
      forall b: Word | !InWindow(es', fr, b) ensures s.mem(b) == t.mem(b) { assert !InWindow(es, fr, b); }
    }
    forall i | IsSlot(es', fr.slots, i) && AllStackRel(es', i) ensures SlotHolds(es', fr, s.mem, i) {
      assert IsSlot(es, fr.slots, i) && AllStackRel(es, i);
      assert SlotHolds(es, fr, s.mem, i);
    }
  }

  // ----- assignment to an operand

  lemma AssignTracked(es: EState, fr: Frame, s: Mach, t: Mach, m: MemRef, v: Word, st: CState, x: Word, y: Word,
                      ip: Word)
    requires StateRel(es, fr, s, t) && SetOp(es, M(m), v, st, ip).Ok?
    requires AddressExact(es, M(m), ip) && StoreExact(es, fr.slots, M(m), st, ip) && Tracked(es, M(m), ip)
    requires ValRel(st, v, x, y, fr.delta)
    ensures StateRel(SetOp(es, M(m), v, st, ip).value, fr,
                     Assign(s, M(m), x, ip), Assign(t, M(FoldMem(es, m, ip)), y, 0))
  {
    hide RegRel, OutRel, StackRelBytes, SlotRel, FoldMem, OpAddr, EffAddr, Store64, ValRel, Splice, Bytes8;
    TrackedAddress(es, fr, s, t, m, ip);
    StoreTracked(es, fr, s, t, OpAddr(es, m, ip).val - es.start, v, st, x, y);
  }

  lemma AssignUntracked(es: EState, fr: Frame, s: Mach, t: Mach, m: MemRef, v: Word, st: CState, x: Word,
                        ip: Word, rd: Word -> Word)
    requires StateRel(es, fr, s, t) && SetOp(es, M(m), v, st, ip).Ok?
    requires AddressExact(es, M(m), ip) && AccessSafe(es, fr, s, M(m), ip, rd) && !Tracked(es, M(m), ip)
    ensures StateRel(SetOp(es, M(m), v, st, ip).value, fr,
                     Assign(s, M(m), x, ip), Assign(t, M(FoldMem(es, m, ip)), x, 0))
  {
    AddressRel(es, fr, s, t, m, ip);
    StoreUntracked(es, fr, s, t, EffAddr(s, m, ip), x);
  }

  /** Both machines assign: the original x, the residual y to the folded operand. */
  lemma AssignBoth(es: EState, fr: Frame, s: Mach, t: Mach, o: Operand, v: Word, st: CState, x: Word, y: Word,
                   ip: Word, rd: Word -> Word)
    requires StateRel(es, fr, s, t) && SetOp(es, o, v, st, ip).Ok?
    requires AddressExact(es, o, ip) && StoreExact(es, fr.slots, o, st, ip) && AccessSafe(es, fr, s, o, ip, rd)
    requires ValRel(st, v, x, y, fr.delta)
    requires !Tracked(es, o, ip) ==> x == y
    ensures StateRel(SetOp(es, o, v, st, ip).value, fr, Assign(s, o, x, ip), Assign(t, Fold(es, o, ip), y, 0))
  {
    if o.R? {
      RegisterSet(es, fr, s, t, o.r, v, st, x, y);
    } else if Tracked(es, o, ip) {
      AssignTracked(es, fr, s, t, o.m, v, st, x, y, ip);
    } else {
      AssignUntracked(es, fr, s, t, o.m, v, st, x, ip, rd);
    }
  }

  /** Two machines with the same registers and the same memory contents. */
  ghost predicate SameMach(a: Mach, b: Mach) {
    a.Valid() && b.Valid() && a.reg == b.reg && forall x: Word :: a.mem(x) == b.mem(x)
  }

  lemma SameRel(es: EState, fr: Frame, s: Mach, t: Mach, t': Mach)
    requires StateRel(es, fr, s, t) && SameMach(t, t')
    ensures StateRel(es, fr, s, t')
  {
    forall i | 0 <= i < |es.stack|
      ensures ByteRel(es.ss[i], es.stack[i], s.mem(Cell(es, fr, i)), t'.mem(Cell(es, fr, i)))
    {
      var x: Word := Cell(es, fr, i);
      assert t.mem(x) == t'.mem(x);
    }
  }

  lemma StoreSame(mem: Memory, a: Word, x: Word)
    ensures Store64(mem, a, Load64(mem, a))(x) == mem(x)
  {
    var k := Wrap(x - a);
    assert Word8(Cells(mem, a)) == Load64(mem, a);
    if k < 8 {
      assert Wrap(a + k) == x;
      BytesOfWord(Cells(mem, a));
    }
  }

  lemma BytesOfWord(s: seq<Byte>)
    requires |s| == 8
    ensures Bytes8(Word8(s)) == s
  {
    BytesOfInverse(s);
  }

  lemma {:induction false} BytesOfInverse(s: seq<Byte>)
    ensures BytesOf(WordOf(s), |s|) == s
  {
    if s != [] {
      BytesOfInverse(s[1..]);
      assert WordOf(s) % 256 == s[0] && WordOf(s) / 256 == WordOf(s[1..]);
    }
  }

  /** Writing back the current content of an operand changes nothing. */
  lemma AssignSame(t: Mach, o: Operand, ip: Word)
    requires t.Valid() && OperandValid(o) && (o.R? || o.M?)
    ensures SameMach(Assign(t, o, Value(t, o, ip), ip), t)
  {
    if o.M? {
      forall x: Word ensures Assign(t, o, Value(t, o, ip), ip).mem(x) == t.mem(x) {
        StoreSame(t.mem, EffAddr(t, o.m, ip), x);
      }
    }
  }

  /** The residual program may leave out a tracked assignment whose value is known or dead. */
  lemma AssignDropped(es: EState, fr: Frame, s: Mach, t: Mach, o: Operand, v: Word, st: CState, x: Word,
                      ip: Word, rd: Word -> Word)
    requires StateRel(es, fr, s, t) && SetOp(es, o, v, st, ip).Ok? && OperandValid(o)
    requires AddressExact(es, o, ip) && Tracked(es, o, ip)
    requires st == Dead || (IsStatic(st) && x == v)
    ensures StateRel(SetOp(es, o, v, st, ip).value, fr, Assign(s, o, x, ip), t)
  {
    var f := Fold(es, o, ip);
    var y := Value(t, f, 0);
    AssignBoth(es, fr, s, t, o, v, st, x, y, ip, rd);
    AssignSame(t, f, 0);
    SameRel(SetOp(es, o, v, st, ip).value, fr, Assign(s, o, x, ip), Assign(t, f, y, 0), t);
  }
}
