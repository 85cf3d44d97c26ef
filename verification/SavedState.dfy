/** Saving, comparing and restoring emulator states. */
module SavedState {
  import opened Machine
  import opened Emulator
  import opened Relation
  import opened Access

  // ----- comparison

  function Norm(c: CState): CState { if c == Static2 then Static else c }

  /** parents: the states stem from the same rewriting action. */
  predicate CsIsEqual(sameParent: bool, s1: CState, v1: int, s2: CState, v2: int) {
    Norm(s1) == Norm(s2) &&
    match Norm(s1)
    case Static => v1 == v2
    case StackRel => sameParent && v1 == v2
    case _ => true
  }

  function BoolVal(b: bool): int { if b then 1 else 0 }

  predicate FlagsEqual(p: bool, f: FlagStates, x: Flags, g: FlagStates, y: Flags) {
    && CsIsEqual(p, f.cf, BoolVal(x.cf), g.cf, BoolVal(y.cf))
    && CsIsEqual(p, f.zf, BoolVal(x.zf), g.zf, BoolVal(y.zf))
    && CsIsEqual(p, f.sf, BoolVal(x.sf), g.sf, BoolVal(y.sf))
    && CsIsEqual(p, f.of, BoolVal(x.of), g.of, BoolVal(y.of))
  }

  /** Byte i of the shorter stack is byte i + diff of the longer one. */
  predicate StacksEqual(p: bool, lo: EState, hi: EState)
    requires lo.Valid() && hi.Valid() && |lo.stack| <= |hi.stack|
  {
    var diff := |hi.stack| - |lo.stack|;
    && (forall i :: 0 <= i < diff ==> !IsStatic(hi.ss[i]))
    && (forall i :: 0 <= i < |lo.stack| ==>
          CsIsEqual(p, lo.ss[i], lo.stack[i], hi.ss[i + diff], hi.stack[i + diff]))
  }

  predicate EsIsEqual(e1: EState, e2: EState)
    requires e1.Valid() && e2.Valid()
  {
    var p := e1.parent == e2.parent;
    && (forall r :: 0 <= r < 16 ==> CsIsEqual(p, e1.rs[r], e1.reg[r], e2.rs[r], e2.reg[r]))
    && FlagsEqual(p, e1.fs, e1.flags, e2.fs, e2.flags)
    && |e1.ret| == |e2.ret|
    && (if |e1.stack| < |e2.stack| then StacksEqual(p, e1, e2) else StacksEqual(p, e2, e1))
  }

  // ----- copying

  /** Copy of src with room for n stack bytes; the added bottom is dead, a dropped bottom must be untouched. */
  function CopyState(n: nat, src: EState): (dst: EState)
    requires src.Valid() && n <= src.Top()
    requires src.Top() - src.accessed <= n
    ensures dst.Valid() && |dst.stack| == n && dst.Top() == src.Top()
  {
    var size := |src.stack|;
    if size < n then
      var diff := n - size;
      src.(start := src.start - diff,
           stack := seq(diff, i => 0) + src.stack,
           ss := seq(diff, i => Dead) + src.ss)
    else
      var diff := size - n;
      src.(start := src.start + diff, stack := src.stack[diff..], ss := src.ss[diff..])
  }

  /** Only the accessed part of the stack is kept; live is the identity of the copied state. */
  function Clone(src: EState, live: nat): (dst: EState)
    requires src.Valid()
    ensures dst.Valid() && dst.Top() == src.Top()
  {
    CopyState(src.Top() - src.accessed, src).(parent := live)
  }

  /** Saving and restoring gives back everything: registers, flags, call stack and every stack byte that
      was ever written, although the saved state is smaller. */
  lemma RestoreExact(es: EState, live: nat)
    requires es.Valid() && es.Top() >= |es.stack|
    ensures var r := CopyState(|es.stack|, Clone(es, live));
            && r.reg == es.reg && r.rs == es.rs && r.flags == es.flags && r.fs == es.fs && r.ret == es.ret
            && r.start == es.start && r.accessed == es.accessed && r.ss == es.ss
            && (forall i :: es.accessed - es.start <= i < |es.stack| ==> r.stack[i] == es.stack[i])
            && (forall i :: 0 <= i < es.accessed - es.start ==> es.ss[i] == Dead)
  {
    var r := CopyState(|es.stack|, Clone(es, live));
    assert |Clone(es, live).stack| == es.Top() - es.accessed;
    forall i | 0 <= i < |es.ss| ensures r.ss[i] == es.ss[i] {}
    assert r.ss == es.ss;
  }

  // ----- what saved states describe

  predicate CsRefines(s1: CState, v1: int, s2: CState, v2: int) {
    s2 == Dead ||
    (Norm(s1) == Norm(s2) && (IsStatic(s1) || s1 == StackRel ==> v1 == v2))
  }

  /** Every pair of machines described by e1 is described by e2. */
  predicate Refines(e1: EState, e2: EState)
    requires e1.Valid() && e2.Valid()
  {
    && e1.Top() == e2.Top()
    && (forall r :: 0 <= r < 16 ==> CsRefines(e1.rs[r], e1.reg[r], e2.rs[r], e2.reg[r]))
    && CsRefines(e1.fs.cf, BoolVal(e1.flags.cf), e2.fs.cf, BoolVal(e2.flags.cf))
    && CsRefines(e1.fs.zf, BoolVal(e1.flags.zf), e2.fs.zf, BoolVal(e2.flags.zf))
    && CsRefines(e1.fs.sf, BoolVal(e1.flags.sf), e2.fs.sf, BoolVal(e2.flags.sf))
    && CsRefines(e1.fs.of, BoolVal(e1.flags.of), e2.fs.of, BoolVal(e2.flags.of))
    && (forall i :: 0 <= i < |e2.stack| ==> ByteRefines(e1, e2, i))
  }

  predicate ByteRefines(e1: EState, e2: EState, i: int)
    requires e1.Valid() && e2.Valid() && 0 <= i < |e2.stack|
  {
    var j := i + |e1.stack| - |e2.stack|;
    if j < 0 then e2.ss[i] == Dead
    else CsRefines(e1.ss[j], e1.stack[j], e2.ss[i], e2.stack[i])
  }

  lemma RefinesRel(e1: EState, e2: EState, fr: Frame, s: Mach, t: Mach)
    requires StateRel(e1, fr, s, t) && e2.Valid() && Refines(e1, e2) && |e2.stack| <= fr.size
    ensures StateRel(e2, fr, s, t)
    ensures FlagRel(e1, s.flags, t.flags) ==> FlagRel(e2, s.flags, t.flags)
  {
    assert forall a :: InWindow(e2, fr, a) == InWindow(e1, fr, a);
    forall r | 0 <= r < 16 ensures ValRel(e2.rs[r], e2.reg[r], s.reg[r], t.reg[r], fr.delta) {
      assert ValRel(e1.rs[r], e1.reg[r], s.reg[r], t.reg[r], fr.delta);
    }
    var d := |e1.stack| - |e2.stack|;
    forall i | 0 <= i < |e2.stack|
      ensures ByteRel(e2.ss[i], e2.stack[i], s.mem(Cell(e2, fr, i)), t.mem(Cell(e2, fr, i)))
    {
      assert ByteRefines(e1, e2, i);
      if i + d >= 0 {
        assert Cell(e1, fr, i + d) == Cell(e2, fr, i);
        assert ByteRel(e1.ss[i + d], e1.stack[i + d], s.mem(Cell(e1, fr, i + d)), t.mem(Cell(e1, fr, i + d)));
      }
    }
    forall i | IsSlot(e2, fr.slots, i) && AllStackRel(e2, i) ensures SlotHolds(e2, fr, s.mem, i) {
      SlotRefines(e1, e2, fr, s.mem, i);
    }
  }

  lemma SlotRefines(e1: EState, e2: EState, fr: Frame, mem: Memory, i: int)
    requires e1.Valid() && e2.Valid() && Refines(e1, e2) && FrameOk(e1, fr) && FrameOk(e2, fr) && SlotRel(e1, fr, mem)
    requires IsSlot(e2, fr.slots, i) && AllStackRel(e2, i)
    ensures SlotHolds(e2, fr, mem, i)
  {
    var d := |e1.stack| - |e2.stack|;
    assert e2.ss[i] == StackRel && ByteRefines(e1, e2, i);
    forall k | i + d <= k < i + d + 8 ensures e1.ss[k] == StackRel && e1.stack[k] == e2.stack[k - d] {
      assert e2.ss[k - d] == StackRel && ByteRefines(e1, e2, k - d);
    }
    assert AllStackRel(e1, i + d);
    assert SlotHolds(e1, fr, mem, i + d);
    assert e1.stack[i + d..i + d + 8] == e2.stack[i..i + 8];
  }

  /** Equal states: the compared one describes no more than the saved one, whatever the stack sizes. */
  lemma EqualRefines(e1: EState, e2: EState)
    requires e1.Valid() && e2.Valid() && EsIsEqual(e1, e2) && e1.Top() == e2.Top()
    requires forall i :: 0 <= i < |e2.stack| - |e1.stack| ==> e2.ss[i] == Dead
    ensures Refines(e1, e2)
  {
    var p := e1.parent == e2.parent;
    forall i | 0 <= i < |e2.stack| ensures ByteRefines(e1, e2, i) {
      var j := i + |e1.stack| - |e2.stack|;
      if |e1.stack| < |e2.stack| {
        if j >= 0 {
          assert CsIsEqual(p, e1.ss[j], e1.stack[j],
                           e2.ss[j + (|e2.stack| - |e1.stack|)], e2.stack[j + (|e2.stack| - |e1.stack|)]);
        }
      } else {
        assert CsIsEqual(p, e2.ss[i], e2.stack[i],
                         e1.ss[i + (|e1.stack| - |e2.stack|)], e1.stack[i + (|e1.stack| - |e2.stack|)]);
      }
    }
  }

  /** Restored from the saved copy, a state describes exactly the machines it described when saved. */
  lemma CloneRefines(es: EState, live: nat)
    requires es.Valid()
    ensures Refines(es, Clone(es, live)) && Refines(Clone(es, live), es)
  {
    var c := Clone(es, live);
    forall i | 0 <= i < |c.stack| ensures ByteRefines(es, c, i) {}
    forall i | 0 <= i < |es.stack| ensures ByteRefines(c, es, i) {}
  }

  lemma CopyRefines(n: nat, src: EState)
    requires src.Valid() && n <= src.Top() && src.Top() - src.accessed <= n
    ensures Refines(src, CopyState(n, src)) && Refines(CopyState(n, src), src)
  {
    var c := CopyState(n, src);
    forall i | 0 <= i < |c.stack| ensures ByteRefines(src, c, i) {}
    forall i | 0 <= i < |src.stack| ensures ByteRefines(c, src, i) {}
  }

  /** The bottom that only the longer stack has is dead. */
  predicate DeadBottom(lo: EState, hi: EState) {
    forall i :: 0 <= i < |hi.ss| - |lo.ss| ==> hi.ss[i] == Dead
  }

  /** Two states that compare equal describe the same machines exactly if the bottom that only one of them has is dead,
      where comparison also accepts an unknown one. */
  lemma EqualDescribesSame(e1: EState, e2: EState, fr: Frame, s: Mach, t: Mach)
    requires e1.Valid() && e2.Valid() && EsIsEqual(e1, e2) && e1.Top() == e2.Top()
    requires |e1.stack| <= fr.size && |e2.stack| <= fr.size
    requires StateRel(e1, fr, s, t) && StateRel(e2, fr, s, t)
    ensures DeadBottom(e1, e2) && DeadBottom(e2, e1) <==>
            forall x: Mach, y: Mach :: StateRel(e1, fr, x, y) <==> StateRel(e2, fr, x, y)
  {
    EqualSymmetric(e1, e2);
    if DeadBottom(e1, e2) && DeadBottom(e2, e1) {
      EqualRefines(e1, e2);
      EqualRefines(e2, e1);
      forall x: Mach, y: Mach ensures StateRel(e1, fr, x, y) <==> StateRel(e2, fr, x, y) {
        hide StateRel, Refines;
        if StateRel(e1, fr, x, y) { RefinesRel(e1, e2, fr, x, y); }
        if StateRel(e2, fr, x, y) { RefinesRel(e2, e1, fr, x, y); }
      }
    } else if !DeadBottom(e1, e2) {
      BottomMatters(e1, e2, fr, s, t);
    } else {
      BottomMatters(e2, e1, fr, s, t);
    }
  }

  /** A byte below the shorter stack is described only by the longer one. */
  lemma BottomMatters(lo: EState, hi: EState, fr: Frame, s: Mach, t: Mach)
    requires lo.Valid() && hi.Valid() && EsIsEqual(lo, hi) && lo.Top() == hi.Top() && !DeadBottom(lo, hi)
    requires StateRel(lo, fr, s, t) && StateRel(hi, fr, s, t)
    ensures exists y: Mach :: StateRel(lo, fr, s, y) && !StateRel(hi, fr, s, y)
  {
    var i :| 0 <= i < |hi.ss| - |lo.ss| && hi.ss[i] != Dead;
    assert StacksEqual(lo.parent == hi.parent, lo, hi) && !IsStatic(hi.ss[i]);
    var a := Cell(hi, fr, i);
    var b: Byte := (s.mem(a) as int + 1) % 256;
    var y := t.(mem := (x: int) => if x == a then b else t.mem(x));
    assert InWindow(lo, fr, a);
    forall j | 0 <= j < |lo.stack|
      ensures ByteRel(lo.ss[j], lo.stack[j], s.mem(Cell(lo, fr, j)), y.mem(Cell(lo, fr, j)))
    {
      assert ByteRel(lo.ss[j], lo.stack[j], s.mem(Cell(lo, fr, j)), t.mem(Cell(lo, fr, j)));
    }
    assert OutRel(lo, fr, s.mem, y.mem);
    assert StateRel(lo, fr, s, y);
    assert !ByteRel(hi.ss[i], hi.stack[i], s.mem(a), y.mem(a));
  }

  lemma EqualSymmetric(e1: EState, e2: EState)
    requires e1.Valid() && e2.Valid() && EsIsEqual(e1, e2)
    ensures EsIsEqual(e2, e1)
  {
    var p := e1.parent == e2.parent;
    forall r | 0 <= r < 16 ensures CsIsEqual(p, e2.rs[r], e2.reg[r], e1.rs[r], e1.reg[r]) {
      assert CsIsEqual(p, e1.rs[r], e1.reg[r], e2.rs[r], e2.reg[r]);
    }
    if |e1.stack| == |e2.stack| {
      forall i | 0 <= i < |e1.stack| ensures CsIsEqual(p, e1.ss[i], e1.stack[i], e2.ss[i + 0], e2.stack[i + 0]) {
        assert CsIsEqual(p, e2.ss[i], e2.stack[i], e1.ss[i + 0], e1.stack[i + 0]);
      }
      assert StacksEqual(p, e1, e2);
    }
  }
}
