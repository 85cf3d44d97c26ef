/** The generator: three passes over the code buffer, which is compacted and patched in place. */
module Generation {
  import opened Machine
  import opened Ledger
  import opened Bytes
  import opened Layout

  /** In pass 2 the first i blocks of the order have moved, the others are where pass 1 put them. */
  ghost predicate Compacting(bs: seq<Block>, g0: seq<Info>, g: seq<Info>, ord: seq<nat>, m: seq<Byte>, a0: int, i: nat)
    requires BlocksOk(bs)
  {
    && InRange(bs, ord) && NoDup(ord) && |g0| == |g| == |bs| && i <= |ord| && Placed1(bs, g0, ord, a0)
    && (forall j :: 0 <= j < |ord| ==> g[ord[j]] == if j < i then Placed(bs, g0, ord, a0, j) else g0[ord[j]])
    && (forall j :: 0 <= j < i ==> Has(m, Start2(bs, g0, ord, a0, j), Flat(bs[ord[j]].code)))
    && (forall j :: i <= j < |ord| ==> Has(m, Start1(bs, a0, ord[..j]), Flat(bs[ord[j]].code)))
  }

  /** Moving block i down clobbers no block that was moved and no block still to be moved. */
  lemma CopyKeeps(bs: seq<Block>, g0: seq<Info>, g: seq<Info>, ord: seq<nat>, m: seq<Byte>, a0: int, i: nat,
                  g': seq<Info>, m': seq<Byte>)
    requires BlocksOk(bs) && Compacting(bs, g0, g, ord, m, a0, i) && i < |ord|
    requires g' == g[ord[i] := Placed(bs, g0, ord, a0, i)]
    requires var p, s := Start2(bs, g0, ord, a0, i), Flat(bs[ord[i]].code);
             Has(m', p, s) && |m'| == |m| && forall x :: 0 <= x < |m| && !(p <= x < p + |s|) ==> m'[x] == m[x]
    ensures Compacting(bs, g0, g', ord, m', a0, i + 1)
  {
    hide Start1, Start2, Flat, Placed, Placed1, Tail, Has;
    var p, s := Start2(bs, g0, ord, a0, i), Flat(bs[ord[i]].code);
    forall j | 0 <= j < |ord|
      ensures j < i ==> Has(m', Start2(bs, g0, ord, a0, j), Flat(bs[ord[j]].code))
      ensures j > i ==> Has(m', Start1(bs, a0, ord[..j]), Flat(bs[ord[j]].code))
    {
      if j < i {
        Shrinks(bs, g0, ord, a0, j, i);
        HasOutside(m, m', Start2(bs, g0, ord, a0, j), Flat(bs[ord[j]].code), p, |s|);
      } else if j > i {
        Shrinks(bs, g0, ord, a0, i, j);
        BelowStart1(bs, g0, ord, a0, i);
        HasOutside(m, m', Start1(bs, a0, ord[..j]), Flat(bs[ord[j]].code), p, |s|);
      }
    }
  }

  lemma BelowStart1(bs: seq<Block>, g: seq<Info>, ord: seq<nat>, a0: int, i: nat)
    requires BlocksOk(bs) && |g| == |bs| && InRange(bs, ord) && i <= |ord|
    ensures a0 <= Start2(bs, g, ord, a0, i) <= Start1(bs, a0, ord[..i])
  {
    Shrinks(bs, g, ord, a0, 0, i);
    assert ord[..0] == [];
  }

  class Generator {
    const blocks: seq<Block>
    const buf: array<Byte>
    var used: nat
    var gen: seq<Info>
    var capStack: seq<nat>
    var genOrder: seq<nat>

    predicate Ready()
      reads this
    {
      && BlocksOk(blocks) && used <= buf.Length < 0x8000_0000 && |gen| == |blocks|
    }

    /** Storage is rounded up to whole pages. */
    constructor (blocks: seq<Block>, size: nat)
      requires BlocksOk(blocks) && size < 0x7FFF_F000
      ensures this.blocks == blocks && Ready() && used == 0 && fresh(buf)
      ensures gen == seq(|blocks|, i => FRESH) && capStack == [] && genOrder == []
      ensures buf.Length % 4096 == 0 && size <= buf.Length < size + 4096
    {
      this.blocks := blocks;
      buf := new Byte[(size + 4095) / 4096 * 4096](i => 0);
      used, gen, capStack, genOrder := 0, seq(|blocks|, i => FRESH), [], [];
    }

    /** Pass 1 for one block: its instructions, one after the other, at the end of the used storage. */
    method Emit(k: nat) returns (ok: bool)
      requires Ready() && k < |blocks|
      modifies this`used, this`gen, buf
      ensures Ready() && used >= old(used)
      ensures ok ==> used == old(used) + Len(blocks[k])
      ensures ok ==> gen == old(gen)[k := old(gen)[k].(size := Len(blocks[k]), addr1 := old(used))]
      ensures ok ==> Has(buf[..], old(used), Flat(blocks[k].code))
      ensures forall p :: 0 <= p < old(used) ==> buf[p] == old(buf[p])
    {
      var a0, code := used, blocks[k].code;
      for i := 0 to |code|
        invariant a0 <= used <= buf.Length && used == a0 + |Flat(code[..i])|
        invariant forall j :: 0 <= j < |Flat(code[..i])| ==> buf[a0 + j] == Flat(code[..i])[j]
        invariant forall p :: 0 <= p < a0 ==> buf[p] == old(buf[p])
        modifies this`used, buf
      {
        if buf.Length - used < 15 { return false; }
        ghost var done := Flat(code[..i]);
        assert code[..i + 1][..i] == code[..i];
        assert Flat(code[..i + 1]) == done + code[i];
        Put(used, code[i]);
        used := used + |code[i]|;
      }
      assert code[..|code|] == code;
      gen := gen[k := gen[k].(size := used - a0, addr1 := a0)];
      ok := true;
    }

    /** Store bytes at p. */
    method Put(p: nat, s: seq<Byte>)
      requires p + |s| <= buf.Length
      modifies buf
      ensures Has(buf[..], p, s)
      ensures forall x :: 0 <= x < buf.Length && !(p <= x < p + |s|) ==> buf[x] == old(buf[x])
    {
      for j := 0 to |s|
        invariant forall x :: 0 <= x < buf.Length ==> buf[x] == if p <= x < p + j then s[x - p] else old(buf[x])
      {
        buf[p + j] := s[j];
      }
    }

    /** Move n bytes down; source and destination may overlap. */
    method CopyDown(src: nat, dst: nat, n: nat)
      requires dst <= src && src + n <= buf.Length
      modifies buf
      ensures Has(buf[..], dst, old(buf[src..src + n]))
      ensures forall x :: 0 <= x < buf.Length && !(dst <= x < dst + n) ==> buf[x] == old(buf[x])
    {
      for j := 0 to n
        invariant forall x :: 0 <= x < buf.Length ==>
          buf[x] == if dst <= x < dst + j then old(buf[src + (x - dst)]) else old(buf[x])
      {
        buf[dst + j] := buf[src + j];
      }
    }

    method Push(k: nat) returns (ok: bool)
      modifies this`capStack
      ensures ok ==> capStack == old(capStack) + [k]
      ensures !ok ==> |capStack| >= CAPSTACK_LEN
    {
      if |capStack| >= CAPSTACK_LEN { return false; }
      capStack := capStack + [k];
      ok := true;
    }

    /** Pass 1: emit the blocks reachable from the first one, depth first, each followed by a hole. */
    method EmitAll() returns (e: Option<GenError>)
      requires Ready() && genOrder == [] && capStack == [0] && gen == seq(|blocks|, i => FRESH)
      modifies this`used, this`gen, this`capStack, this`genOrder, buf
      ensures e == None ==> Ready() && Laid(blocks, gen, genOrder, buf[..], old(used)) && Order(blocks, genOrder)
      ensures e == None ==> InRange(blocks, genOrder) && used == Start1(blocks, old(used), genOrder)
      ensures e == None ==> |genOrder| <= GENORDER_MAX && capStack == []
    {
      hide Laid, Frontier, Start1;
      ghost var a0 := used;
      NothingEmitted(blocks, gen, buf[..], a0);
      while capStack != []
        invariant Ready() && Emitting(blocks, gen, genOrder, capStack, buf[..], a0)
        invariant InRange(blocks, genOrder) && used == Start1(blocks, a0, genOrder) && |genOrder| <= GENORDER_MAX
        decreases GENORDER_MAX - |genOrder|, |capStack|
      {
        e := EmitNext(a0);
        if e.Some? { return; }
      }
      EmptyStackOrder(blocks, gen, genOrder, buf[..], a0);
      e := None;
    }

    /** The block on top of the stack, unless it was emitted before. */
    method EmitNext(ghost a0: nat) returns (e: Option<GenError>)
      requires Ready() && Emitting(blocks, gen, genOrder, capStack, buf[..], a0) && capStack != []
      requires InRange(blocks, genOrder) && used == Start1(blocks, a0, genOrder) && |genOrder| <= GENORDER_MAX
      modifies this`used, this`gen, this`capStack, this`genOrder, buf
      ensures e == None ==> Ready() && Emitting(blocks, gen, genOrder, capStack, buf[..], a0)
      ensures e == None ==> InRange(blocks, genOrder) && used == Start1(blocks, a0, genOrder)
      ensures e == None ==> |genOrder| <= GENORDER_MAX
      ensures e == None ==> |genOrder| > |old(genOrder)| || (genOrder == old(genOrder) && |capStack| < |old(capStack)|)
    {
      hide Emitting, Laid, Frontier, Start1, Has, Flat, BlocksOk, Pushed;
      var k := capStack[|capStack| - 1];
      ghost var stack, m, ord, g := capStack, buf[..], genOrder, gen;
      TopFacts(blocks, gen, genOrder, capStack, buf[..], a0);
      capStack := capStack[..|capStack| - 1];
      if gen[k].size >= 0 {
        SkipKeeps(blocks, gen, genOrder, stack, m, a0);
        return None;
      }
      if |genOrder| >= GENORDER_MAX { return Some(OrderFull); }
      genOrder := genOrder + [k];
      var ok := Emit(k);
      if !ok { return Some(StorageFull); }
      EmitKeeps(blocks, g, ord, stack, m, a0, gen, buf[..]);
      ok := PushSuccessors(k);
      if !ok { return Some(StackFull); }
      if buf.Length - used < HOLE { return Some(StorageFull); }
      used := used + HOLE;
      StartOfNext(blocks, a0, ord, k);
      e := None;
    }

    method PushSuccessors(k: nat) returns (ok: bool)
      requires k < |blocks|
      modifies this`capStack
      ensures ok ==> capStack == Pushed(blocks, old(capStack), k)
    {
      ok := true;
      if blocks[k].end.Branches? {
        ok := Push(blocks[k].end.branch);
        if !ok { return; }
        ok := Push(blocks[k].end.fallThrough);
      }
    }

    /** Pass 2: move the blocks together, decide on the size of jumps. */
    method Compact(a0: nat) returns (end: nat)
      requires Ready() && Laid(blocks, gen, genOrder, buf[..], a0) && Order(blocks, genOrder)
      requires a0 <= Start1(blocks, a0, genOrder) == used
      modifies this`gen, buf
      ensures Ready() && a0 <= end <= used && end == Start2(blocks, old(gen), genOrder, a0, |genOrder|)
      ensures Compacted(blocks, old(gen), gen, genOrder, buf[..], a0)
    {
      hide Compacting, Compacted, Laid, Start1, Start2, Tail, Order;
      ghost var g0 := gen;
      var buf1 := a0;
      NothingMoved(blocks, gen, genOrder, buf[..], a0);
      for i := 0 to |genOrder|
        invariant Ready() && InRange(blocks, genOrder) && |g0| == |blocks| &&
                  buf1 == Start2(blocks, g0, genOrder, a0, i)
        invariant Compacting(blocks, g0, gen, genOrder, buf[..], a0, i)
      {
        buf1 := MoveBlock(i, buf1, g0, a0);
      }
      AllMoved(blocks, g0, gen, genOrder, buf[..], a0, used);
      end := buf1;
    }

    /** Move block i of the order to its final place, return where the next one goes. */
    method MoveBlock(i: nat, buf1: nat, ghost g0: seq<Info>, ghost a0: nat) returns (next: nat)
      requires Ready() && InRange(blocks, genOrder) && Order(blocks, genOrder) && i < |genOrder| && |g0| == |blocks|
      requires buf1 == Start2(blocks, g0, genOrder, a0, i) && Compacting(blocks, g0, gen, genOrder, buf[..], a0, i)
      modifies this`gen, buf
      ensures Ready() && Compacting(blocks, g0, gen, genOrder, buf[..], a0, i + 1)
      ensures next == Start2(blocks, g0, genOrder, a0, i + 1)
    {
      hide Compacting, Has, Start1, Start2, Tail, Flat, Order, BlocksOk;
      ghost var m, g := buf[..], gen;
      BlockFacts(blocks, g0, gen, genOrder, buf[..], a0, i);
      var k := genOrder[i];
      var bb := gen[k];
      var short := ShortJump(i, g0, a0);
      var jump := blocks[k].end.Branches? && !(i + 1 < |genOrder| && genOrder[i + 1] == blocks[k].end.fallThrough);
      gen := gen[k := bb.(addr2 := buf1, genJcc8 := short, genJump := jump)];
      if bb.size > 0 { CopyDown(bb.addr1, buf1, bb.size); }
      Moved(m, buf[..], bb.addr1, buf1, Flat(blocks[k].code));
      CopyKeeps(blocks, g0, g, genOrder, m, a0, i, gen, buf[..]);
      NextStart2(blocks, g0, genOrder, a0, i);
      next := buf1 + bb.size;
      if blocks[k].end.Branches? { next := next + if short then 2 else 6; }
      if jump { next := next + 5; }
    }

    /** Whether the distance of pass 1 allows a short jump. */
    method ShortJump(i: nat, ghost g0: seq<Info>, ghost a0: nat) returns (short: bool)
      requires Ready() && InRange(blocks, genOrder) && Order(blocks, genOrder) && i < |genOrder| && |g0| == |blocks|
      requires Compacting(blocks, g0, gen, genOrder, buf[..], a0, i)
      ensures short == Short(blocks, g0, genOrder[i])
    {
      hide Compacting, Order, Flat;
      var k := genOrder[i];
      short := false;
      if blocks[k].end.Branches? {
        BlockFacts(blocks, g0, gen, genOrder, buf[..], a0, i);
        BranchAddress(blocks, g0, gen, genOrder, buf[..], a0, i);
        var diff := gen[blocks[k].end.branch].addr1 - (gen[k].addr1 + gen[k].size);
        short := -120 < diff < 120;
      }
    }

    /** Pass 3: fill in the jumps. */
    method Patch(ghost g: seq<Info>, ghost a0: nat)
      requires Ready() && Compacted(blocks, g, gen, genOrder, buf[..], a0)
      modifies buf
      ensures Ready() && Patched(blocks, g, gen, genOrder, buf[..], a0, |genOrder|)
    {
      hide Patched, Order, Start2, Tail;
      NothingPatched(blocks, g, gen, genOrder, buf[..], a0);
      for i := 0 to |genOrder|
        invariant Patched(blocks, g, gen, genOrder, buf[..], a0, i)
      {
        PatchBlock(i, g, a0);
      }
    }

    method PatchBlock(i: nat, ghost g: seq<Info>, ghost a0: nat)
      requires Ready() && Patched(blocks, g, gen, genOrder, buf[..], a0, i) && i < |genOrder|
      modifies buf
      ensures Patched(blocks, g, gen, genOrder, buf[..], a0, i + 1)
    {
      hide Patched, Has, Start2, Tail, Flat, Order, Short, Apart, JccBytes, JmpBytes, TailBytes, BlocksOk;
      ghost var m := buf[..];
      PatchFacts(blocks, g, gen, genOrder, buf[..], a0, i);
      var k := genOrder[i];
      var bb := gen[k];
      if blocks[k].end.Branches? {
        var e, p := blocks[k].end, bb.addr2 + bb.size;
        var q := p + if bb.genJcc8 then 2 else 6;
        Put(p, JccBytes(e.cond, bb.genJcc8, gen[e.branch].addr2 - q));
        ghost var m1 := buf[..];
        if bb.genJump { Put(q, JmpBytes(gen[e.fallThrough].addr2 - (q + 5))); }
        TailWritten(blocks, gen, k, m, m1, buf[..]);
      } else {
        NothingWritten(blocks, gen, k, buf[..]);
      }
      PatchKeeps(blocks, g, gen, genOrder, m, buf[..], a0, i);
    }

    /** Binary code of all reachable blocks. The first array slot behind the order is needed as its end. */
    method GenerateBinary() returns (e: Option<GenError>, addr: nat, size: nat)
      requires Ready() && genOrder == [] && capStack == [] && gen == seq(|blocks|, i => FRESH)
      modifies this`used, this`gen, this`capStack, this`genOrder, buf
      ensures e == None ==> Ready() && Order(blocks, genOrder)
      ensures e == None ==> forall k: nat :: Reachable(blocks, k) ==>
        k < |blocks| && Has(buf[..], gen[k].addr2, Flat(blocks[k].code)) && Linked(blocks, buf[..], gen, k)
      ensures e == None ==> addr % CACHELINE == 0 && addr == gen[0].addr2 && addr + size == used
      ensures e == None ==> forall k: nat :: Reachable(blocks, k) ==>
        addr <= gen[k].addr2 <= gen[k].addr1 && gen[k].addr2 + Len(blocks[k]) <= used
    {
      hide Order, Laid, Has, Linked, Start1, Start2, Compacted, Patched, Reachable;
      addr, size := 0, 0;
      var off := used % CACHELINE;
      if off > 0 {
        if buf.Length - used < CACHELINE - off { return Some(StorageFull), 0, 0; }
        used := used + CACHELINE - off;
      }
      var a0 := used;
      capStack := [0];
      e := EmitAll();
      if e.Some? { return; }
      if |genOrder| == GENORDER_MAX { return Some(OrderFull), 0, 0; }
      ghost var g := gen;
      StartsAbove(blocks, a0, genOrder);
      var end := Compact(a0);
      Patch(g, a0);
      AllLinked(blocks, g, gen, genOrder, buf[..], a0);
      used := end;
      addr, size := a0, end - a0;
    }
  }

  lemma TopFacts(bs: seq<Block>, g: seq<Info>, ord: seq<nat>, stack: seq<nat>, m: seq<Byte>, a0: int)
    requires Emitting(bs, g, ord, stack, m, a0) && stack != []
    ensures var k := stack[|stack| - 1]; k < |bs| == |g| && (g[k].size >= 0 <==> k in ord) && InRange(bs, ord)
    ensures InRange(bs, stack)
  {
    hide Reachable, Placed1;
  }

  lemma StartOfNext(bs: seq<Block>, a0: int, ord: seq<nat>, k: nat)
    requires InRange(bs, ord) && k < |bs|
    ensures InRange(bs, ord + [k]) && Start1(bs, a0, ord + [k]) == Start1(bs, a0, ord) + Len(bs[k]) + HOLE
  {
    assert (ord + [k])[..|ord|] == ord;
  }

  lemma {:induction false} StartsAbove(bs: seq<Block>, a0: int, ord: seq<nat>)
    requires InRange(bs, ord)
    ensures a0 <= Start1(bs, a0, ord)
    decreases |ord|
  {
    if ord != [] { StartsAbove(bs, a0, ord[..|ord| - 1]); }
  }

  /** Block i of the order, when it is about to be moved. */
  lemma BlockFacts(bs: seq<Block>, g0: seq<Info>, g: seq<Info>, ord: seq<nat>, m: seq<Byte>, a0: int, i: nat)
    requires BlocksOk(bs) && Compacting(bs, g0, g, ord, m, a0, i) && i < |ord| && 0 <= a0
    ensures InRange(bs, ord) && |g0| == |g| == |bs|
    ensures var k := ord[i];
            && g[k] == g0[k] && g[k].size == Len(bs[k]) && Has(m, g[k].addr1, Flat(bs[k].code))
            && 0 <= Start2(bs, g0, ord, a0, i) <= g[k].addr1
  {
    BelowStart1(bs, g0, ord, a0, i);
  }

  lemma BranchAddress(bs: seq<Block>, g0: seq<Info>, g: seq<Info>, ord: seq<nat>, m: seq<Byte>, a0: int, i: nat)
    requires BlocksOk(bs) && Compacting(bs, g0, g, ord, m, a0, i) && i < |ord| && Order(bs, ord)
    requires bs[ord[i]].end.Branches?
    ensures g[bs[ord[i]].end.branch].addr1 == g0[bs[ord[i]].end.branch].addr1
  {
    hide Has, Start2, Start1;
    var k := bs[ord[i]].end.branch;
    assert ord[i] in ord && Edge(bs, ord[i], k);
    ReachableStep(bs, ord[i], k);
    var j :| 0 <= j < |ord| && ord[j] == k;
  }

  lemma Moved(m: seq<Byte>, m': seq<Byte>, src: int, dst: int, s: seq<Byte>)
    requires Has(m, src, s) && 0 <= dst <= src && |m'| == |m|
    requires s == [] ==> m' == m
    requires s != [] ==> Has(m', dst, m[src..src + |s|])
    ensures Has(m', dst, s)
  {
    if s != [] { assert m[src..src + |s|] == s; }
  }

  lemma NextStart2(bs: seq<Block>, g: seq<Info>, ord: seq<nat>, a0: int, i: nat)
    requires BlocksOk(bs) && |g| == |bs| && InRange(bs, ord) && i < |ord|
    ensures Start2(bs, g, ord, a0, i + 1) ==
            Start2(bs, g, ord, a0, i) + Len(bs[ord[i]])
            + (if !bs[ord[i]].end.Branches? then 0 else if Short(bs, g, ord[i]) then 2 else 6)
            + (if Apart(bs, ord, i) then 5 else 0)
  {}

  lemma PatchFacts(bs: seq<Block>, g: seq<Info>, g': seq<Info>, ord: seq<nat>, m: seq<Byte>, a0: int, i: nat)
    requires BlocksOk(bs) && Patched(bs, g, g', ord, m, a0, i) && i < |ord|
    ensures InRange(bs, ord) && |g| == |g'| == |bs|
    ensures bs[ord[i]].end.Branches? ==> bs[ord[i]].end.branch < |bs| && bs[ord[i]].end.fallThrough < |bs|
    ensures var b := g'[ord[i]];
            && b.size == Len(bs[ord[i]]) && b.addr2 == Start2(bs, g, ord, a0, i)
            && 0 <= b.addr2 && b.addr2 + b.size <= |m|
            && (bs[ord[i]].end.Branches? ==>
                  b.addr2 + b.size + (if b.genJcc8 then 2 else 6) + (if b.genJump then 5 else 0) <= |m|)
  {
    hide Has, Order, Short, Apart, Flat;
    assert g'[ord[i]] == Placed(bs, g, ord, a0, i);
    Shrinks(bs, g, ord, a0, 0, i);
    Shrinks(bs, g, ord, a0, i, |ord|);
  }

  lemma TailWritten(bs: seq<Block>, g: seq<Info>, k: nat, m: seq<Byte>, m1: seq<Byte>, m2: seq<Byte>)
    requires BlocksOk(bs) && |g| == |bs| && k < |bs| && bs[k].end.Branches? && |m| == |m1| == |m2|
    requires bs[k].end.branch < |bs| && bs[k].end.fallThrough < |bs|
    requires var e, p := bs[k].end, g[k].addr2 + g[k].size;
             var q := p + if g[k].genJcc8 then 2 else 6;
             && Has(m1, p, JccBytes(e.cond, g[k].genJcc8, g[e.branch].addr2 - q))
             && (forall x :: 0 <= x < |m| && !(p <= x < q) ==> m1[x] == m[x])
             && (if g[k].genJump then
                   Has(m2, q, JmpBytes(g[e.fallThrough].addr2 - (q + 5)))
                   && forall x :: 0 <= x < |m| && !(q <= x < q + 5) ==> m2[x] == m1[x]
                 else m2 == m1)
    ensures var p := g[k].addr2 + g[k].size;
            && Has(m2, p, TailBytes(bs, g, k))
            && forall x :: 0 <= x < |m| && !(p <= x < p + |TailBytes(bs, g, k)|) ==> m2[x] == m[x]
  {
    hide JccBytes, JmpBytes, BlocksOk, Has;
    var e, p := bs[k].end, g[k].addr2 + g[k].size;
    var q := p + if g[k].genJcc8 then 2 else 6;
    var jcc := JccBytes(e.cond, g[k].genJcc8, g[e.branch].addr2 - q);
    if g[k].genJump {
      var jmp := JmpBytes(g[e.fallThrough].addr2 - (q + 5));
      assert TailBytes(bs, g, k) == jcc + jmp;
      HasConcat(m1, m2, p, jcc, jmp);
    } else {
      assert TailBytes(bs, g, k) == jcc + [] == jcc;
    }
  }

  lemma NothingWritten(bs: seq<Block>, g: seq<Info>, k: nat, m: seq<Byte>)
    requires BlocksOk(bs) && |g| == |bs| && k < |bs| && !bs[k].end.Branches? && 0 <= g[k].addr2 + g[k].size <= |m|
    ensures TailBytes(bs, g, k) == [] && Has(m, g[k].addr2 + g[k].size, [])
  {}

  lemma NothingPatched(bs: seq<Block>, g: seq<Info>, g': seq<Info>, ord: seq<nat>, m: seq<Byte>, a0: int)
    requires BlocksOk(bs) && Compacted(bs, g, g', ord, m, a0)
    ensures Patched(bs, g, g', ord, m, a0, 0)
  {
    hide Compacted;
  }

  lemma NothingEmitted(bs: seq<Block>, g: seq<Info>, m: seq<Byte>, a0: int)
    requires g == seq(|bs|, i => FRESH) && |bs| > 0
    ensures Emitting(bs, g, [], [0], m, a0) && Start1(bs, a0, []) == a0
  {
    ReachableRoot(bs);
  }

  lemma NothingMoved(bs: seq<Block>, g: seq<Info>, ord: seq<nat>, m: seq<Byte>, a0: int)
    requires BlocksOk(bs) && Laid(bs, g, ord, m, a0)
    ensures InRange(bs, ord) && |g| == |bs| && Start2(bs, g, ord, a0, 0) == a0 && Compacting(bs, g, g, ord, m, a0, 0)
  {}

  lemma AllMoved(bs: seq<Block>, g0: seq<Info>, g: seq<Info>, ord: seq<nat>, m: seq<Byte>, a0: int, used: int)
    requires BlocksOk(bs) && Compacting(bs, g0, g, ord, m, a0, |ord|) && Order(bs, ord)
    requires used == Start1(bs, a0, ord) <= |m| < 0x8000_0000 && 0 <= a0
    ensures Compacted(bs, g0, g, ord, m, a0) && a0 <= Start2(bs, g0, ord, a0, |ord|) <= used
  {
    hide Order, Has, Start1, Start2, Placed1;
    BelowStart1(bs, g0, ord, a0, |ord|);
    assert ord[..|ord|] == ord;
  }

  /** After pass 3 every reachable block is in place, unchanged, and linked to its successors. */
  lemma AllLinked(bs: seq<Block>, g: seq<Info>, g': seq<Info>, ord: seq<nat>, m: seq<Byte>, a0: int)
    requires BlocksOk(bs) && Patched(bs, g, g', ord, m, a0, |ord|)
    ensures forall k: nat :: Reachable(bs, k) ==>
              k < |bs| && Has(m, g'[k].addr2, Flat(bs[k].code)) && Linked(bs, m, g', k)
              && a0 <= g'[k].addr2 <= g'[k].addr1 && g'[k].addr2 + Len(bs[k]) <= Start2(bs, g, ord, a0, |ord|)
    ensures g'[0].addr2 == a0
  {
    hide Has, Linked, Start1, Start2, Tail, Flat, Short, Apart, TailBytes, Reachable;
    forall k: nat | Reachable(bs, k)
      ensures k < |bs| && Has(m, g'[k].addr2, Flat(bs[k].code)) && Linked(bs, m, g', k)
              && a0 <= g'[k].addr2 <= g'[k].addr1 && g'[k].addr2 + Len(bs[k]) <= Start2(bs, g, ord, a0, |ord|)
    {
      var i :| 0 <= i < |ord| && ord[i] == k;
      assert g'[ord[i]] == Placed(bs, g, ord, a0, i);
      PatchedLinks(bs, g, g', ord, m, a0, i);
      BelowStart1(bs, g, ord, a0, i);
      Shrinks(bs, g, ord, a0, i, |ord|);
    }
    assert g'[ord[0]] == Placed(bs, g, ord, a0, 0);
    StartsAtA0(bs, g, ord, a0);
  }

  lemma StartsAtA0(bs: seq<Block>, g: seq<Info>, ord: seq<nat>, a0: int)
    requires BlocksOk(bs) && |g| == |bs| && InRange(bs, ord)
    ensures Start2(bs, g, ord, a0, 0) == a0
  {}
}
