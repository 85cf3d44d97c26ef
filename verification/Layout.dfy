/** Code layout in three passes: emit blocks with holes, compact them in place, patch in the jumps. */
module Layout {
  import opened Machine
  import opened Ledger
  import opened Bytes

  const GENORDER_MAX := 20
  const CAPSTACK_LEN := 20
  const HOLE := 26
  const CACHELINE := 64

  /** What was captured: encoded instructions and the end of the block. */
  datatype Block = Block(code: seq<seq<Byte>>, end: End)

  /** What the generator remembers of a block; size -1 as long as it was not emitted. */
  datatype Info = Info(size: int, addr1: int, addr2: int, genJcc8: bool, genJump: bool)

  datatype GenError = StorageFull | StackFull | OrderFull

  function Flat(code: seq<seq<Byte>>): seq<Byte> {
    if code == [] then [] else Flat(code[..|code| - 1]) + code[|code| - 1]
  }

  function Len(b: Block): nat { |Flat(b.code)| }

  predicate BlocksOk(bs: seq<Block>) {
    && |bs| > 0
    && (forall k, i :: 0 <= k < |bs| && 0 <= i < |bs[k].code| ==> |bs[k].code[i]| < 15)
    && (forall k :: 0 <= k < |bs| && bs[k].end.Branches? ==> bs[k].end.branch < |bs| && bs[k].end.fallThrough < |bs|)
  }

  // ----- the graph

  predicate Edge(bs: seq<Block>, j: nat, k: nat) {
    j < |bs| && k < |bs| && bs[j].end.Branches? && (k == bs[j].end.branch || k == bs[j].end.fallThrough)
  }

  predicate IsPath(bs: seq<Block>, p: seq<nat>) {
    && |p| > 0 && p[0] == 0
    && forall i :: 0 < i < |p| ==> Edge(bs, p[i - 1], p[i])
  }

  ghost predicate Reachable(bs: seq<Block>, k: nat) {
    exists p: seq<nat> :: IsPath(bs, p) && p[|p| - 1] == k
  }

  lemma ReachableStep(bs: seq<Block>, j: nat, k: nat)
    requires Reachable(bs, j) && Edge(bs, j, k)
    ensures Reachable(bs, k)
  {
    var p: seq<nat> :| IsPath(bs, p) && p[|p| - 1] == j;
    var q := p + [k];
    forall i | 0 < i < |q| ensures Edge(bs, q[i - 1], q[i]) {
      if i < |p| { assert Edge(bs, p[i - 1], p[i]); }
    }
    assert IsPath(bs, q) && q[|q| - 1] == k;
  }

  lemma ReachableRoot(bs: seq<Block>)
    ensures Reachable(bs, 0)
  {
    var p: seq<nat> := [0];
    assert IsPath(bs, p) && p[|p| - 1] == 0;
  }

  ghost predicate Closed(bs: seq<Block>, ord: seq<nat>) {
    forall j, k :: j in ord && Edge(bs, j, k) ==> k in ord
  }

  /** A list closed under edges that has the root has all reachable blocks. */
  lemma {:induction false} ClosedHasPath(bs: seq<Block>, ord: seq<nat>, p: seq<nat>)
    requires Closed(bs, ord) && 0 in ord && IsPath(bs, p)
    ensures p[|p| - 1] in ord
    decreases |p|
  {
    if |p| > 1 {
      var q := p[..|p| - 1];
      forall i | 0 < i < |q| ensures Edge(bs, q[i - 1], q[i]) { assert Edge(bs, p[i - 1], p[i]); }
      ClosedHasPath(bs, ord, q);
      assert Edge(bs, p[|p| - 2], p[|p| - 1]);
    }
  }

  predicate NoDup(ord: seq<nat>) { forall i, j :: 0 <= i < j < |ord| ==> ord[i] != ord[j] }

  predicate InRange(bs: seq<Block>, ord: seq<nat>) { forall i :: 0 <= i < |ord| ==> ord[i] < |bs| }

  /** Every reachable block occurs once, and no other. */
  ghost predicate Order(bs: seq<Block>, ord: seq<nat>) {
    && NoDup(ord) && InRange(bs, ord) && |ord| > 0 && ord[0] == 0
    && forall k: nat :: k in ord <==> Reachable(bs, k)
  }

  // ----- addresses

  /** Where the block after pre starts in pass 1. */
  function Start1(bs: seq<Block>, a0: int, pre: seq<nat>): int
    requires InRange(bs, pre)
  {
    if pre == [] then a0 else Start1(bs, a0, pre[..|pre| - 1]) + Len(bs[pre[|pre| - 1]]) + HOLE
  }

  predicate Short(bs: seq<Block>, g: seq<Info>, k: nat)
    requires k < |bs| == |g| && BlocksOk(bs)
  {
    bs[k].end.Branches? && -120 < g[bs[k].end.branch].addr1 - (g[k].addr1 + Len(bs[k])) < 120
  }

  /** The fall-through successor does not follow in the order. */
  predicate Apart(bs: seq<Block>, ord: seq<nat>, i: nat)
    requires i < |ord| && ord[i] < |bs|
  {
    bs[ord[i]].end.Branches? && !(i + 1 < |ord| && ord[i + 1] == bs[ord[i]].end.fallThrough)
  }

  /** Bytes of the jumps behind block i of the order. */
  function Tail(bs: seq<Block>, g: seq<Info>, ord: seq<nat>, i: nat): (t: nat)
    requires BlocksOk(bs) && |g| == |bs| && InRange(bs, ord) && i < |ord|
    ensures t <= 11 && (bs[ord[i]].end.Branches? ==> t >= 2)
  {
    if bs[ord[i]].end.Branches? then
      (if Short(bs, g, ord[i]) then 2 else 6) + (if Apart(bs, ord, i) then 5 else 0)
    else 0
  }

  /** Where block i of the order starts finally. */
  function Start2(bs: seq<Block>, g: seq<Info>, ord: seq<nat>, a0: int, i: nat): int
    requires BlocksOk(bs) && |g| == |bs| && InRange(bs, ord) && i <= |ord|
  {
    if i == 0 then a0
    else Start2(bs, g, ord, a0, i - 1) + Len(bs[ord[i - 1]]) + Tail(bs, g, ord, i - 1)
  }

  /** Blocks only move down and closer together. */
  lemma {:induction false} Shrinks(bs: seq<Block>, g: seq<Info>, ord: seq<nat>, a0: int, i: nat, j: nat)
    requires BlocksOk(bs) && |g| == |bs| && InRange(bs, ord) && i <= j <= |ord|
    ensures 0 <= Start2(bs, g, ord, a0, j) - Start2(bs, g, ord, a0, i)
              <= Start1(bs, a0, ord[..j]) - Start1(bs, a0, ord[..i])
    ensures i < j ==>
      && Start2(bs, g, ord, a0, j) >= Start2(bs, g, ord, a0, i) + Len(bs[ord[i]]) + Tail(bs, g, ord, i)
      && Start1(bs, a0, ord[..j]) >= Start1(bs, a0, ord[..i]) + Len(bs[ord[i]]) + HOLE
    decreases j
  {
    hide Len, Tail, BlocksOk;
    if i < j {
      Shrinks(bs, g, ord, a0, i, j - 1);
      assert ord[..j][..j - 1] == ord[..j - 1];
    }
  }

  predicate Placed1(bs: seq<Block>, g: seq<Info>, ord: seq<nat>, a0: int)
    requires InRange(bs, ord) && |g| == |bs|
  {
    forall i :: 0 <= i < |ord| ==>
      g[ord[i]].size == Len(bs[ord[i]]) && g[ord[i]].addr1 == Start1(bs, a0, ord[..i])
  }

  /** A jump chosen short by its distance in pass 1 has a final displacement of one byte, in both directions. */
  lemma ShortJumpFits(bs: seq<Block>, g: seq<Info>, ord: seq<nat>, a0: int, i: nat, j: nat)
    requires BlocksOk(bs) && |g| == |bs| && InRange(bs, ord) && Placed1(bs, g, ord, a0)
    requires i < |ord| && j < |ord| && Short(bs, g, ord[i]) && ord[j] == bs[ord[i]].end.branch
    ensures -128 < Start2(bs, g, ord, a0, j) - (Start2(bs, g, ord, a0, i) + Len(bs[ord[i]]) + 2) < 127
  {
    hide Start1, Start2, Tail, Len, Flat;
    if i < j {
      Shrinks(bs, g, ord, a0, i + 1, j);
      Shrinks(bs, g, ord, a0, i, i + 1);
      assert ord[..i + 1][..i] == ord[..i];
    } else {
      Shrinks(bs, g, ord, a0, j, i);
    }
  }

  // ----- bytes

  function CondNo(c: Cond): (n: nat)
    ensures n < 16
  {
    match c
    case CO => 0 case CNO => 1 case CC => 2 case CNC => 3 case CZ => 4 case CNZ => 5 case CBE => 6 case CA => 7
    case CS => 8 case CNS => 9 case CL => 12 case CGE => 13 case CLE => 14 case CG => 15
  }

  /** A decoded jump instruction: condition number, target, next instruction. */
  datatype Jump = Jump(cond: nat, target: int, next: int)

  /** The conditional jump at p, short or near. */
  function JccAt(m: seq<Byte>, p: int): Option<Jump> {
    if 0 <= p && p + 2 <= |m| && 0x70 <= m[p] < 0x80 then
      Some(Jump(m[p] - 0x70, p + 2 + Signed8(m[p + 1]), p + 2))
    else if 0 <= p && p + 6 <= |m| && m[p] == 0x0F && 0x80 <= m[p + 1] < 0x90 then
      Some(Jump(m[p + 1] - 0x80, p + 6 + Signed32(m[p + 2..p + 6]), p + 6))
    else None
  }

  /** Target of the jump instruction at p. */
  function JmpAt(m: seq<Byte>, p: int): Option<int> {
    if 0 <= p && p + 5 <= |m| && m[p] == 0xE9 then Some(p + 5 + Signed32(m[p + 1..p + 5])) else None
  }

  /** From p control continues at a, at once or by a jump instruction. */
  predicate LeadsTo(m: seq<Byte>, p: int, a: int) { p == a || JmpAt(m, p) == Some(a) }

  /** Behind its code a block goes where the graph says. */
  predicate Linked(bs: seq<Block>, m: seq<Byte>, addr: seq<Info>, k: nat)
    requires BlocksOk(bs) && |addr| == |bs| && k < |bs|
  {
    bs[k].end.Branches? ==>
      var e, j := bs[k].end, JccAt(m, addr[k].addr2 + Len(bs[k]));
      && j.Some? && j.value.cond == CondNo(e.cond)
      && j.value.target == addr[e.branch].addr2
      && LeadsTo(m, j.value.next, addr[e.fallThrough].addr2)
  }

  /** The encoding of the jumps behind a block. */
  function JccBytes(c: Cond, short: bool, diff: int): (s: seq<Byte>)
    ensures |s| == if short then 2 else 6
  {
    if short then [0x70 + CondNo(c), Byte8(diff)] else [0x0F, 0x80 + CondNo(c)] + Bytes32(diff)
  }

  function JmpBytes(diff: int): (s: seq<Byte>)
    ensures |s| == 5
  {
    [0xE9] + Bytes32(diff)
  }

  lemma DecodeJcc(m: seq<Byte>, p: int, c: Cond, short: bool, diff: int)
    requires Has(m, p, JccBytes(c, short, diff))
    requires if short then -128 <= diff < 128 else -0x8000_0000 <= diff < 0x8000_0000
    ensures var n := p + if short then 2 else 6;
            JccAt(m, p) == Some(Jump(CondNo(c), n + diff, n))
  {
    var s := JccBytes(c, short, diff);
    assert m[p] == s[0] && m[p + 1] == s[1];
    if short {
      Disp8(diff);
    } else {
      Disp32(diff);
      assert m[p + 2..p + 6] == Bytes32(diff) by {
        forall j | 0 <= j < 4 ensures m[p + 2 + j] == Bytes32(diff)[j] { assert m[p + (2 + j)] == s[2 + j]; }
      }
    }
  }

  lemma DecodeJmp(m: seq<Byte>, p: int, diff: int)
    requires Has(m, p, JmpBytes(diff)) && -0x8000_0000 <= diff < 0x8000_0000
    ensures JmpAt(m, p) == Some(p + 5 + diff)
  {
    var s := JmpBytes(diff);
    Disp32(diff);
    assert m[p] == s[0];
    assert m[p + 1..p + 5] == Bytes32(diff) by {
      forall j | 0 <= j < 4 ensures m[p + 1 + j] == Bytes32(diff)[j] { assert m[p + (1 + j)] == s[1 + j]; }
    }
  }

  // ----- state between the passes

  /** The blocks in ord are emitted one behind the other, each followed by a hole. */
  ghost predicate Laid(bs: seq<Block>, g: seq<Info>, ord: seq<nat>, m: seq<Byte>, a0: int) {
    && InRange(bs, ord) && NoDup(ord) && |g| == |bs|
    && Placed1(bs, g, ord, a0)
    && (forall i :: 0 <= i < |ord| ==> Has(m, Start1(bs, a0, ord[..i]), Flat(bs[ord[i]].code)))
    && (forall k: nat :: k < |g| ==> g[k] == if k in ord then Emitted(g[k]) else FRESH)
  }

  /** Blocks are found from the root only; what is found and not emitted is on the stack. */
  ghost predicate Frontier(bs: seq<Block>, ord: seq<nat>, stack: seq<nat>) {
    && InRange(bs, stack)
    && (forall k: nat :: k in ord || k in stack ==> Reachable(bs, k))
    && (forall j, k :: j in ord && Edge(bs, j, k) ==> k in ord || k in stack)
    && (if ord == [] then stack == [0] else ord[0] == 0)
  }

  ghost predicate Emitting(bs: seq<Block>, g: seq<Info>, ord: seq<nat>, stack: seq<nat>, m: seq<Byte>, a0: int) {
    Laid(bs, g, ord, m, a0) && Frontier(bs, ord, stack)
  }

  const FRESH := Info(-1, 0, 0, false, false)

  function Emitted(i: Info): Info { Info(if i.size < 0 then 0 else i.size, i.addr1, 0, false, false) }

  lemma EmptyStackOrder(bs: seq<Block>, g: seq<Info>, ord: seq<nat>, m: seq<Byte>, a0: int)
    requires Emitting(bs, g, ord, [], m, a0)
    ensures Order(bs, ord)
  {
    assert Closed(bs, ord);
    assert ord[0] in ord;
    forall k: nat ensures k in ord <==> Reachable(bs, k) {
      if Reachable(bs, k) {
        var p: seq<nat> :| IsPath(bs, p) && p[|p| - 1] == k;
        ClosedHasPath(bs, ord, p);
      }
    }
  }

  /** A block on the stack that was emitted before is dropped. */
  lemma SkipKeeps(bs: seq<Block>, g: seq<Info>, ord: seq<nat>, stack: seq<nat>, m: seq<Byte>, a0: int)
    requires Emitting(bs, g, ord, stack, m, a0) && stack != [] && stack[|stack| - 1] in ord
    ensures Emitting(bs, g, ord, stack[..|stack| - 1], m, a0)
  {
    hide Laid, Reachable;
    var rest := stack[..|stack| - 1];
    assert stack == rest + [stack[|stack| - 1]];
  }

  function Pushed(bs: seq<Block>, stack: seq<nat>, k: nat): seq<nat>
    requires k < |bs|
  {
    if bs[k].end.Branches? then stack + [bs[k].end.branch, bs[k].end.fallThrough] else stack
  }

  /** The block on top of the stack is emitted behind the others, its successors are pushed. */
  lemma EmitKeeps(bs: seq<Block>, g: seq<Info>, ord: seq<nat>, stack: seq<nat>, m: seq<Byte>, a0: int,
                  g': seq<Info>, m': seq<Byte>)
    requires BlocksOk(bs) && Emitting(bs, g, ord, stack, m, a0) && stack != []
    requires var k := stack[|stack| - 1];
             && k !in ord && k < |bs|
             && g' == g[k := g[k].(size := Len(bs[k]), addr1 := Start1(bs, a0, ord))]
             && Has(m', Start1(bs, a0, ord), Flat(bs[k].code))
    requires |m'| == |m| && forall p :: 0 <= p < Start1(bs, a0, ord) && p < |m| ==> m'[p] == m[p]
    ensures var k := stack[|stack| - 1];
            Emitting(bs, g', ord + [k], Pushed(bs, stack[..|stack| - 1], k), m', a0)
  {
    var k := stack[|stack| - 1];
    LaidGrows(bs, g, ord, m, a0, g', m', k);
    FrontierGrows(bs, ord, stack);
  }

  lemma LaidGrows(bs: seq<Block>, g: seq<Info>, ord: seq<nat>, m: seq<Byte>, a0: int, g': seq<Info>, m': seq<Byte>,
                  k: nat)
    requires Laid(bs, g, ord, m, a0) && k !in ord && k < |bs|
    requires g' == g[k := g[k].(size := Len(bs[k]), addr1 := Start1(bs, a0, ord))]
    requires Has(m', Start1(bs, a0, ord), Flat(bs[k].code))
    requires |m'| == |m| && forall p :: 0 <= p < Start1(bs, a0, ord) && p < |m| ==> m'[p] == m[p]
    ensures Laid(bs, g', ord + [k], m', a0)
  {
    hide Start1, Has, Flat;
    var ord' := ord + [k];
    forall i | 0 <= i < |ord'|
      ensures g'[ord'[i]].size == Len(bs[ord'[i]]) && g'[ord'[i]].addr1 == Start1(bs, a0, ord'[..i])
      ensures Has(m', Start1(bs, a0, ord'[..i]), Flat(bs[ord'[i]].code))
    {
      assert ord'[..i] == ord[..i];
      if i < |ord| {
        StartsBelow(bs, a0, ord, i);
        assert ord[i] != k;
        HasKept(m, m', Start1(bs, a0, ord[..i]), Flat(bs[ord[i]].code), Start1(bs, a0, ord));
      } else {
        assert ord[..i] == ord;
      }
    }
  }

  lemma FrontierGrows(bs: seq<Block>, ord: seq<nat>, stack: seq<nat>)
    requires BlocksOk(bs) && Frontier(bs, ord, stack) && stack != []
    requires stack[|stack| - 1] !in ord
    ensures var k := stack[|stack| - 1]; Frontier(bs, ord + [k], Pushed(bs, stack[..|stack| - 1], k))
  {
    hide Reachable;
    var k := stack[|stack| - 1];
    var rest := stack[..|stack| - 1];
    assert stack == rest + [k];
    var pushed := Pushed(bs, rest, k);
    var e := bs[k].end;
    assert e.Branches? ==> pushed == rest + [e.branch, e.fallThrough] && e.branch in pushed && e.fallThrough in pushed;
    forall x: nat | x in ord + [k] || x in pushed ensures Reachable(bs, x) {
      if x !in ord && x !in stack { ReachableStep(bs, k, x); }
    }
  }

  lemma {:induction false} StartsBelow(bs: seq<Block>, a0: int, ord: seq<nat>, i: nat)
    requires InRange(bs, ord) && i < |ord|
    ensures Start1(bs, a0, ord[..i]) + Len(bs[ord[i]]) + HOLE <= Start1(bs, a0, ord)
    decreases |ord|
  {
    var pre := ord[..|ord| - 1];
    if i < |pre| {
      StartsBelow(bs, a0, pre, i);
      assert pre[..i] == ord[..i];
    } else {
      assert pre == ord[..i];
    }
  }

  /** What pass 2 stores for block i of the order. */
  function Placed(bs: seq<Block>, g: seq<Info>, ord: seq<nat>, a0: int, i: nat): Info
    requires BlocksOk(bs) && |g| == |bs| && InRange(bs, ord) && i < |ord|
  {
    Info(g[ord[i]].size, g[ord[i]].addr1, Start2(bs, g, ord, a0, i), Short(bs, g, ord[i]), Apart(bs, ord, i))
  }

  /** Jumps behind block i, from the final addresses. */
  function TailBytes(bs: seq<Block>, g: seq<Info>, k: nat): seq<Byte>
    requires BlocksOk(bs) && |g| == |bs| && k < |bs|
  {
    if !bs[k].end.Branches? then []
    else
      var e, p := bs[k].end, g[k].addr2 + g[k].size;
      var q := p + if g[k].genJcc8 then 2 else 6;
      JccBytes(e.cond, g[k].genJcc8, g[e.branch].addr2 - q)
      + (if g[k].genJump then JmpBytes(g[e.fallThrough].addr2 - (q + 5)) else [])
  }

  /** All blocks and jumps have their final places in m. */
  ghost predicate Compacted(bs: seq<Block>, g: seq<Info>, g': seq<Info>, ord: seq<nat>, m: seq<Byte>, a0: int)
    requires BlocksOk(bs)
  {
    && InRange(bs, ord) && |g| == |g'| == |bs| && Order(bs, ord) && Placed1(bs, g, ord, a0)
    && 0 <= a0 && Start2(bs, g, ord, a0, |ord|) <= |m| < 0x8000_0000
    && (forall i :: 0 <= i < |ord| ==> g'[ord[i]] == Placed(bs, g, ord, a0, i))
    && (forall i :: 0 <= i < |ord| ==> Has(m, Start2(bs, g, ord, a0, i), Flat(bs[ord[i]].code)))
  }

  ghost predicate Patched(bs: seq<Block>, g: seq<Info>, g': seq<Info>, ord: seq<nat>, m: seq<Byte>, a0: int, n: nat)
    requires BlocksOk(bs)
  {
    && Compacted(bs, g, g', ord, m, a0) && n <= |ord|
    && forall i :: 0 <= i < n ==> Has(m, Start2(bs, g, ord, a0, i) + Len(bs[ord[i]]), TailBytes(bs, g', ord[i]))
  }

  lemma TailLength(bs: seq<Block>, g: seq<Info>, g': seq<Info>, ord: seq<nat>, m: seq<Byte>, a0: int, i: nat)
    requires BlocksOk(bs) && Compacted(bs, g, g', ord, m, a0) && i < |ord|
    ensures |TailBytes(bs, g', ord[i])| == Tail(bs, g, ord, i)
  {
    assert g'[ord[i]] == Placed(bs, g, ord, a0, i);
  }

  /** Patching the jumps behind block n touches no block and no other jump. */
  lemma PatchKeeps(bs: seq<Block>, g: seq<Info>, g': seq<Info>, ord: seq<nat>, m: seq<Byte>, m': seq<Byte>, a0: int,
                   n: nat)
    requires BlocksOk(bs) && Patched(bs, g, g', ord, m, a0, n) && n < |ord| && |m'| == |m|
    requires var p, s := Start2(bs, g, ord, a0, n) + Len(bs[ord[n]]), TailBytes(bs, g', ord[n]);
             Has(m', p, s) && forall x :: 0 <= x < |m| && !(p <= x < p + |s|) ==> m'[x] == m[x]
    ensures Patched(bs, g, g', ord, m', a0, n + 1)
  {
    hide TailBytes, Order, Placed1, Placed, Tail, Start2, Has, Flat;
    TailLength(bs, g, g', ord, m, a0, n);
    forall i | 0 <= i < |ord|
      ensures Has(m', Start2(bs, g, ord, a0, i), Flat(bs[ord[i]].code))
      ensures i <= n ==> Has(m', Start2(bs, g, ord, a0, i) + Len(bs[ord[i]]), TailBytes(bs, g', ord[i]))
    {
      var p, k := Start2(bs, g, ord, a0, n) + Len(bs[ord[n]]), |TailBytes(bs, g', ord[n])|;
      TailLength(bs, g, g', ord, m, a0, i);
      if i < n { Shrinks(bs, g, ord, a0, i, n); }
      if i > n { Shrinks(bs, g, ord, a0, n, i); }
      HasOutside(m, m', Start2(bs, g, ord, a0, i), Flat(bs[ord[i]].code), p, k);
      if i < n { HasOutside(m, m', Start2(bs, g, ord, a0, i) + Len(bs[ord[i]]), TailBytes(bs, g', ord[i]), p, k); }
    }
  }

  /** What the jumps behind a block decode to, whatever their displacements. */
  lemma TailDecodes(bs: seq<Block>, g: seq<Info>, m: seq<Byte>, k: nat)
    requires BlocksOk(bs) && |g| == |bs| && k < |bs| && bs[k].end.Branches? && g[k].size == Len(bs[k])
    requires bs[k].end.branch < |bs| && bs[k].end.fallThrough < |bs|
    requires var e, p := bs[k].end, g[k].addr2 + g[k].size;
             var q := p + if g[k].genJcc8 then 2 else 6;
             && Has(m, p, TailBytes(bs, g, k))
             && 0 <= g[e.branch].addr2 < 0x8000_0000 && 0 <= g[e.fallThrough].addr2 < 0x8000_0000
             && 0 <= p && q <= |m| < 0x8000_0000 && (g[k].genJump ==> q + 5 <= |m|)
             && (g[k].genJcc8 ==> -128 <= g[e.branch].addr2 - q < 128)
             && (!g[k].genJump ==> q == g[e.fallThrough].addr2)
    ensures Linked(bs, m, g, k)
  {
    hide Has, JccBytes, JmpBytes, JccAt, JmpAt, BlocksOk, TailBytes, CondNo;
    var e, p := bs[k].end, g[k].addr2 + g[k].size;
    var q := p + if g[k].genJcc8 then 2 else 6;
    var d, f := g[e.branch].addr2 - q, g[e.fallThrough].addr2 - (q + 5);
    var jcc := JccBytes(e.cond, g[k].genJcc8, d);
    var jmp := if g[k].genJump then JmpBytes(f) else [];
    TailIs(bs, g, k, q, jcc, jmp);
    assert (jcc + jmp)[..|jcc|] == jcc && (jcc + jmp)[|jcc|..] == jmp;
    HasParts(m, p, jcc, jcc + jmp);
    DecodeJcc(m, p, e.cond, g[k].genJcc8, d);
    if g[k].genJump { DecodeJmp(m, q, f); }
  }

  lemma TailIs(bs: seq<Block>, g: seq<Info>, k: nat, q: int, jcc: seq<Byte>, jmp: seq<Byte>)
    requires BlocksOk(bs) && |g| == |bs| && k < |bs| && bs[k].end.Branches?
    requires bs[k].end.branch < |bs| && bs[k].end.fallThrough < |bs|
    requires q == g[k].addr2 + g[k].size + if g[k].genJcc8 then 2 else 6
    requires jcc == JccBytes(bs[k].end.cond, g[k].genJcc8, g[bs[k].end.branch].addr2 - q)
    requires jmp == if g[k].genJump then JmpBytes(g[bs[k].end.fallThrough].addr2 - (q + 5)) else []
    ensures TailBytes(bs, g, k) == jcc + jmp
  {
    hide JccBytes, JmpBytes, BlocksOk;
  }

  /** Places of a block that ends in a jump, and of its successors. */
  lemma TailPlace(bs: seq<Block>, g: seq<Info>, g': seq<Info>, ord: seq<nat>, m: seq<Byte>, a0: int, i: nat)
    requires BlocksOk(bs) && Compacted(bs, g, g', ord, m, a0) && i < |ord| && bs[ord[i]].end.Branches?
    ensures var k := ord[i];
            var e, p := bs[k].end, Start2(bs, g, ord, a0, i) + Len(bs[k]);
            var q := p + if g'[k].genJcc8 then 2 else 6;
            && g'[k] == Placed(bs, g, ord, a0, i) && g'[k].size == Len(bs[k])
            && 0 <= p && q <= |m| && (g'[k].genJump ==> q + 5 <= |m|)
            && (!g'[k].genJump ==> q == g'[e.fallThrough].addr2)
  {
    hide Has, Order, Start1, Short, Flat;
    assert g'[ord[i]] == Placed(bs, g, ord, a0, i);
    Shrinks(bs, g, ord, a0, 0, i);
    Shrinks(bs, g, ord, a0, i + 1, |ord|);
    if !Apart(bs, ord, i) { assert g'[ord[i + 1]] == Placed(bs, g, ord, a0, i + 1); }
    assert Start2(bs, g, ord, a0, i + 1) == Start2(bs, g, ord, a0, i) + Len(bs[ord[i]]) + Tail(bs, g, ord, i);
  }

  lemma ShortPlace(bs: seq<Block>, g: seq<Info>, g': seq<Info>, ord: seq<nat>, m: seq<Byte>, a0: int, i: nat)
    requires BlocksOk(bs) && Compacted(bs, g, g', ord, m, a0) && i < |ord| && bs[ord[i]].end.Branches?
    requires bs[ord[i]].end.branch in ord && Short(bs, g, ord[i])
    ensures -128 < g'[bs[ord[i]].end.branch].addr2 - (Start2(bs, g, ord, a0, i) + Len(bs[ord[i]]) + 2) < 127
  {
    hide Has, Order, Start1, Short, Flat, Start2, Apart;
    var j :| 0 <= j < |ord| && ord[j] == bs[ord[i]].end.branch;
    ShortJumpFits(bs, g, ord, a0, i, j);
    assert g'[ord[j]] == Placed(bs, g, ord, a0, j);
  }

  /** The jump decoded behind a block leads to its successors. */
  lemma PatchedLinks(bs: seq<Block>, g: seq<Info>, g': seq<Info>, ord: seq<nat>, m: seq<Byte>, a0: int, i: nat)
    requires BlocksOk(bs) && Patched(bs, g, g', ord, m, a0, |ord|) && i < |ord|
    ensures Linked(bs, m, g', ord[i])
  {
    hide Has, Linked, TailBytes, Order, Start1, Start2, Short, Apart, Flat, Placed1;
    var k := ord[i];
    if bs[k].end.Branches? {
      SuccessorPlaces(bs, g, g', ord, m, a0, i, bs[k].end.branch);
      SuccessorPlaces(bs, g, g', ord, m, a0, i, bs[k].end.fallThrough);
      TailPlace(bs, g, g', ord, m, a0, i);
      if g'[k].genJcc8 { ShortPlace(bs, g, g', ord, m, a0, i); }
      TailDecodes(bs, g', m, k);
    } else {
      NotLinked(bs, g', m, k);
    }
  }

  lemma NotLinked(bs: seq<Block>, g: seq<Info>, m: seq<Byte>, k: nat)
    requires BlocksOk(bs) && |g| == |bs| && k < |bs| && !bs[k].end.Branches?
    ensures Linked(bs, m, g, k)
  {}

  lemma SuccessorPlaces(bs: seq<Block>, g: seq<Info>, g': seq<Info>, ord: seq<nat>, m: seq<Byte>, a0: int, i: nat,
                        k: nat)
    requires BlocksOk(bs) && Compacted(bs, g, g', ord, m, a0) && i < |ord| && Edge(bs, ord[i], k)
    ensures k in ord && 0 <= g'[k].addr2 <= |m|
  {
    assert ord[i] in ord;
    ReachableStep(bs, ord[i], k);
    var j :| 0 <= j < |ord| && ord[j] == k;
    assert g'[ord[j]] == Placed(bs, g, ord, a0, j);
    Shrinks(bs, g, ord, a0, 0, j);
    Shrinks(bs, g, ord, a0, j, |ord|);
  }
}
