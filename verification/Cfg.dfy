/** Control-flow graphs recovered from code: blocks, links, predecessor lists, and operations on them. */
module Cfg {
  import opened Ledger

  datatype Kind = Plain | Jump(target: nat) | Branch(target: nat) | Call | Stop

  datatype LInstr = LInstr(kind: Kind, len: nat)

  /** Instructions by address. */
  type LCode = map<nat, LInstr>

  /** Instructions do not overlap, end below the limit, and wherever control goes there is an instruction. */
  predicate CodeOk(code: LCode, limit: nat) {
    && (forall a <- code :: code[a].len > 0 && a + code[a].len <= limit)
    && (forall a <- code, b <- code :: a < b ==> a + code[a].len <= b)
    && (forall a <- code :: Continues(code[a].kind) ==> a + code[a].len in code)
    && (forall a <- code :: Jumps(code[a].kind) ==> code[a].kind.target in code)
  }

  predicate Jumps(k: Kind) { k.Jump? || k.Branch? }

  /** Control may go on behind the instruction. */
  predicate Continues(k: Kind) { k.Plain? || k.Branch? || k.Call? }

  function After(code: LCode, a: nat): nat
    requires a in code
  {
    a + code[a].len
  }

  /** The instructions from a up to the first one that is not plain. */
  function Straight(code: LCode, limit: nat, a: nat): (s: seq<nat>)
    requires CodeOk(code, limit) && a in code
    ensures |s| > 0 && s[0] == a && Run(code, s) && !code[s[|s| - 1]].kind.Plain?
    decreases limit - a
  {
    if code[a].kind.Plain? then
      var rest := Straight(code, limit, After(code, a));
      RunFirst(code, a, rest);
      [a] + rest
    else [a]
  }

  /** Consecutive instructions, plain up to the last one. */
  predicate Run(code: LCode, s: seq<nat>) {
    && |s| > 0 && (forall i :: 0 <= i < |s| ==> s[i] in code)
    && forall i :: 0 <= i < |s| - 1 ==> code[s[i]].kind.Plain? && s[i + 1] == After(code, s[i])
  }

  lemma RunFirst(code: LCode, a: nat, s: seq<nat>)
    requires Run(code, s) && a in code && code[a].kind.Plain? && s[0] == After(code, a)
    ensures Run(code, [a] + s)
  {
    var t := [a] + s;
    forall i | 0 <= i < |t| - 1 ensures code[t[i]].kind.Plain? && t[i + 1] == After(code, t[i]) {
      if i > 0 { assert t[i] == s[i - 1] && t[i + 1] == s[i]; }
    }
  }

  lemma RunParts(code: LCode, s: seq<nat>, i: nat)
    requires Run(code, s) && 0 < i < |s|
    ensures Run(code, s[..i]) && Run(code, s[i..])
    ensures code[s[..i][i - 1]].kind.Plain? && s[i..][0] == After(code, s[..i][i - 1])
  {
    var t := s[i..];
    forall j | 0 <= j < |t| - 1 ensures code[t[j]].kind.Plain? && t[j + 1] == After(code, t[j]) {
      assert t[j] == s[i + j] && t[j + 1] == s[i + (j + 1)];
      assert s[i + j + 1] == After(code, s[i + j]);
    }
  }

  lemma RunLast(code: LCode, s: seq<nat>)
    requires Run(code, s) && |s| > 1
    ensures Run(code, s[..|s| - 1])
    ensures var a := s[|s| - 2]; a in code && code[a].kind.Plain? && After(code, a) == s[|s| - 1]
  {
    RunParts(code, s, |s| - 1);
    assert s[|s| - 2 + 1] == s[|s| - 1];
  }

  /** Two runs with the same last instruction: the shorter one is the end of the longer one. */
  lemma {:induction false} SameEnd(code: LCode, limit: nat, s: seq<nat>, t: seq<nat>)
    requires CodeOk(code, limit) && Run(code, s) && Run(code, t) && s[|s| - 1] == t[|t| - 1] && |t| <= |s|
    ensures s[|s| - |t|..] == t
    decreases |t|
  {
    if |t| == 1 {
      assert s[|s| - 1..] == [s[|s| - 1]] && t == [t[0]];
    } else {
      RunLast(code, s);
      RunLast(code, t);
      hide Run;
      assert s[|s| - 2] == t[|t| - 2];
      var s', t' := s[..|s| - 1], t[..|t| - 1];
      SameEnd(code, limit, s', t');
      assert s == s' + [s[|s| - 1]] && t == t' + [t[|t| - 1]];
    }
  }

  // ----- blocks

  /** A block; blocks are named by their place in the list. In preds, -1 is the entry block of the function. */
  datatype BB = BB(address: nat, instrs: seq<nat>, branch: Option<nat>, fallThrough: Option<nat>, preds: seq<int>)

  type Graph = seq<BB>

  predicate BlockOk(code: LCode, b: BB) { Run(code, b.instrs) && b.instrs[0] == b.address }

  function Last(b: BB): nat
    requires |b.instrs| > 0
  {
    b.instrs[|b.instrs| - 1]
  }

  predicate GoesTo(g: Graph, link: Option<nat>, a: nat) {
    link.Some? && link.value < |g| && g[link.value].address == a
  }

  /** The links of a block are where its last instruction goes; those of an unfinished block are not there yet. */
  predicate LinksOk(code: LCode, g: Graph, b: BB, pending: set<nat>)
    requires BlockOk(code, b)
  {
    var a := Last(b);
    if a in pending then b.branch == None && b.fallThrough == None
    else
      && (if Jumps(code[a].kind) then GoesTo(g, b.branch, code[a].kind.target) else b.branch == None)
      && (if Continues(code[a].kind) then GoesTo(g, b.fallThrough, After(code, a)) else b.fallThrough == None)
  }

  function Count(s: seq<int>, x: int): nat {
    if s == [] then 0 else Count(s[..|s| - 1], x) + if s[|s| - 1] == x then 1 else 0
  }

  /** Links from a block to block j. */
  function Edges(b: BB, j: nat): nat {
    (if b.branch == Some(j) then 1 else 0) + (if b.fallThrough == Some(j) then 1 else 0)
  }

  /** How often k has to be in the predecessor list of j. */
  function Expected(g: Graph, j: nat, k: int): nat {
    if k == -1 then (if j == 0 then 1 else 0) else if 0 <= k < |g| then Edges(g[k], j) else 0
  }

  /** The predecessor list of j is the multiset of links to it, and the entry for the first block. */
  ghost predicate PredsOk(g: Graph, j: nat)
    requires j < |g|
  {
    forall k: int :: Count(g[j].preds, k) == Expected(g, j, k)
  }

  /** An instruction that ends a block by a jump, call or return is in one block only. */
  predicate EndsUnique(code: LCode, g: Graph) {
    forall j, k :: 0 <= j < k < |g| && BlockOk(code, g[j]) && BlockOk(code, g[k]) && Last(g[j]) == Last(g[k]) ==>
      code[Last(g[j])].kind.Plain?
  }

  predicate LinksInside(g: Graph) {
    forall k :: 0 <= k < |g| ==>
      && (g[k].branch.Some? ==> g[k].branch.value < |g|)
      && (g[k].fallThrough.Some? ==> g[k].fallThrough.value < |g|)
  }

  ghost predicate GraphOk(code: LCode, g: Graph, pending: set<nat>) {
    && (forall k :: 0 <= k < |g| ==> BlockOk(code, g[k]))
    && (forall k :: 0 <= k < |g| ==> LinksOk(code, g, g[k], pending))
    && (forall j :: 0 <= j < |g| ==> PredsOk(g, j))
    && EndsUnique(code, g)
    && (forall a <- pending :: a in code && !code[a].kind.Plain?) && pending <= Covered(g)
  }

  /** Addresses of instructions in blocks. */
  function Covered(g: Graph): set<nat> {
    set k, i | 0 <= k < |g| && 0 <= i < |g[k].instrs| :: g[k].instrs[i]
  }

  /** Blocks keep their place and address, instructions stay covered. */
  predicate Extends(g: Graph, h: Graph) {
    && |g| <= |h| && (forall k :: 0 <= k < |g| ==> h[k].address == g[k].address)
    && Covered(g) <= Covered(h)
  }

  lemma ExtendsTrans(g: Graph, h: Graph, i: Graph)
    requires Extends(g, h) && Extends(h, i)
    ensures Extends(g, i)
  {}

  // ----- splitting

  function Renamed(s: seq<int>, k: int, n: int): (r: seq<int>)
    ensures |r| == |s|
  {
    seq(|s|, i requires 0 <= i < |s| => if s[i] == k then n else s[i])
  }

  /** Block k keeps the instructions before i; the rest becomes a new block, which takes over the links. */
  function Split(g: Graph, k: nat, i: nat): (h: Graph)
    requires k < |g| && 0 < i < |g[k].instrs|
    ensures |h| == |g| + 1
  {
    var n := |g|;
    var b := g[k];
    var renamed := seq(n, j requires 0 <= j < n => g[j].(preds := Renamed(g[j].preds, k, n)));
    renamed[k := renamed[k].(instrs := b.instrs[..i], branch := None, fallThrough := Some(n))]
    + [BB(b.instrs[i], b.instrs[i..], b.branch, b.fallThrough, [k])]
  }

  lemma {:induction false} CountRenamed(s: seq<int>, k: int, n: int, x: int)
    requires k != n && n !in s
    ensures Count(Renamed(s, k, n), x) == if x == n then Count(s, k) else if x == k then 0 else Count(s, x)
    decreases |s|
  {
    if s != [] {
      var s' := s[..|s| - 1];
      CountRenamed(s', k, n, x);
      assert Renamed(s, k, n)[..|s| - 1] == Renamed(s', k, n);
      if x == n { NotCounted(s', n); }
    }
  }

  lemma {:induction false} NotCounted(s: seq<int>, x: int)
    ensures Count(s, x) == 0 <==> x !in s
    decreases |s|
  {
    if s != [] {
      NotCounted(s[..|s| - 1], x);
      assert s == s[..|s| - 1] + [s[|s| - 1]];
    }
  }

  lemma CountAppend(s: seq<int>, x: int, y: int)
    ensures Count(s + [y], x) == Count(s, x) + if x == y then 1 else 0
  {
    assert (s + [y])[..|s|] == s;
  }

  lemma CountOne(y: int, x: int)
    ensures Count([y], x) == if x == y then 1 else 0
  {
    assert [y][..0] == [];
    assert Count([], x) == 0;
  }

  /** Predecessor lists after a split. */
  lemma SplitPreds(g: Graph, k: nat, i: nat, j: nat)
    requires k < |g| && 0 < i < |g[k].instrs| && j <= |g| && LinksInside(g)
    requires forall m :: 0 <= m < |g| ==> PredsOk(g, m)
    ensures PredsOk(Split(g, k, i), j)
  {
    var n, h := |g|, Split(g, k, i);
    forall x: int ensures Count(h[j].preds, x) == Expected(h, j, x) {
      if j == n {
        CountOne(k, x);
      } else {
        assert PredsOk(g, j) && Count(g[j].preds, n) == Expected(g, j, n) == 0;
        NotCounted(g[j].preds, n);
        CountRenamed(g[j].preds, k, n, x);
        assert Count(g[j].preds, x) == Expected(g, j, x) && Count(g[j].preds, k) == Expected(g, j, k);
      }
    }
  }

  lemma SplitBlocks(code: LCode, g: Graph, k: nat, i: nat)
    requires k < |g| && 0 < i < |g[k].instrs| && forall m :: 0 <= m < |g| ==> BlockOk(code, g[m])
    ensures var h := Split(g, k, i);
            && (forall m :: 0 <= m < |h| ==> BlockOk(code, h[m]))
            && (forall m :: 0 <= m < |g| && m != k ==> Last(h[m]) == Last(g[m]))
            && Last(h[|g|]) == Last(g[k]) && code[Last(h[k])].kind.Plain? && h[|g|].address == After(code, Last(h[k]))
            && (forall m :: 0 <= m < |g| ==> h[m].address == g[m].address)
  {
    RunParts(code, g[k].instrs, i);
  }

  lemma LinksKept(code: LCode, g: Graph, h: Graph, b: BB, c: BB, pending: set<nat>)
    requires BlockOk(code, b) && BlockOk(code, c) && LinksOk(code, g, b, pending)
    requires Last(c) == Last(b) && c.branch == b.branch && c.fallThrough == b.fallThrough
    requires |g| <= |h| && forall k :: 0 <= k < |g| ==> h[k].address == g[k].address
    ensures LinksOk(code, h, c, pending)
  {}

  lemma GraphInside(code: LCode, g: Graph, pending: set<nat>)
    requires GraphOk(code, g, pending)
    ensures LinksInside(g)
  {}

  lemma SplitKeeps(code: LCode, g: Graph, pending: set<nat>, k: nat, i: nat)
    requires GraphOk(code, g, pending) && k < |g| && 0 < i < |g[k].instrs|
    ensures GraphOk(code, Split(g, k, i), pending)
    ensures Extends(g, Split(g, k, i)) && Split(g, k, i)[|g|].address == g[k].instrs[i]
  {
    var n, h := |g|, Split(g, k, i);
    GraphInside(code, g, pending);
    SplitBlocks(code, g, k, i);
    forall m | 0 <= m <= n ensures LinksOk(code, h, h[m], pending) {
      if m == n {
        LinksKept(code, g, h, g[k], h[n], pending);
      } else if m != k {
        LinksKept(code, g, h, g[m], h[m], pending);
      }
    }
    forall m | 0 <= m <= n ensures PredsOk(h, m) { SplitPreds(g, k, i, m); }
    SplitCovers(g, k, i);
  }

  lemma SplitCovers(g: Graph, k: nat, i: nat)
    requires k < |g| && 0 < i < |g[k].instrs|
    ensures Covered(g) <= Covered(Split(g, k, i))
  {
    var n, h := |g|, Split(g, k, i);
    forall m, j | 0 <= m < n && 0 <= j < |g[m].instrs| ensures g[m].instrs[j] in Covered(h) {
      if m != k || j < i {
        assert h[m].instrs[j] == g[m].instrs[j];
      } else {
        assert h[n].instrs[j - i] == g[m].instrs[j];
      }
    }
  }

  // ----- adding blocks and links

  function EntryPreds(g: Graph): seq<int> { if g == [] then [-1] else [] }

  /** A block whose end is new, without links yet. */
  lemma AppendKeeps(code: LCode, g: Graph, pending: set<nat>, s: seq<nat>)
    requires GraphOk(code, g, pending) && Run(code, s) && !code[s[|s| - 1]].kind.Plain?
    requires |s| > 0 && forall k :: 0 <= k < |g| ==> |g[k].instrs| > 0 && Last(g[k]) != s[|s| - 1]
    ensures var h := g + [BB(s[0], s, None, None, EntryPreds(g))];
            GraphOk(code, h, pending + {s[|s| - 1]}) && Extends(g, h) && s[0] in Covered(h)
  {
    hide Run, PredsOk, Covered, EndsUnique;
    RunEnds(code, s);
    var n, a := |g|, s[|s| - 1];
    var h := g + [BB(s[0], s, None, None, EntryPreds(g))];
    GraphInside(code, g, pending);
    AppendEnds(code, g, h[n]);
    forall m | 0 <= m < n ensures LinksOk(code, h, h[m], pending + {a}) { LinksKept(code, g, h, g[m], h[m], pending); }
    forall m | 0 <= m <= n ensures PredsOk(h, m) { AppendPreds(g, h, m); }
    AppendCovers(g, h[n]);
    StartCovered(h, n);
    EndCovered(h, n);
  }

  lemma AppendEnds(code: LCode, g: Graph, b: BB)
    requires (forall k :: 0 <= k < |g| ==> BlockOk(code, g[k])) && BlockOk(code, b) && EndsUnique(code, g)
    requires |b.instrs| > 0 && forall k :: 0 <= k < |g| ==> |g[k].instrs| > 0 && Last(g[k]) != Last(b)
    ensures EndsUnique(code, g + [b])
  {
    hide Run;
  }

  lemma RunEnds(code: LCode, s: seq<nat>)
    requires Run(code, s)
    ensures |s| > 0 && s[0] in code && s[|s| - 1] in code
  {}

  lemma EndCovered(g: Graph, k: nat)
    requires k < |g| && |g[k].instrs| > 0
    ensures Last(g[k]) in Covered(g)
  {}

  lemma StartCovered(g: Graph, k: nat)
    requires k < |g| && |g[k].instrs| > 0
    ensures g[k].instrs[0] in Covered(g)
  {}

  lemma AppendPreds(g: Graph, h: Graph, j: nat)
    requires |h| == |g| + 1 && h[..|g|] == g && j < |h| && LinksInside(g)
    requires h[|g|].branch == None && h[|g|].fallThrough == None && h[|g|].preds == EntryPreds(g)
    requires forall m :: 0 <= m < |g| ==> PredsOk(g, m)
    ensures PredsOk(h, j)
  {
    forall x: int ensures Count(h[j].preds, x) == Expected(h, j, x) {
      if j == |g| {
        if g == [] { CountOne(-1, x); }
      } else {
        assert h[j] == g[j] && PredsOk(g, j);
        assert Count(g[j].preds, x) == Expected(g, j, x);
      }
    }
  }

  lemma AppendCovers(g: Graph, b: BB)
    ensures Covered(g) <= Covered(g + [b])
  {
    forall m, j | 0 <= m < |g| && 0 <= j < |g[m].instrs| ensures g[m].instrs[j] in Covered(g + [b]) {
      assert (g + [b])[m].instrs[j] == g[m].instrs[j];
    }
  }

  /** Link e to t as branch or as fall-through, with the predecessor entry. */
  function WithBranch(g: Graph, e: nat, t: nat): (h: Graph)
    requires e < |g| && t < |g|
    ensures |h| == |g|
  {
    var h := g[t := g[t].(preds := g[t].preds + [e])];
    h[e := h[e].(branch := Some(t))]
  }

  function WithFallThrough(g: Graph, e: nat, t: nat): (h: Graph)
    requires e < |g| && t < |g|
    ensures |h| == |g|
  {
    var h := g[t := g[t].(preds := g[t].preds + [e])];
    h[e := h[e].(fallThrough := Some(t))]
  }

  function WithLinks(g: Graph, e: nat, br: Option<nat>, ft: Option<nat>): (h: Graph)
    requires e < |g| && (br.Some? ==> br.value < |g|) && (ft.Some? ==> ft.value < |g|)
    ensures |h| == |g|
  {
    var h := if br.Some? then WithBranch(g, e, br.value) else g;
    if ft.Some? then WithFallThrough(h, e, ft.value) else h
  }

  lemma LinkEdges(g: Graph, h: Graph, e: nat, t: nat, m: nat, j: nat)
    requires e < |g| && t < |g| && m < |g|
    requires (h == WithBranch(g, e, t) && g[e].branch == None) ||
             (h == WithFallThrough(g, e, t) && g[e].fallThrough == None)
    ensures Edges(h[m], j) == Edges(g[m], j) + if m == e && j == t then 1 else 0
    ensures h[m].preds == if m == t then g[m].preds + [e] else g[m].preds
  {}

  lemma LinkPreds(g: Graph, h: Graph, e: nat, t: nat, j: nat)
    requires e < |g| && t < |g| && j < |g|
    requires (h == WithBranch(g, e, t) && g[e].branch == None) ||
             (h == WithFallThrough(g, e, t) && g[e].fallThrough == None)
    requires forall m :: 0 <= m < |g| ==> PredsOk(g, m)
    ensures PredsOk(h, j)
  {
    hide Count, WithBranch, WithFallThrough, Edges;
    assert |h| == |g|;
    LinkEdges(g, h, e, t, j, j);
    assert PredsOk(g, j);
    forall x: int ensures Count(h[j].preds, x) == Expected(h, j, x) {
      assert Count(g[j].preds, x) == Expected(g, j, x);
      CountAppend(g[j].preds, x, e);
      if 0 <= x < |g| { LinkEdges(g, h, e, t, x, j); }
    }
  }

  /** Links apart. */
  predicate SameBlocks(g: Graph, h: Graph) {
    |g| == |h| && forall m :: 0 <= m < |g| ==> h[m].address == g[m].address && h[m].instrs == g[m].instrs
  }

  /** What links change: those of e, and predecessor lists. */
  lemma LinksShape(g: Graph, e: nat, br: Option<nat>, ft: Option<nat>)
    requires e < |g| && (br.Some? ==> br.value < |g|) && (ft.Some? ==> ft.value < |g|)
    requires g[e].branch == None && g[e].fallThrough == None
    requires forall m :: 0 <= m < |g| ==> PredsOk(g, m)
    ensures var h := WithLinks(g, e, br, ft);
            && SameBlocks(g, h)
            && (forall m :: 0 <= m < |g| && m != e ==>
                  h[m].branch == g[m].branch && h[m].fallThrough == g[m].fallThrough)
            && h[e].branch == br && h[e].fallThrough == ft
            && (forall m :: 0 <= m < |g| ==> PredsOk(h, m))
  {
    var h := if br.Some? then WithBranch(g, e, br.value) else g;
    if br.Some? {
      forall m | 0 <= m < |g| ensures PredsOk(h, m) { LinkPreds(g, h, e, br.value, m); }
    }
    if ft.Some? {
      var i := WithFallThrough(h, e, ft.value);
      forall m | 0 <= m < |g| ensures PredsOk(i, m) { LinkPreds(h, i, e, ft.value, m); }
    }
  }

  /** The pending end of block e gets its links. */
  lemma LinkKeeps(code: LCode, g: Graph, pending: set<nat>, e: nat, br: Option<nat>, ft: Option<nat>)
    requires GraphOk(code, g, pending) && e < |g| && Last(g[e]) in pending
    requires (br.Some? ==> br.value < |g|) && (ft.Some? ==> ft.value < |g|)
    requires var a := Last(g[e]);
             && (if Jumps(code[a].kind) then GoesTo(g, br, code[a].kind.target) else br == None)
             && (if Continues(code[a].kind) then GoesTo(g, ft, After(code, a)) else ft == None)
    ensures GraphOk(code, WithLinks(g, e, br, ft), pending - {Last(g[e])}) && Extends(g, WithLinks(g, e, br, ft))
  {
    PendingOpen(code, g, pending, e);
    LinksShape(g, e, br, ft);
    hide WithLinks, PredsOk, LinksOk, BlockOk, GoesTo, Extends, SameBlocks, GraphOk;
    GraphLinked(code, g, WithLinks(g, e, br, ft), e, pending);
  }

  lemma GraphLinked(code: LCode, g: Graph, h: Graph, e: nat, pending: set<nat>)
    requires GraphOk(code, g, pending) && e < |g| && Last(g[e]) in pending && SameBlocks(g, h)
    requires forall m :: 0 <= m < |g| ==> PredsOk(h, m)
    requires forall m :: 0 <= m < |g| && m != e ==> h[m].branch == g[m].branch && h[m].fallThrough == g[m].fallThrough
    requires var a := Last(g[e]);
             && (if Jumps(code[a].kind) then GoesTo(g, h[e].branch, code[a].kind.target) else h[e].branch == None)
             && (if Continues(code[a].kind) then GoesTo(g, h[e].fallThrough, After(code, a))
                 else h[e].fallThrough == None)
    ensures GraphOk(code, h, pending - {Last(g[e])}) && Extends(g, h)
  {
    SameEnds(code, g, h);
    SameCovered(g, h);
    BlocksLinked(code, g, h, e, pending);
    hide PredsOk, Covered, EndsUnique, LinksOk, BlockOk, GoesTo, Extends, SameBlocks;
  }

  lemma PendingOpen(code: LCode, g: Graph, pending: set<nat>, e: nat)
    requires GraphOk(code, g, pending) && e < |g| && Last(g[e]) in pending
    ensures |g[e].instrs| > 0 && g[e].branch == None && g[e].fallThrough == None && Last(g[e]) in code
  {
    assert BlockOk(code, g[e]) && LinksOk(code, g, g[e], pending);
  }

  lemma BlocksLinked(code: LCode, g: Graph, h: Graph, e: nat, pending: set<nat>)
    requires GraphOk(code, g, pending) && e < |g| && Last(g[e]) in pending
    requires SameBlocks(g, h)
    requires forall m :: 0 <= m < |g| && m != e ==> h[m].branch == g[m].branch && h[m].fallThrough == g[m].fallThrough
    requires var a := Last(g[e]);
             && (if Jumps(code[a].kind) then GoesTo(g, h[e].branch, code[a].kind.target) else h[e].branch == None)
             && (if Continues(code[a].kind) then GoesTo(g, h[e].fallThrough, After(code, a))
                 else h[e].fallThrough == None)
    ensures forall m :: 0 <= m < |g| ==> BlockOk(code, h[m])
    ensures forall m :: 0 <= m < |g| ==> LinksOk(code, h, h[m], pending - {Last(g[e])})
  {
    hide PredsOk, Covered, EndsUnique, LinksOk, GoesTo;
    forall m | 0 <= m < |g| ensures BlockOk(code, h[m]) && LinksOk(code, h, h[m], pending - {Last(g[e])}) {
      assert BlockOk(code, g[m]);
      if m == e {
        EndLinked(code, g, h, e, pending);
      } else {
        OtherEnd(code, g, m, e, Last(g[e]));
        OtherLinked(code, g, h, m, pending, Last(g[e]));
      }
    }
  }

  lemma EndLinked(code: LCode, g: Graph, h: Graph, e: nat, pending: set<nat>)
    requires SameBlocks(g, h) && e < |g| && BlockOk(code, g[e])
    requires var a := Last(g[e]);
             && (if Jumps(code[a].kind) then GoesTo(g, h[e].branch, code[a].kind.target) else h[e].branch == None)
             && (if Continues(code[a].kind) then GoesTo(g, h[e].fallThrough, After(code, a))
                 else h[e].fallThrough == None)
    ensures BlockOk(code, h[e]) && LinksOk(code, h, h[e], pending - {Last(g[e])})
  {}

  lemma OtherLinked(code: LCode, g: Graph, h: Graph, m: nat, pending: set<nat>, a: nat)
    requires SameBlocks(g, h) && m < |g| && BlockOk(code, g[m]) && Last(g[m]) != a
    requires LinksOk(code, g, g[m], pending) && h[m].branch == g[m].branch && h[m].fallThrough == g[m].fallThrough
    ensures BlockOk(code, h[m]) && LinksOk(code, h, h[m], pending - {a})
  {}

  lemma SameEnds(code: LCode, g: Graph, h: Graph)
    requires SameBlocks(g, h)
    requires EndsUnique(code, g)
    ensures EndsUnique(code, h)
  {
    forall j, k | 0 <= j < k < |h| && BlockOk(code, h[j]) && BlockOk(code, h[k]) && Last(h[j]) == Last(h[k])
      ensures code[Last(h[j])].kind.Plain?
    {
      assert BlockOk(code, g[j]) && BlockOk(code, g[k]);
    }
  }

  lemma OtherEnd(code: LCode, g: Graph, m: nat, e: nat, a: nat)
    requires (forall k :: 0 <= k < |g| ==> BlockOk(code, g[k])) && EndsUnique(code, g)
    requires m < |g| && e < |g| && m != e && |g[m].instrs| > 0 && |g[e].instrs| > 0
    requires Last(g[e]) == a && a in code && !code[a].kind.Plain?
    ensures Last(g[m]) != a
  {
    assert BlockOk(code, g[m]) && BlockOk(code, g[e]);
  }

  lemma SameCovered(g: Graph, h: Graph)
    requires SameBlocks(g, h)
    ensures Covered(h) == Covered(g) && Extends(g, h)
  {
    forall m, j | 0 <= m < |g| && 0 <= j < |g[m].instrs| ensures g[m].instrs[j] in Covered(h) {
      assert h[m].instrs[j] == g[m].instrs[j];
    }
    forall m, j | 0 <= m < |h| && 0 <= j < |h[m].instrs| ensures h[m].instrs[j] in Covered(g) {
      assert g[m].instrs[j] == h[m].instrs[j];
    }
  }

  /** A block cut before the known block o, to which it falls through. */
  lemma TruncateKeeps(code: LCode, g: Graph, pending: set<nat>, s: seq<nat>, o: nat)
    requires GraphOk(code, g, pending) && Run(code, s) && o < |g|
    requires code[s[|s| - 1]].kind.Plain? && g[o].address == After(code, s[|s| - 1])
    ensures var h := WithFallThrough(g + [BB(s[0], s, None, None, EntryPreds(g))], |g|, o);
            GraphOk(code, h, pending) && Extends(g, h) && s[0] in Covered(h)
  {
    hide Run, PredsOk, Covered, EndsUnique, WithFallThrough;
    RunEnds(code, s);
    var n := |g|;
    var h0 := g + [BB(s[0], s, None, None, EntryPreds(g))];
    var h := WithFallThrough(h0, n, o);
    GraphInside(code, g, pending);
    forall m | 0 <= m <= n ensures PredsOk(h0, m) { AppendPreds(g, h0, m); }
    forall m | 0 <= m <= n ensures PredsOk(h, m) { LinkPreds(h0, h, n, o, m); }
    FallThroughShape(h0, n, o);
    NonEmpty(code, g);
    assert forall m :: 0 <= m < n ==> h[m].instrs == g[m].instrs && h[m].address == g[m].address;
    forall m | 0 <= m < n ensures BlockOk(code, h[m]) && LinksOk(code, h, h[m], pending) {
      LinksKept(code, g, h, g[m], h[m], pending);
    }
    TruncatedEnds(code, g, h);
    AppendCovers(g, h0[n]);
    SameCovered(h0, h);
    StartCovered(h, n);
  }

  /** A link to fall through changes one link and one predecessor list. */
  lemma FallThroughShape(g: Graph, e: nat, t: nat)
    requires e < |g| && t < |g|
    ensures var h := WithFallThrough(g, e, t);
            && (forall m :: 0 <= m < |g| ==>
                  h[m] == g[m].(preds := h[m].preds, fallThrough := if m == e then Some(t) else g[m].fallThrough))
  {}

  lemma NonEmpty(code: LCode, g: Graph)
    requires forall k :: 0 <= k < |g| ==> BlockOk(code, g[k])
    ensures forall k :: 0 <= k < |g| ==> |g[k].instrs| > 0
  {
    forall k | 0 <= k < |g| ensures |g[k].instrs| > 0 { assert BlockOk(code, g[k]); }
  }

  lemma TruncatedEnds(code: LCode, g: Graph, h: Graph)
    requires (forall k :: 0 <= k < |g| ==> BlockOk(code, g[k])) && EndsUnique(code, g) && |h| == |g| + 1
    requires forall k :: 0 <= k < |g| ==> h[k].instrs == g[k].instrs && h[k].address == g[k].address
    requires BlockOk(code, h[|g|]) && |h[|g|].instrs| > 0 && Last(h[|g|]) in code && code[Last(h[|g|])].kind.Plain?
    ensures EndsUnique(code, h)
  {
    NonEmpty(code, g);
    hide Run;
  }

  // ----- what the graph means

  /** Next instruction of the program; taken is the outcome of a conditional branch. A call comes back. */
  function Next(code: LCode, a: nat, taken: bool): Option<nat>
    requires a in code
  {
    match code[a].kind
    case Jump(t) => Some(t)
    case Branch(t) => Some(if taken then t else After(code, a))
    case Stop => None
    case _ => Some(After(code, a))
  }

  /** A place in the graph: block and index of the instruction. */
  datatype Place = Place(k: nat, i: nat)

  predicate PlaceOk(g: Graph, p: Place) { p.k < |g| && p.i < |g[p.k].instrs| }

  function AddressAt(g: Graph, p: Place): nat
    requires PlaceOk(g, p)
  {
    g[p.k].instrs[p.i]
  }

  function Start(link: Option<nat>): Option<Place> {
    match link case None => None case Some(k) => Some(Place(k, 0))
  }

  /** Next place; at the end of a block along its links. */
  function NextPlace(code: LCode, g: Graph, p: Place, taken: bool): Option<Place>
    requires PlaceOk(g, p)
  {
    var b := g[p.k];
    if p.i + 1 < |b.instrs| then Some(Place(p.k, p.i + 1))
    else if b.branch.Some? && (b.fallThrough == None || taken) then Start(b.branch)
    else Start(b.fallThrough)
  }

  function Walk(code: LCode, limit: nat, a: nat, choices: seq<bool>): (r: Option<nat>)
    requires CodeOk(code, limit) && a in code
    ensures r.Some? ==> r.value in code
  {
    if choices == [] then Some(a)
    else match Walk(code, limit, a, choices[..|choices| - 1])
      case None => None
      case Some(b) => Next(code, b, choices[|choices| - 1])
  }

  lemma RunKind(code: LCode, s: seq<nat>, i: nat)
    requires Run(code, s) && i < |s|
    ensures s[i] in code && (i + 1 < |s| ==> code[s[i]].kind.Plain? && s[i + 1] == After(code, s[i]))
  {}

  lemma NextAgrees(code: LCode, g: Graph, p: Place, taken: bool)
    requires GraphOk(code, g, {}) && PlaceOk(g, p)
    ensures AddressAt(g, p) in code
    ensures match NextPlace(code, g, p, taken)
            case None => Next(code, AddressAt(g, p), taken) == None
            case Some(q) => PlaceOk(g, q) && Next(code, AddressAt(g, p), taken) == Some(AddressAt(g, q))
  {
    hide PredsOk, EndsUnique, Covered;
    var b := g[p.k];
    assert BlockOk(code, b) && LinksOk(code, g, b, {});
    if p.i + 1 == |b.instrs| {
      hide Run;
      RunKind(code, b.instrs, p.i);
      if b.branch.Some? { assert BlockOk(code, g[b.branch.value]); }
      if b.fallThrough.Some? { assert BlockOk(code, g[b.fallThrough.value]); }
    }
  }

  function GraphWalk(code: LCode, g: Graph, p: Place, choices: seq<bool>): (r: Option<Place>)
    requires PlaceOk(g, p) && LinksInside(g) && forall k :: 0 <= k < |g| ==> |g[k].instrs| > 0
    ensures r.Some? ==> PlaceOk(g, r.value)
  {
    if choices == [] then Some(p)
    else match GraphWalk(code, g, p, choices[..|choices| - 1])
      case None => None
      case Some(q) => NextPlace(code, g, q, choices[|choices| - 1])
  }

  /** For all outcomes of conditional branches, following the graph visits the instructions the program executes. */
  lemma {:induction false} GraphFaithful(code: LCode, limit: nat, g: Graph, p: Place, choices: seq<bool>)
    requires CodeOk(code, limit) && GraphOk(code, g, {}) && PlaceOk(g, p)
    ensures LinksInside(g) && (forall k :: 0 <= k < |g| ==> |g[k].instrs| > 0) && AddressAt(g, p) in code
    ensures match GraphWalk(code, g, p, choices)
            case None => Walk(code, limit, AddressAt(g, p), choices) == None
            case Some(q) => Walk(code, limit, AddressAt(g, p), choices) == Some(AddressAt(g, q))
    decreases |choices|
  {
    GraphInside(code, g, {});
    assert BlockOk(code, g[p.k]);
    if choices != [] {
      GraphFaithful(code, limit, g, p, choices[..|choices| - 1]);
      var q := GraphWalk(code, g, p, choices[..|choices| - 1]);
      if q.Some? { NextAgrees(code, g, q.value, choices[|choices| - 1]); }
    }
  }
}
