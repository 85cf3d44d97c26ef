/** Recovery of the control-flow graph of a function by a recursive decoder that never decodes an end twice. */
module CfgDecoder {
  import opened Ledger
  import opened Cfg
  import opened CfgOnce

  /** A block found from behind: it starts within the straight code s, which ends like it does. */
  lemma KnownEnd(code: LCode, limit: nat, s: seq<nat>, b: BB, index: nat)
    requires CodeOk(code, limit) && Run(code, s) && !code[s[|s| - 1]].kind.Plain? && BlockOk(code, b)
    requires index < |b.instrs| && b.instrs[index] == s[|s| - 1] && s[0] !in b.instrs
    ensures index == |b.instrs| - 1 && |b.instrs| < |s|
    ensures var n := |s| - (index + 1);
            0 < n && Run(code, s[..n]) && code[s[..n][n - 1]].kind.Plain? && b.address == After(code, s[..n][n - 1])
  {
    var t := b.instrs;
    assert index == |t| - 1;
    if |t| >= |s| {
      LongerHasStart(code, limit, s, t);
      assert false;
    } else {
      SameEnd(code, limit, s, t);
      RunParts(code, s, |s| - |t|);
    }
  }

  lemma LongerHasStart(code: LCode, limit: nat, s: seq<nat>, t: seq<nat>)
    requires CodeOk(code, limit) && Run(code, s) && Run(code, t) && t[|t| - 1] == s[|s| - 1] && |t| >= |s|
    ensures s[0] in t
  {
    SameEnd(code, limit, t, s);
    assert t[|t| - |s|] == t[|t| - |s|..][0] == s[0];
  }

  lemma LessUncovered(code: LCode, g: Graph, h: Graph, a: nat)
    requires Extends(g, h) && a in code && a !in Covered(g) && a in Covered(h)
    ensures |code.Keys - Covered(h)| < |code.Keys - Covered(g)|
  {
    var x, y := code.Keys - Covered(h), code.Keys - Covered(g);
    assert x <= y - {a};
    SubsetSize(x, y - {a});
  }

  lemma {:induction false} SubsetSize(x: set<nat>, y: set<nat>)
    requires x <= y
    ensures |x| <= |y|
    decreases |x|
  {
    if x != {} {
      var a :| a in x;
      SubsetSize(x - {a}, y - {a});
    }
  }

  lemma NotCovered(g: Graph, a: nat)
    requires forall k :: 0 <= k < |g| ==> a !in g[k].instrs
    ensures a !in Covered(g)
  {}

  lemma CoveredIn(g: Graph, a: nat) returns (k: nat)
    requires a in Covered(g)
    ensures k < |g| && a in g[k].instrs
  {
    var m, i :| 0 <= m < |g| && 0 <= i < |g[m].instrs| && g[m].instrs[i] == a;
    k := m;
  }

  class LLFunction {
    const code: LCode
    const limit: nat
    var bbs: Graph
    ghost var pending: set<nat>
    ghost var asked: seq<nat>

    ghost predicate Valid()
      reads this
    {
      CodeOk(code, limit) && GraphOk(code, bbs, pending)
    }

    /** Blocks stem from the addresses asked for so far. */
    ghost predicate Tracked()
      reads this
    {
      History(code, limit, bbs, asked)
    }

    constructor (code: LCode, limit: nat)
      requires CodeOk(code, limit)
      ensures Valid() && Tracked() && bbs == [] && pending == {} && asked == [] && this.code == code &&
              this.limit == limit
    {
      this.code, this.limit := code, limit;
      bbs, pending, asked := [], {}, [];
      HistoryStart(code, limit);
    }

    /** Index of the instruction at an address in a block, or -1. */
    static method FindAddress(b: BB, address: nat) returns (index: int)
      ensures -1 <= index < |b.instrs|
      ensures index == -1 <==> address !in b.instrs
      ensures index >= 0 ==> b.instrs[index] == address && address !in b.instrs[..index]
    {
      for j := 0 to |b.instrs|
        invariant address !in b.instrs[..j]
      {
        if b.instrs[j] == address { return j; }
      }
      assert b.instrs[..|b.instrs|] == b.instrs;
      index := -1;
    }

    method AddPredecessor(k: nat, pred: int)
      requires k < |bbs|
      modifies this`bbs
      ensures bbs == old(bbs)[k := old(bbs)[k].(preds := old(bbs)[k].preds + [pred])]
    {
      bbs := bbs[k := bbs[k].(preds := bbs[k].preds + [pred])];
    }

    /** Link block e, registering it as predecessor. */
    method AddBranches(e: nat, branch: Option<nat>, fallThrough: Option<nat>)
      requires e < |bbs| && (branch.Some? ==> branch.value < |bbs|) && (fallThrough.Some? ==> fallThrough.value < |bbs|)
      modifies this`bbs
      ensures bbs == WithLinks(old(bbs), e, branch, fallThrough)
    {
      if branch.Some? {
        AddPredecessor(branch.value, e);
        bbs := bbs[e := bbs[e].(branch := branch)];
      }
      if fallThrough.Some? {
        AddPredecessor(fallThrough.value, e);
        bbs := bbs[e := bbs[e].(fallThrough := fallThrough)];
      }
    }

    /** Append a block; the first one gets the entry as predecessor. */
    method AddBasicBlock(b: BB)
      modifies this`bbs
      ensures bbs == old(bbs) + [b.(preds := b.preds + EntryPreds(old(bbs)))]
    {
      var first := bbs == [];
      bbs := bbs + [b];
      if first { AddPredecessor(0, -1); } else { assert b.preds + [] == b.preds; }
    }

    /** Cut block k before instruction i; the rest, with the links and all predecessor entries, is a new block. */
    method SplitBlock(k: nat, i: nat) returns (n: nat)
      requires k < |bbs| && 0 < i < |bbs[k].instrs|
      modifies this`bbs
      ensures bbs == Split(old(bbs), k, i) && n == |old(bbs)|
    {
      n := |bbs|;
      var b := bbs[k];
      var newBB := BB(b.instrs[i], b.instrs[i..], b.branch, b.fallThrough, []);
      bbs := bbs[k := b.(instrs := b.instrs[..i], branch := None, fallThrough := Some(n))];
      ghost var cut := bbs;
      for m := 0 to n
        invariant |bbs| == n
        invariant forall j :: 0 <= j < n ==>
                    bbs[j] == if j < m then cut[j].(preds := Renamed(cut[j].preds, k, n)) else cut[j]
      {
        RenamePreds(m, k, n);
      }
      AddBasicBlock(newBB.(preds := newBB.preds + [k]));
      assert [] + [k] + EntryPreds(cut) == [k];
      forall j | 0 <= j <= n ensures bbs[j] == Split(old(bbs), k, i)[j] {}
    }

    method RenamePreds(m: nat, k: int, n: int)
      requires m < |bbs|
      modifies this`bbs
      ensures bbs == old(bbs)[m := old(bbs)[m].(preds := Renamed(old(bbs)[m].preds, k, n))]
    {
      var preds := bbs[m].preds;
      ghost var was := preds;
      for j := 0 to |preds|
        invariant |preds| == |was|
        invariant forall x :: 0 <= x < |was| ==> preds[x] == if x < j && was[x] == k then n else was[x]
      {
        if preds[j] == k { preds := preds[j := n]; }
      }
      assert preds == Renamed(was, k, n);
      bbs := bbs[m := bbs[m].(preds := preds)];
    }

    method Truncate(k: nat, count: nat)
      requires k < |bbs| && count <= |bbs[k].instrs|
      modifies this`bbs
      ensures bbs ==
              old(bbs)[k := old(bbs)[k].(instrs := old(bbs)[k].instrs[..count], branch := None, fallThrough := None)]
    {
      bbs := bbs[k := bbs[k].(instrs := bbs[k].instrs[..count], branch := None, fallThrough := None)];
    }

    /** A block that starts at the address: a known one, the rest of a known one, or a new one. */
    method Lookup(address: nat) returns (r: Option<nat>)
      requires Valid() && address in code
      modifies this`bbs
      ensures Valid() && Extends(old(bbs), bbs)
      ensures r.Some? ==> r.value < |bbs| && bbs[r.value].address == address
      ensures r == None ==> bbs == old(bbs) && forall k :: 0 <= k < |bbs| ==> address !in bbs[k].instrs
      ensures r.Some? ==> KnownStart(code, old(bbs), bbs, address)
      ensures old(bbs) == [] ==> r == None
    {
      hide GraphOk, KnownStart;
      for i := 0 to |bbs|
        invariant bbs == old(bbs) && forall j :: 0 <= j < i ==> address !in bbs[j].instrs
      {
        var index := FindAddress(bbs[i], address);
        if index == 0 {
          StartsThere(code, bbs, pending, i);
          KnownSame(code, bbs, pending, i, address);
          return Some(i);
        }
        if index > 0 {
          SplitKeeps(code, bbs, pending, i, index);
          KnownSplit(code, limit, bbs, pending, i, index);
          var n := SplitBlock(i, index);
          return Some(n);
        }
      }
      r := None;
    }

    /** Block other than b that contains the address. */
    method OtherWith(address: nat, b: nat) returns (r: Option<nat>, index: nat)
      ensures r.Some? ==>
                && r.value < |bbs| && r.value != b && index < |bbs[r.value].instrs|
                && bbs[r.value].instrs[index] == address
      ensures r == None ==> forall k :: 0 <= k < |bbs| && k != b ==> address !in bbs[k].instrs
    {
      for i := 0 to |bbs|
        invariant forall k :: 0 <= k < i && k != b ==> address !in bbs[k].instrs
      {
        var j := FindAddress(bbs[i], address);
        if i != b && j >= 0 { return Some(i), j; }
      }
      r, index := None, 0;
    }

    /** The block that holds the end of the one just decoded; it may have been split meanwhile. */
    method EndOf(address: nat) returns (e: nat)
      requires Valid() && address in pending
      ensures e < |bbs| && Last(bbs[e]) == address
    {
      var r, index := OtherWith(address, |bbs|);
      ghost var k := CoveredIn(bbs, address);
      assert r.Some?;
      e := r.value;
      assert BlockOk(code, bbs[e]);
    }

    /** Decode the block at an address and everything it leads to. */
    method DecodeDedup(address: nat) returns (r: nat)
      requires Valid() && Tracked() && address in code
      modifies this
      ensures Valid() && pending == old(pending) && Extends(old(bbs), bbs)
      ensures Tracked() && InCode(code, old(asked)) && asked == Requests(code, limit, old(asked), address)
      ensures r < |bbs| && bbs[r].address == address
      ensures old(bbs) == [] ==> r == 0
      decreases |code.Keys - Covered(bbs)|, 0
    {
      hide GraphOk, Covered, Extends, Run, CodeOk, WithFallThrough, History, InCode, Requests, Followed, EndFrom,
           EndsOf;
      hide KnownStart, Straight, SameBlocks;
      ghost var was, g := asked, bbs;
      HistoryFacts(code, limit, bbs, asked, address);
      var known := Lookup(address);
      if known.Some? {
        HistoryLookup(code, limit, g, bbs, was, address);
        asked := asked + [address];
        return known.value;
      }
      NotCovered(g, address);
      r := |bbs|;
      var dbb := Straight(code, limit, address);
      var end := dbb[|dbb| - 1];
      Targets(code, limit, dbb);
      AddBasicBlock(BB(address, dbb, None, None, []));
      assert [] + EntryPreds(g) == EntryPreds(g) && bbs == g + [BB(dbb[0], dbb, None, None, EntryPreds(g))];
      var other, index := OtherWith(end, r);
      if other.Some? {
        CutOff(g, dbb, other.value, index);
        HistoryCutOff(code, limit, g, bbs, was, address, other.value, index);
        asked := asked + [address];
        return;
      }
      assert forall k :: 0 <= k < |g| ==> bbs[k] == g[k];
      BlockStarts(code, g, pending, dbb);
      pending := pending + {end};
      ghost var h := bbs;
      HistoryEnd(code, limit, g, was, BB(address, dbb, None, None, EntryPreds(g)));
      asked := asked + [address];
      Follow(end);
      ExtendsTrans(g, h, bbs);
      StaysAt(h, bbs, r);
      assert pending == old(pending);
    }

    /** The new last block is cut where block o starts, whose instruction at index is its end. */
    method CutOff(ghost g: Graph, dbb: seq<nat>, o: nat, index: nat)
      requires CodeOk(code, limit) && GraphOk(code, g, pending) && Run(code, dbb) && |dbb| > 0
      requires dbb[|dbb| - 1] in code && !code[dbb[|dbb| - 1]].kind.Plain?
      requires bbs == g + [BB(dbb[0], dbb, None, None, EntryPreds(g))]
      requires forall k :: 0 <= k < |g| ==> dbb[0] !in g[k].instrs
      requires o < |g| && index < |g[o].instrs| && g[o].instrs[index] == dbb[|dbb| - 1]
      modifies this`bbs
      ensures Valid() && Extends(g, bbs) && |bbs| == |g| + 1 && bbs[|g|].address == dbb[0]
      ensures asked == old(asked) && index < |dbb|
      ensures SameBlocks(g + [BB(dbb[0], dbb[..|dbb| - (index + 1)], None, None, EntryPreds(g))], bbs)
    {
      hide GraphOk, Covered, Extends, Run, CodeOk, WithFallThrough;
      var r := |bbs| - 1;
      CutBefore(code, limit, g, pending, dbb, o, index);
      var count := |dbb| - (index + 1);
      TruncateKeeps(code, g, pending, dbb[..count], o);
      Truncate(r, count);
      ghost var cut := bbs;
      assert cut == g + [BB(dbb[0], dbb[..count], None, None, EntryPreds(g))];
      AddBranches(r, None, Some(o));
      OnlyFallThrough(cut, r, o);
      LinksSame(cut, r, None, Some(o));
    }

    /** Decode what the end of a block leads to, then link the block that holds the end by now. */
    method Follow(end: nat)
      requires Valid() && Tracked() && end in pending && end in code && !code[end].kind.Plain?
      modifies this
      ensures Valid() && pending == old(pending) - {end} && Extends(old(bbs), bbs)
      ensures Tracked() && InCode(code, old(asked)) && asked == Followed(code, limit, old(asked), end)
      decreases |code.Keys - Covered(bbs)|, 1
    {
      hide GraphOk, Covered, Extends, CodeOk, WithLinks, History, InCode, Requests, Followed, EndFrom, EndsOf;
      ghost var h, was := bbs, asked;
      HistoryFacts(code, limit, bbs, asked, end);
      var next, fallThrough := None, None;
      EndTargets(code, limit, bbs, pending, end);
      if code[end].kind.Branch? || code[end].kind.Call? {
        var f := DecodeDedup(After(code, end));
        fallThrough := Some(f);
      }
      ghost var i := bbs;
      Shrinks(code, h, i);
      if code[end].kind.Jump? || code[end].kind.Branch? {
        var n := DecodeDedup(code[end].kind.target);
        next := Some(n);
        FallThroughStays(i, bbs, fallThrough, After(code, end));
      }
      Shrinks(code, i, bbs);
      ghost var j := bbs;
      var e := EndOf(end);
      LinkKeeps(code, bbs, pending, e, next, fallThrough);
      AddBranches(e, next, fallThrough);
      LinksSame(j, e, next, fallThrough);
      HistorySame(code, limit, j, bbs, asked);
      FollowedStep(code, limit, was, end);
      pending := pending - {end};
      ExtendsTrans(h, i, j);
      ExtendsTrans(h, j, bbs);
    }
  }

  /** What is left of known blocks when a request leads to one of them. */
  predicate KnownStart(code: LCode, g: Graph, h: Graph, a: nat) {
    a in Covered(g) && EachOnce(h) == EachOnce(g) && Covered(g) <= Covered(h) && Starts(h, a) && NewAt(g, h, a)
    && AllBlocksOk(code, h)
  }

  lemma KnownSame(code: LCode, g: Graph, pending: set<nat>, k: nat, a: nat)
    requires GraphOk(code, g, pending) && k < |g| && g[k].address == a
    ensures KnownStart(code, g, g, a)
  {
    assert BlockOk(code, g[k]) && a in g[k].instrs;
    IsCovered(g, a);
  }

  lemma KnownSplit(code: LCode, limit: nat, g: Graph, pending: set<nat>, k: nat, i: nat)
    requires CodeOk(code, limit) && GraphOk(code, g, pending) && k < |g| && 0 < i < |g[k].instrs|
    ensures KnownStart(code, g, Split(g, k, i), g[k].instrs[i])
  {
    hide EachOnce, Covered, PredsOk, LinksOk, Run, EndsUnique, CodeOk, GraphOk, Split, Starts, NewAt, Extends,
         AllBlocksOk;
    SplitKeeps(code, g, pending, k, i);
    GraphBlocks(code, g, pending);
    GraphBlocks(code, Split(g, k, i), pending);
    BlockAt(code, g, k);
    OnceSplit(code, limit, g, k, i);
    StartsInside(g, Split(g, k, i), k, i);
    ExtendsCovers(g, Split(g, k, i));
  }

  lemma GraphBlocks(code: LCode, g: Graph, pending: set<nat>)
    requires GraphOk(code, g, pending)
    ensures AllBlocksOk(code, g)
  {}

  lemma BlockAt(code: LCode, g: Graph, k: nat)
    requires AllBlocksOk(code, g) && k < |g|
    ensures BlockOk(code, g[k])
  {}

  lemma ExtendsCovers(g: Graph, h: Graph)
    requires Extends(g, h)
    ensures Covered(g) <= Covered(h)
  {}

  lemma StartsInside(g: Graph, h: Graph, k: nat, i: nat)
    requires k < |g| && i < |g[k].instrs| && Extends(g, h) && |h| == |g| + 1 && h[|g|].address == g[k].instrs[i]
    ensures g[k].instrs[i] in Covered(g) && Starts(h, g[k].instrs[i]) && NewAt(g, h, g[k].instrs[i])
  {
    hide Covered;
    IsCovered(g, g[k].instrs[i]);
  }

  lemma HistoryFacts(code: LCode, limit: nat, g: Graph, asked: seq<nat>, a: nat)
    requires History(code, limit, g, asked) && a in code
    ensures InCode(code, asked) && InCode(code, asked + [a])
  {}

  lemma HistoryLookup(code: LCode, limit: nat, g: Graph, h: Graph, asked: seq<nat>, a: nat)
    requires History(code, limit, g, asked) && KnownStart(code, g, h, a)
    ensures a in code && InCode(code, asked) && History(code, limit, h, asked + [a])
    ensures Requests(code, limit, asked, a) == asked + [a]
  {
    hide CodeOk, InCode, EndsKnown, Late, Tiled, EachOnce, Covered, EndsOf, EndFrom, AllBlocksOk, Starts, NewAt;
    HistoryKnown(code, limit, g, h, asked, a);
  }

  lemma HistoryCutOff(code: LCode, limit: nat, g: Graph, h: Graph, asked: seq<nat>, a: nat, o: nat, index: nat)
    requires History(code, limit, g, asked) && a in code && a !in Covered(g) && o < |g| && index < |g[o].instrs|
    requires var s := Straight(code, limit, a);
             && g[o].instrs[index] == s[|s| - 1] && index < |s|
             && SameBlocks(g + [BB(a, s[..|s| - (index + 1)], None, None, EntryPreds(g))], h)
    ensures InCode(code, asked) && History(code, limit, h, asked + [a])
    ensures Requests(code, limit, asked, a) == asked + [a]
  {
    hide CodeOk, EachOnce, Covered, EndsOf, AllBlocksOk, SameBlocks, Run, InCode, EndsKnown, Late, Tiled, EndFrom,
         Straight, Cut;
    var s := Straight(code, limit, a);
    var b := BB(a, s[..|s| - (index + 1)], None, None, EntryPreds(g));
    IsCut(code, limit, g, a, o, index, b);
    HistoryCut(code, limit, g, asked, a, o, b);
    HistorySame(code, limit, g + [b], h, asked + [a]);
  }

  lemma IsCut(code: LCode, limit: nat, g: Graph, a: nat, o: nat, index: nat, b: BB)
    requires CodeOk(code, limit) && AllBlocksOk(code, g) && a in code && a !in Covered(g) && o < |g| &&
             index < |g[o].instrs|
    requires var s := Straight(code, limit, a);
             g[o].instrs[index] == s[|s| - 1] && index < |s| && b.address == a && b.instrs == s[..|s| - (index + 1)]
    ensures Cut(code, limit, g, a, o, b)
  {
    hide CodeOk, Covered, Run;
    BlockAt(code, g, o);
    IsCovered(g, a);
    KnownEnd(code, limit, Straight(code, limit, a), g[o], index);
  }

  lemma HistoryEnd(code: LCode, limit: nat, g: Graph, asked: seq<nat>, b: BB)
    requires History(code, limit, g, asked) && b.address in code && b.instrs == Straight(code, limit, b.address)
    requires forall k :: 0 <= k < |g| ==> b.instrs[|b.instrs| - 1] !in g[k].instrs
    ensures InCode(code, asked) && History(code, limit, g + [b], asked + [b.address])
    ensures InCode(code, asked + [b.address])
    ensures Requests(code, limit, asked, b.address) ==
            Followed(code, limit, asked + [b.address], b.instrs[|b.instrs| - 1])
  {
    hide CodeOk, InCode, EndsKnown, Late, Tiled, EachOnce, Covered, EndsOf, AllBlocksOk, Followed;
    assert BlockOk(code, b);
    NotCovered(g, b.instrs[|b.instrs| - 1]);
    HistoryNewEnd(code, limit, g, asked, b);
    HistoryFacts(code, limit, g, asked, b.address);
  }

  lemma LinksSame(g: Graph, e: nat, br: Option<nat>, ft: Option<nat>)
    requires e < |g| && (br.Some? ==> br.value < |g|) && (ft.Some? ==> ft.value < |g|)
    ensures SameBlocks(g, WithLinks(g, e, br, ft))
  {}

  lemma EndTargets(code: LCode, limit: nat, g: Graph, pending: set<nat>, a: nat)
    requires CodeOk(code, limit) && GraphOk(code, g, pending) && a in pending
    ensures a in code && !code[a].kind.Plain?
    ensures Continues(code[a].kind) ==> After(code, a) in code
    ensures Jumps(code[a].kind) ==> code[a].kind.target in code
  {}

  lemma OnlyFallThrough(g: Graph, e: nat, t: nat)
    requires e < |g| && t < |g|
    ensures WithLinks(g, e, None, Some(t)) == WithFallThrough(g, e, t)
    ensures WithFallThrough(g, e, t)[e].address == g[e].address
  {}

  lemma CutBefore(code: LCode, limit: nat, g: Graph, pending: set<nat>, s: seq<nat>, o: nat, index: nat)
    requires CodeOk(code, limit) && GraphOk(code, g, pending) && Run(code, s) && |s| > 0 && s[|s| - 1] in code
    requires !code[s[|s| - 1]].kind.Plain?
    requires o < |g| && index < |g[o].instrs| && g[o].instrs[index] == s[|s| - 1] && s[0] !in g[o].instrs
    ensures index + 1 < |s|
    ensures var n := |s| - (index + 1);
            && Run(code, s[..n]) && s[..n][n - 1] in code && code[s[..n][n - 1]].kind.Plain?
            && g[o].address == After(code, s[..n][n - 1]) && s[..n][0] == s[0]
  {
    assert BlockOk(code, g[o]);
    KnownEnd(code, limit, s, g[o], index);
  }

  lemma NewEnd(code: LCode, g: Graph, pending: set<nat>, end: nat)
    requires GraphOk(code, g, pending) && forall k :: 0 <= k < |g| ==> end !in g[k].instrs
    ensures forall k :: 0 <= k < |g| ==> |g[k].instrs| > 0 && Last(g[k]) != end
  {
    forall k | 0 <= k < |g| ensures |g[k].instrs| > 0 && Last(g[k]) != end { assert BlockOk(code, g[k]); }
  }

  lemma Targets(code: LCode, limit: nat, s: seq<nat>)
    requires CodeOk(code, limit) && Run(code, s)
    ensures |s| > 0 && s[|s| - 1] in code
    ensures var a := s[|s| - 1];
            && (Continues(code[a].kind) ==> After(code, a) in code)
            && (Jumps(code[a].kind) ==> code[a].kind.target in code)
  {}

  lemma Shrinks(code: LCode, h: Graph, i: Graph)
    requires i == h || Extends(h, i)
    ensures |code.Keys - Covered(i)| <= |code.Keys - Covered(h)| && Extends(h, i)
  {
    SubsetSize(code.Keys - Covered(i), code.Keys - Covered(h));
  }

  lemma FallThroughStays(i: Graph, j: Graph, link: Option<nat>, a: nat)
    requires Extends(i, j) && (link.Some? ==> GoesTo(i, link, a))
    ensures link.Some? ==> GoesTo(j, link, a)
  {}

  lemma StaysAt(g: Graph, h: Graph, k: nat)
    requires Extends(g, h) && k < |g|
    ensures k < |h| && h[k].address == g[k].address
  {}

  lemma BlockStarts(code: LCode, g: Graph, pending: set<nat>, s: seq<nat>)
    requires GraphOk(code, g, pending) && Run(code, s) && !code[s[|s| - 1]].kind.Plain?
    requires |s| > 0 && s[0] in code && s[0] !in Covered(g)
    requires forall k :: 0 <= k < |g| ==> s[|s| - 1] !in g[k].instrs
    ensures var h, end := g + [BB(s[0], s, None, None, EntryPreds(g))], s[|s| - 1];
            && GraphOk(code, h, pending + {end}) && Extends(g, h) && end !in pending
            && |code.Keys - Covered(h)| < |code.Keys - Covered(g)|
  {
    hide GraphOk, Covered, Extends, Run;
    var h := g + [BB(s[0], s, None, None, EntryPreds(g))];
    NewEnd(code, g, pending, s[|s| - 1]);
    AppendKeeps(code, g, pending, s);
    LessUncovered(code, g, h, s[0]);
    PendingCovered(code, g, pending, s[|s| - 1]);
  }

  lemma PendingCovered(code: LCode, g: Graph, pending: set<nat>, a: nat)
    requires GraphOk(code, g, pending) && forall k :: 0 <= k < |g| ==> a !in g[k].instrs
    ensures a !in pending
  {
    NotCovered(g, a);
  }

  /** Decode a function. The graph is complete, starts at the function's address, and following it visits the
      instructions the program executes, whatever its conditional branches do. No instruction is in two blocks
      exactly if no request of the recursion is late. */
  method DecodeFunction(code: LCode, limit: nat, address: nat) returns (f: LLFunction)
    requires CodeOk(code, limit) && address in code
    ensures f.code == code && GraphOk(code, f.bbs, {}) && |f.bbs| > 0 && f.bbs[0].address == address
    ensures InCode(code, []) && (EachOnce(f.bbs) <==> !Late(code, limit, Requests(code, limit, [], address)))
    ensures fresh(f)
  {
    f := new LLFunction(code, limit);
    var r := f.DecodeDedup(address);
    OnceExact(code, limit, f.bbs, f.asked);
  }

  /** From the first block the graph of a decoded function is faithful. */
  lemma EntryFaithful(code: LCode, limit: nat, g: Graph, address: nat, choices: seq<bool>)
    requires CodeOk(code, limit) && GraphOk(code, g, {}) && |g| > 0 && g[0].address == address
    ensures LinksInside(g) && (forall k :: 0 <= k < |g| ==> |g[k].instrs| > 0) && address in code
    ensures match GraphWalk(code, g, Place(0, 0), choices)
            case None => Walk(code, limit, address, choices) == None
            case Some(q) => Walk(code, limit, address, choices) == Some(AddressAt(g, q))
  {
    assert BlockOk(code, g[0]);
    GraphFaithful(code, limit, g, Place(0, 0), choices);
  }

  lemma StartsThere(code: LCode, g: Graph, pending: set<nat>, k: nat)
    requires GraphOk(code, g, pending) && k < |g|
    ensures |g[k].instrs| > 0 && g[k].instrs[0] == g[k].address
  {
    assert BlockOk(code, g[k]);
  }
}
