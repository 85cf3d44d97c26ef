/** When every instruction belongs to exactly one block, and when the decoder puts one into two. */
module CfgOnce {
  import opened Ledger
  import opened Cfg

  // ----- straight code

  /** The instruction that ends the straight code from a. */
  function EndFrom(code: LCode, limit: nat, a: nat): (e: nat)
    requires CodeOk(code, limit) && a in code
    ensures e in code && !code[e].kind.Plain?
  {
    var s := Straight(code, limit, a);
    s[|s| - 1]
  }

  /** A run is the beginning of the straight code from its first instruction. */
  lemma {:induction false} RunPrefix(code: LCode, limit: nat, s: seq<nat>)
    requires CodeOk(code, limit) && Run(code, s)
    ensures |s| <= |Straight(code, limit, s[0])| && Straight(code, limit, s[0])[..|s|] == s
    decreases |s|
  {
    hide CodeOk;
    if |s| == 1 {
      assert s == [s[0]];
    } else {
      RunParts(code, s, 1);
      RunPrefix(code, limit, s[1..]);
      assert s == [s[0]] + s[1..];
      var rest := Straight(code, limit, s[1]);
      assert Straight(code, limit, s[0]) == [s[0]] + rest;
      assert ([s[0]] + rest)[..|s|] == [s[0]] + rest[..|s| - 1];
    }
  }

  /** Straight code from the inside of straight code is its rest. */
  lemma Inside(code: LCode, limit: nat, a: nat, i: nat)
    requires CodeOk(code, limit) && a in code && i < |Straight(code, limit, a)|
    ensures var s := Straight(code, limit, a);
            && s[i] in code && Straight(code, limit, s[i]) == s[i..]
            && EndFrom(code, limit, s[i]) == EndFrom(code, limit, a)
  {
    hide CodeOk, Run;
    var s := Straight(code, limit, a);
    if i > 0 { RunParts(code, s, i); }
    var t, u := s[i..], Straight(code, limit, s[i]);
    RunPrefix(code, limit, t);
    EndsThere(code, u, |t| - 1, t);
    assert t == u[..|t|] == u;
  }

  lemma EndsThere(code: LCode, u: seq<nat>, i: nat, t: seq<nat>)
    requires Run(code, u) && i < |u| && |t| == i + 1 && t == u[..i + 1] && !code[t[i]].kind.Plain?
    ensures i == |u| - 1
  {
    assert t[i] == u[i];
  }

  lemma Within(code: LCode, limit: nat, a: nat, x: nat)
    requires CodeOk(code, limit) && a in code && x in Straight(code, limit, a)
    ensures x in code && a <= x && EndFrom(code, limit, x) == EndFrom(code, limit, a)
    ensures forall y :: y in Straight(code, limit, x) ==> y in Straight(code, limit, a)
  {
    var s := Straight(code, limit, a);
    var i :| 0 <= i < |s| && s[i] == x;
    Inside(code, limit, a, i);
    Increasing(code, limit, s, 0, i);
  }

  lemma {:induction false} Increasing(code: LCode, limit: nat, s: seq<nat>, i: nat, j: nat)
    requires CodeOk(code, limit) && Run(code, s) && i <= j < |s|
    ensures s[i] + (j - i) <= s[j]
    decreases j
  {
    if i < j {
      Increasing(code, limit, s, i, j - 1);
      assert s[j - 1 + 1] == After(code, s[j - 1]);
    }
  }

  /** Of two addresses with the same end, the higher one is in the straight code from the lower one. */
  lemma Comparable(code: LCode, limit: nat, a: nat, b: nat)
    requires CodeOk(code, limit) && a in code && b in code && EndFrom(code, limit, a) == EndFrom(code, limit, b)
    ensures a <= b ==> b in Straight(code, limit, a)
    ensures b <= a ==> a in Straight(code, limit, b)
  {
    var s, t := Straight(code, limit, a), Straight(code, limit, b);
    if |t| <= |s| {
      SameEnd(code, limit, s, t);
      assert s[|s| - |t|] == s[|s| - |t|..][0] == b;
      Within(code, limit, a, b);
    } else {
      SameEnd(code, limit, t, s);
      assert t[|t| - |s|] == t[|t| - |s|..][0] == a;
      Within(code, limit, b, a);
    }
  }

  lemma InBlock(code: LCode, limit: nat, b: BB, x: nat)
    requires CodeOk(code, limit) && BlockOk(code, b) && x in b.instrs
    ensures b.address in code && x in Straight(code, limit, b.address)
  {
    RunPrefix(code, limit, b.instrs);
  }

  // ----- instructions in blocks

  /** No instruction is in two blocks. */
  predicate EachOnce(g: Graph) {
    forall j, k, x :: 0 <= j < k < |g| ==> !(x in g[j].instrs && x in g[k].instrs)
  }

  lemma SplitInstrs(g: Graph, k: nat, i: nat)
    requires k < |g| && 0 < i < |g[k].instrs|
    ensures forall j :: 0 <= j < |g| ==>
              Split(g, k, i)[j].instrs == if j == k then g[k].instrs[..i] else g[j].instrs
    ensures Split(g, k, i)[|g|].instrs == g[k].instrs[i..]
  {}

  lemma OnceSplit(code: LCode, limit: nat, g: Graph, k: nat, i: nat)
    requires CodeOk(code, limit) && k < |g| && 0 < i < |g[k].instrs| && BlockOk(code, g[k])
    ensures EachOnce(Split(g, k, i)) <==> EachOnce(g)
    ensures forall x :: x in Covered(Split(g, k, i)) <==> x in Covered(g)
  {
    hide CodeOk, Covered, Split, Run;
    var s, n, h := g[k].instrs, |g|, Split(g, k, i);
    assert s == s[..i] + s[i..];
    PartsApart(code, limit, s, i);
    SplitInstrs(g, k, i);
    forall x ensures x in Covered(h) <==> x in Covered(g) {
      IsCovered(h, x);
      IsCovered(g, x);
      if x in g[k].instrs { assert x in h[k].instrs || x in h[n].instrs; }
    }
    if EachOnce(h) {
      forall j, m, x | 0 <= j < m < n ensures !(x in g[j].instrs && x in g[m].instrs) {
        if x in g[k].instrs { assert x in h[k].instrs || x in h[n].instrs; }
      }
    }
  }

  lemma PartsApart(code: LCode, limit: nat, s: seq<nat>, i: nat)
    requires CodeOk(code, limit) && Run(code, s) && i <= |s|
    ensures forall x :: !(x in s[..i] && x in s[i..])
  {
    forall x | x in s[..i] && x in s[i..] ensures false {
      var p :| 0 <= p < i && s[..i][p] == x;
      var q :| 0 <= q < |s| - i && s[i..][q] == x;
      Increasing(code, limit, s, p, i + q);
    }
  }

  lemma IsCovered(g: Graph, x: nat)
    ensures x in Covered(g) <==> exists k :: 0 <= k < |g| && x in g[k].instrs
  {
    if k :| 0 <= k < |g| && x in g[k].instrs {
      var i :| 0 <= i < |g[k].instrs| && g[k].instrs[i] == x;
    }
  }

  lemma OnceSame(g: Graph, h: Graph)
    requires |g| == |h| && forall k :: 0 <= k < |g| ==> h[k].instrs == g[k].instrs
    ensures EachOnce(h) <==> EachOnce(g)
  {}

  /** A new block shares nothing exactly if none of its instructions is known. */
  lemma OnceAppend(g: Graph, b: BB)
    ensures EachOnce(g + [b]) <==> EachOnce(g) && forall x :: x in b.instrs ==> x !in Covered(g)
  {
    var h := g + [b];
    if EachOnce(h) {
      forall x | x in b.instrs ensures x !in Covered(g) {
        IsCovered(g, x);
        assert forall k :: 0 <= k < |g| ==> h[k] == g[k];
        assert h[|g|] == b;
      }
      forall j, k, x | 0 <= j < k < |g| ensures !(x in g[j].instrs && x in g[k].instrs) {
        assert h[j] == g[j] && h[k] == g[k];
      }
    }
    if EachOnce(g) && forall x :: x in b.instrs ==> x !in Covered(g) {
      forall j, k, x | 0 <= j < k < |h| ensures !(x in h[j].instrs && x in h[k].instrs) {
        IsCovered(g, x);
      }
    }
  }

  lemma OnceStays(g: Graph, b: BB)
    ensures EachOnce(g + [b]) ==> EachOnce(g)
  {
    OnceAppend(g, b);
  }

  /** The instruction before one inside a block is the one before it in any run. */
  lemma {:induction false} BackToStart(code: LCode, limit: nat, s: seq<nat>, i: nat, t: seq<nat>, q: nat)
    requires CodeOk(code, limit) && Run(code, s) && Run(code, t) && i < |s| && q < |t| && s[i] == t[q]
    ensures i < q ==> s[0] in t
    ensures q <= i ==> s[i - q] == t[0]
    decreases q
  {
    if q > 0 && i > 0 {
      assert s[i - 1 + 1] == After(code, s[i - 1]) && t[q - 1 + 1] == After(code, t[q - 1]);
      assert s[i - 1] == t[q - 1];
      BackToStart(code, limit, s, i - 1, t, q - 1);
    }
  }

  /** What is kept of new straight code shares no instruction with known blocks exactly if no known block starts
      inside it. */
  lemma KeptOnce(code: LCode, limit: nat, g: Graph, s: seq<nat>, n: nat)
    requires CodeOk(code, limit) && (forall k :: 0 <= k < |g| ==> BlockOk(code, g[k])) && Run(code, s)
    requires 0 < n <= |s| && s[0] !in Covered(g)
    ensures (forall i :: 0 <= i < n ==> s[i] !in Covered(g)) <==>
            (forall k :: 0 <= k < |g| ==> g[k].address !in s[1..n])
  {
    hide CodeOk, Covered;
    if i :| 0 <= i < n && s[i] in Covered(g) {
      IsCovered(g, s[i]);
      var k :| 0 <= k < |g| && s[i] in g[k].instrs;
      assert BlockOk(code, g[k]);
      var q :| 0 <= q < |g[k].instrs| && g[k].instrs[q] == s[i];
      IsCovered(g, s[0]);
      BackToStart(code, limit, s, i, g[k].instrs, q);
      assert g[k].instrs[0] in g[k].instrs;
      assert s[1..n][i - q - 1] == s[i - q] == g[k].address;
    }
    if k :| 0 <= k < |g| && g[k].address in s[1..n] {
      assert BlockOk(code, g[k]);
      var j :| 0 <= j < n - 1 && s[1..n][j] == g[k].address;
      IsCovered(g, s[j + 1]);
    }
  }

  // ----- addresses the decoder is asked for

  /** All of them are addresses of instructions. */
  predicate InCode(code: LCode, asked: seq<nat>) { forall a <- asked :: a in code }

  function EndsOf(code: LCode, limit: nat, asked: seq<nat>): (e: set<nat>)
    requires CodeOk(code, limit) && InCode(code, asked)
    ensures e <= code.Keys
  {
    set a | a in asked :: EndFrom(code, limit, a)
  }

  /** Addresses asked for, in order, when a is asked for after others: behind an end seen for the first time come
      its fall-through and its target. */
  function Requests(code: LCode, limit: nat, asked: seq<nat>, a: nat): (r: seq<nat>)
    requires CodeOk(code, limit) && InCode(code, asked) && a in code
    ensures asked <= r && asked + [a] <= r && InCode(code, r)
    decreases |code.Keys - EndsOf(code, limit, asked)|, 0
  {
    var h := asked + [a];
    var e := EndFrom(code, limit, a);
    if e in EndsOf(code, limit, asked) then h
    else
      assert EndsOf(code, limit, asked) <= EndsOf(code, limit, h) && e in EndsOf(code, limit, h) by {
        MoreEnds(code, limit, asked, h);
      }
      FewerLeft(code.Keys, EndsOf(code, limit, asked), EndsOf(code, limit, h), e);
      Followed(code, limit, h, e)
  }

  function Followed(code: LCode, limit: nat, asked: seq<nat>, e: nat): (r: seq<nat>)
    requires CodeOk(code, limit) && InCode(code, asked) && e in code && !code[e].kind.Plain?
    ensures asked <= r && InCode(code, r)
    decreases |code.Keys - EndsOf(code, limit, asked)|, 1
  {
    hide CodeOk, InCode, EndFrom, EndsOf;
    EndGoes(code, limit, e);
    var h := if Continues(code[e].kind) then Requests(code, limit, asked, After(code, e)) else asked;
    LessToAsk(code, limit, asked, h);
    if Jumps(code[e].kind) then Requests(code, limit, h, code[e].kind.target) else h
  }

  lemma LessToAsk(code: LCode, limit: nat, asked: seq<nat>, h: seq<nat>)
    requires CodeOk(code, limit) && InCode(code, asked) && InCode(code, h) && asked <= h
    ensures |code.Keys - EndsOf(code, limit, h)| <= |code.Keys - EndsOf(code, limit, asked)|
  {
    hide CodeOk, InCode, EndFrom, EndsOf;
    MoreEnds(code, limit, asked, h);
    NoMoreLeft(code.Keys, EndsOf(code, limit, asked), EndsOf(code, limit, h));
  }

  lemma EndGoes(code: LCode, limit: nat, e: nat)
    requires CodeOk(code, limit) && e in code
    ensures Continues(code[e].kind) ==> After(code, e) in code
    ensures Jumps(code[e].kind) ==> code[e].kind.target in code
  {}

  lemma MoreEnds(code: LCode, limit: nat, asked: seq<nat>, h: seq<nat>)
    requires CodeOk(code, limit) && InCode(code, asked) && InCode(code, h) && asked <= h
    ensures EndsOf(code, limit, asked) <= EndsOf(code, limit, h)
    ensures |h| == |asked| + 1 ==>
            EndsOf(code, limit, h) == EndsOf(code, limit, asked) + {EndFrom(code, limit, h[|asked|])}
  {
    hide CodeOk, EndFrom;
    assert forall i :: 0 <= i < |asked| ==> asked[i] == h[i];
  }

  lemma FewerLeft(all: set<nat>, x: set<nat>, y: set<nat>, e: nat)
    requires x <= y <= all && e in y && e !in x
    ensures |all - y| < |all - x|
  {
    NoMoreLeft(all - {e}, x, y - {e});
    assert all - y == (all - {e}) - (y - {e}) && (all - {e}) - x == (all - x) - {e};
  }

  lemma NoMoreLeft(all: set<nat>, x: set<nat>, y: set<nat>)
    requires x <= y
    ensures |all - y| <= |all - x|
  {
    var a, b := all - y, all - x;
    assert b == a + (b - a);
  }

  // ----- when an instruction gets into two blocks

  /** Request k is for an address before all earlier ones with the same end, of which there were two. */
  predicate LateAt(code: LCode, limit: nat, r: seq<nat>, k: nat)
    requires CodeOk(code, limit) && InCode(code, r) && k < |r|
  {
    && (forall j :: 0 <= j < k && EndFrom(code, limit, r[j]) == EndFrom(code, limit, r[k]) ==> r[k] < r[j])
    && (exists i, j :: 0 <= i < j < k && r[i] != r[j]
          && EndFrom(code, limit, r[i]) == EndFrom(code, limit, r[k]) == EndFrom(code, limit, r[j]))
  }

  predicate Late(code: LCode, limit: nat, r: seq<nat>)
    requires CodeOk(code, limit) && InCode(code, r)
  {
    exists k :: 0 <= k < |r| && LateAt(code, limit, r, k)
  }

  lemma LateGrows(code: LCode, limit: nat, r: seq<nat>, a: nat)
    requires CodeOk(code, limit) && InCode(code, r) && a in code
    ensures InCode(code, r + [a])
    ensures Late(code, limit, r + [a]) <==> Late(code, limit, r) || LateAt(code, limit, r + [a], |r|)
  {
    var h := r + [a];
    assert InCode(code, h) && r <= h;
    hide LateAt, InCode, CodeOk;
    forall k | 0 <= k < |r| ensures LateAt(code, limit, h, k) == LateAt(code, limit, r, k) {
      LateSame(code, limit, r, h, k);
    }
    if Late(code, limit, r) {
      var k :| 0 <= k < |r| && LateAt(code, limit, r, k);
      assert LateAt(code, limit, h, k);
    }
  }

  lemma LateSame(code: LCode, limit: nat, r: seq<nat>, h: seq<nat>, k: nat)
    requires CodeOk(code, limit) && InCode(code, r) && InCode(code, h) && r <= h && k < |r|
    ensures LateAt(code, limit, h, k) == LateAt(code, limit, r, k)
  {
    hide CodeOk, EndFrom;
    assert forall i :: 0 <= i < |r| ==> h[i] == r[i];
  }

  predicate Starts(g: Graph, a: nat) { exists k :: 0 <= k < |g| && g[k].address == a }

  /** The straight code from a is in blocks. */
  predicate Covers(code: LCode, limit: nat, g: Graph, a: nat)
    requires CodeOk(code, limit) && a in code
  {
    forall x <- Straight(code, limit, a) :: x in Covered(g)
  }

  /** Blocks start at the addresses asked for, and hold the straight code from there once. */
  predicate Tiled(code: LCode, limit: nat, g: Graph, asked: seq<nat>)
    requires CodeOk(code, limit) && InCode(code, asked)
  {
    && EachOnce(g)
    && (forall k :: 0 <= k < |g| ==> g[k].address in asked)
    && (forall i :: 0 <= i < |asked| ==> asked[i] in code && Starts(g, asked[i]) && Covers(code, limit, g, asked[i]))
  }

  /** The ends of blocks are those of addresses asked for. */
  predicate EndsKnown(code: LCode, limit: nat, g: Graph, asked: seq<nat>)
    requires CodeOk(code, limit) && InCode(code, asked)
  {
    && (forall k :: 0 <= k < |g| ==>
          g[k].address in code && EndFrom(code, limit, g[k].address) in EndsOf(code, limit, asked))
    && EndsOf(code, limit, asked) <= Covered(g)
  }

  predicate AllBlocksOk(code: LCode, g: Graph) { forall k :: 0 <= k < |g| ==> BlockOk(code, g[k]) }

  /** No instruction is in two blocks exactly if no request was late. */
  predicate History(code: LCode, limit: nat, g: Graph, asked: seq<nat>) {
    && CodeOk(code, limit) && InCode(code, asked) && AllBlocksOk(code, g) && EndsKnown(code, limit, g, asked)
    && (if Late(code, limit, asked) then !EachOnce(g) else Tiled(code, limit, g, asked))
  }

  /** A known instruction has a known end, in a block that starts at or before it. */
  lemma KnownHasEnd(code: LCode, limit: nat, g: Graph, asked: seq<nat>, x: nat) returns (k: nat)
    requires CodeOk(code, limit) && InCode(code, asked) && AllBlocksOk(code, g) && EndsKnown(code, limit, g, asked)
    requires x in Covered(g)
    ensures k < |g| && x in g[k].instrs && g[k].address in code && x in Straight(code, limit, g[k].address)
    ensures x in code && g[k].address <= x && EndFrom(code, limit, x) == EndFrom(code, limit, g[k].address)
    ensures EndFrom(code, limit, x) in EndsOf(code, limit, asked)
  {
    hide Covered, EndsOf, CodeOk, InCode, EndFrom;
    IsCovered(g, x);
    k :| 0 <= k < |g| && x in g[k].instrs;
    InBlock(code, limit, g[k], x);
    Within(code, limit, g[k].address, x);
  }

  /** Asking for a known instruction is not late. */
  lemma KnownNotLate(code: LCode, limit: nat, asked: seq<nat>, a: nat, j: nat)
    requires CodeOk(code, limit) && InCode(code, asked) && a in code && j < |asked|
    requires asked[j] <= a && EndFrom(code, limit, asked[j]) == EndFrom(code, limit, a)
    ensures InCode(code, asked + [a]) && !LateAt(code, limit, asked + [a], |asked|)
  {
    hide CodeOk, EndFrom;
    assert (asked + [a])[j] == asked[j];
  }

  lemma TiledIn(code: LCode, limit: nat, g: Graph, asked: seq<nat>, k: nat) returns (j: nat)
    requires CodeOk(code, limit) && InCode(code, asked) && Tiled(code, limit, g, asked) && k < |g|
    ensures j < |asked| && asked[j] == g[k].address
  {
    hide CodeOk, InCode, Covers, Starts, EachOnce;
    assert g[k].address in asked;
    j :| 0 <= j < |asked| && asked[j] == g[k].address;
  }

  /** A block that starts at a known one's start, or the rest of a known one. */
  lemma HistoryKnown(code: LCode, limit: nat, g: Graph, h: Graph, asked: seq<nat>, a: nat)
    requires History(code, limit, g, asked) && AllBlocksOk(code, h) && a in Covered(g)
    requires EachOnce(h) == EachOnce(g) && Covered(g) <= Covered(h) && Starts(h, a) && NewAt(g, h, a)
    ensures a in code && EndFrom(code, limit, a) in EndsOf(code, limit, asked)
    ensures History(code, limit, h, asked + [a])
  {
    hide CodeOk, InCode, EndsKnown, Late, LateAt, Tiled, EachOnce, Covered, EndFrom, NewAt, Covers, AllBlocksOk, EndsOf,
         Starts;
    var k := KnownHasEnd(code, limit, g, asked, a);
    LateGrows(code, limit, asked, a);
    EndsCovered(code, limit, g, asked, EndFrom(code, limit, a));
    KnownEnds(code, limit, g, h, asked, a);
    if !Late(code, limit, asked) {
      var j := TiledIn(code, limit, g, asked, k);
      KnownNotLate(code, limit, asked, a, j);
      CoversInside(code, limit, g, h, asked, j, a);
      OnceIfTiled(code, limit, g, asked);
      TiledMore(code, limit, g, h, asked, a);
    }
  }

  /** The blocks of g stay where they are, others start at a. */
  predicate NewAt(g: Graph, h: Graph, a: nat) {
    && |g| <= |h| && (forall k :: 0 <= k < |g| ==> h[k].address == g[k].address)
    && forall k :: |g| <= k < |h| ==> h[k].address == a
  }

  lemma EndsCovered(code: LCode, limit: nat, g: Graph, asked: seq<nat>, e: nat)
    requires CodeOk(code, limit) && InCode(code, asked)
    requires EndsKnown(code, limit, g, asked) && e in EndsOf(code, limit, asked)
    ensures e in Covered(g)
  {
    hide CodeOk, InCode, EndFrom, Covered, EndsOf;
  }

  lemma KnownEnds(code: LCode, limit: nat, g: Graph, h: Graph, asked: seq<nat>, a: nat)
    requires CodeOk(code, limit) && InCode(code, asked) && EndsKnown(code, limit, g, asked) && a in code
    requires Covered(g) <= Covered(h) && EndFrom(code, limit, a) in Covered(h) && NewAt(g, h, a)
    ensures InCode(code, asked + [a]) && EndsKnown(code, limit, h, asked + [a])
  {
    hide CodeOk, InCode, EndsOf, Covered, EndFrom, NewAt;
    EndsMore(code, limit, asked, a);
    var e := EndsOf(code, limit, asked) + {EndFrom(code, limit, a)};
    forall k | 0 <= k < |h| ensures h[k].address in code && EndFrom(code, limit, h[k].address) in e {
      AddressOf(g, h, a, k);
    }
    assert e <= Covered(h);
  }

  lemma EndsMore(code: LCode, limit: nat, asked: seq<nat>, a: nat)
    requires CodeOk(code, limit) && InCode(code, asked) && a in code
    ensures InCode(code, asked + [a])
    ensures EndsOf(code, limit, asked + [a]) == EndsOf(code, limit, asked) + {EndFrom(code, limit, a)}
  {
    assert InCode(code, asked + [a]);
    hide CodeOk, EndFrom;
    assert (asked + [a])[|asked|] == a;
    MoreEnds(code, limit, asked, asked + [a]);
  }

  lemma AddressOf(g: Graph, h: Graph, a: nat, k: nat)
    requires NewAt(g, h, a) && k < |h|
    ensures h[k].address == if k < |g| then g[k].address else a
  {}

  lemma CoversInside(code: LCode, limit: nat, g: Graph, h: Graph, asked: seq<nat>, j: nat, a: nat)
    requires CodeOk(code, limit) && InCode(code, asked) && Tiled(code, limit, g, asked) && j < |asked| && a in code
    requires asked[j] in code && a in Straight(code, limit, asked[j]) && Covered(g) <= Covered(h)
    ensures Covers(code, limit, h, a)
  {
    hide CodeOk, InCode, Straight, Covered, EachOnce, Starts;
    assert Covers(code, limit, g, asked[j]);
    Within(code, limit, asked[j], a);
  }

  lemma TiledMore(code: LCode, limit: nat, g: Graph, h: Graph, asked: seq<nat>, a: nat)
    requires CodeOk(code, limit) && InCode(code, asked) && Tiled(code, limit, g, asked) && EachOnce(h) && a in code
    requires Covered(g) <= Covered(h) && Starts(h, a) && NewAt(g, h, a) && Covers(code, limit, h, a)
    ensures InCode(code, asked + [a]) && Tiled(code, limit, h, asked + [a])
  {
    var r := asked + [a];
    assert InCode(code, r);
    assert forall k :: 0 <= k < |h| ==> h[k].address in r;
    hide CodeOk, InCode, Covered, EachOnce, Straight;
    forall i | 0 <= i < |r| ensures r[i] in code && Starts(h, r[i]) && Covers(code, limit, h, r[i]) {
      if i < |asked| {
        assert asked[i] in code && Starts(g, asked[i]) && Covers(code, limit, g, asked[i]);
        var m :| 0 <= m < |g| && g[m].address == asked[i];
        assert h[m].address == asked[i];
      }
    }
  }

  /** The first block with a new end. */
  lemma HistoryNewEnd(code: LCode, limit: nat, g: Graph, asked: seq<nat>, b: BB)
    requires History(code, limit, g, asked) && BlockOk(code, b)
    requires b.address in code && b.instrs == Straight(code, limit, b.address)
    requires EndFrom(code, limit, b.address) !in Covered(g)
    ensures EndFrom(code, limit, b.address) !in EndsOf(code, limit, asked)
    ensures History(code, limit, g + [b], asked + [b.address])
  {
    var a, h := b.address, g + [b];
    Appended(code, g, b);
    hide CodeOk, InCode, EndsKnown, Late, LateAt, Tiled, EachOnce, Covered, NewAt, Covers, AllBlocksOk, EndsOf, Starts,
         Run;
    if EndFrom(code, limit, a) in EndsOf(code, limit, asked) {
      EndsCovered(code, limit, g, asked, EndFrom(code, limit, a));
    }
    LateGrows(code, limit, asked, a);
    KnownEnds(code, limit, g, h, asked, a);
    NewNotLate(code, limit, asked, a);
    Unknown(code, limit, g, asked, a);
    OnceAppend(g, b);
    if !Late(code, limit, asked) {
      OnceIfTiled(code, limit, g, asked);
      CoversWhole(code, limit, h, b);
      TiledMore(code, limit, g, h, asked, a);
    }
  }

  lemma OnceIfTiled(code: LCode, limit: nat, g: Graph, asked: seq<nat>)
    requires CodeOk(code, limit) && InCode(code, asked) && Tiled(code, limit, g, asked)
    ensures EachOnce(g)
  {}

  lemma CoversWhole(code: LCode, limit: nat, g: Graph, b: BB)
    requires CodeOk(code, limit) && b.address in code && b.instrs == Straight(code, limit, b.address)
    requires forall x :: x in b.instrs ==> x in Covered(g)
    ensures Covers(code, limit, g, b.address)
  {}

  /** Straight code whose end is unknown is unknown. */
  lemma Unknown(code: LCode, limit: nat, g: Graph, asked: seq<nat>, a: nat)
    requires CodeOk(code, limit) && InCode(code, asked) && AllBlocksOk(code, g) && EndsKnown(code, limit, g, asked)
    requires a in code && EndFrom(code, limit, a) !in EndsOf(code, limit, asked)
    ensures forall x :: x in Straight(code, limit, a) ==> x !in Covered(g)
  {
    hide CodeOk, InCode, EndsKnown, Covered, AllBlocksOk, EndsOf, Straight;
    forall x | x in Straight(code, limit, a) ensures x !in Covered(g) {
      Within(code, limit, a, x);
      if x in Covered(g) { var k := KnownHasEnd(code, limit, g, asked, x); }
    }
  }

  lemma Appended(code: LCode, g: Graph, b: BB)
    ensures var h := g + [b];
            && Covered(g) <= Covered(h) && (forall x :: x in b.instrs ==> x in Covered(h))
            && Starts(h, b.address) && NewAt(g, h, b.address)
            && (AllBlocksOk(code, g) && BlockOk(code, b) ==> AllBlocksOk(code, h))
  {
    hide BlockOk;
    var h := g + [b];
    assert h[|g|] == b && forall k :: 0 <= k < |g| ==> h[k] == g[k];
    AppendCovers(g, b);
    forall x | x in b.instrs ensures x in Covered(h) { IsCovered(h, x); }
  }

  /** With a new end, an address is not late. */
  lemma NewNotLate(code: LCode, limit: nat, asked: seq<nat>, a: nat)
    requires CodeOk(code, limit) && InCode(code, asked) && a in code
    requires EndFrom(code, limit, a) !in EndsOf(code, limit, asked)
    ensures InCode(code, asked + [a]) && !LateAt(code, limit, asked + [a], |asked|)
  {
    hide CodeOk, EndFrom;
    var h := asked + [a];
    assert InCode(code, h);
    assert forall i :: 0 <= i < |asked| ==> h[i] == asked[i] && asked[i] in asked;
  }

  /** The block o with the known end is the whole straight code from its start. */
  lemma KnownIsWhole(code: LCode, limit: nat, b: BB, e: nat)
    requires CodeOk(code, limit) && BlockOk(code, b) && e in b.instrs && e in code && !code[e].kind.Plain?
    ensures b.address in code && b.instrs == Straight(code, limit, b.address) && EndFrom(code, limit, b.address) == e
  {
    RunPrefix(code, limit, b.instrs);
    var s := Straight(code, limit, b.address);
    var i :| 0 <= i < |b.instrs| && b.instrs[i] == e;
    assert s[..|b.instrs|][i] == s[i] == e;
    EndsThere(code, s, i, s[..i + 1]);
  }

  /** A request for a, whose straight code is new at its start and ends in block o. */
  predicate Cut(code: LCode, limit: nat, g: Graph, a: nat, o: nat, b: BB) {
    && CodeOk(code, limit) && a in code && AllBlocksOk(code, g) && o < |g|
    && a !in Covered(g) && EndFrom(code, limit, a) in g[o].instrs
    && var s := Straight(code, limit, a);
       0 < |g[o].instrs| < |s| && b.address == a && b.instrs == s[..|s| - |g[o].instrs|]
  }

  /** Straight code from a is what is kept of it and block o. */
  lemma CutParts(code: LCode, limit: nat, g: Graph, a: nat, o: nat, b: BB)
    requires Cut(code, limit, g, a, o, b)
    ensures var c := g[o].address;
            && c in code && EndFrom(code, limit, c) == EndFrom(code, limit, a)
            && Straight(code, limit, c) == g[o].instrs
            && Straight(code, limit, a) == b.instrs + g[o].instrs && BlockOk(code, b)
    ensures forall x :: x in b.instrs ==> x < g[o].address && x !in g[o].instrs
  {
    hide CodeOk, Covered, Run;
    assert BlockOk(code, g[o]);
    KnownIsWhole(code, limit, g[o], EndFrom(code, limit, a));
    SuffixParts(code, limit, Straight(code, limit, a), g[o].instrs);
  }

  /** A run with the same last instruction as a shorter one: its beginning lies before that one. */
  lemma SuffixParts(code: LCode, limit: nat, s: seq<nat>, t: seq<nat>)
    requires CodeOk(code, limit) && Run(code, s) && Run(code, t) && s[|s| - 1] == t[|t| - 1] && |t| < |s|
    ensures var p := s[..|s| - |t|];
            s == p + t && Run(code, p) && p[0] == s[0] && forall x :: x in p ==> x < t[0] && x !in t
  {
    var n := |s| - |t|;
    var p := s[..n];
    SameEnd(code, limit, s, t);
    RunParts(code, s, n);
    assert s == p + s[n..];
    PartsApart(code, limit, s, n);
    forall x | x in p ensures x < t[0] {
      var i :| 0 <= i < n && p[i] == x;
      assert s[i] == x && s[n] == s[n..][0];
      Increasing(code, limit, s, i, n);
    }
  }

  /** Addresses asked for with the end of block o all lie behind a. */
  lemma BehindNew(code: LCode, limit: nat, g: Graph, asked: seq<nat>, a: nat, j: nat)
    requires CodeOk(code, limit) && InCode(code, asked) && Tiled(code, limit, g, asked) && a in code
    requires j < |asked| && asked[j] in code && a !in Covered(g) &&
             EndFrom(code, limit, asked[j]) == EndFrom(code, limit, a)
    ensures a < asked[j]
  {
    hide CodeOk, InCode, Straight, Covered, EachOnce, Starts;
    assert Covers(code, limit, g, asked[j]);
    Comparable(code, limit, a, asked[j]);
  }

  /** Only block o has been asked for: what is kept is new. */
  lemma CutFirst(code: LCode, limit: nat, g: Graph, asked: seq<nat>, a: nat, o: nat, b: BB)
    requires Cut(code, limit, g, a, o, b) && InCode(code, asked) && Tiled(code, limit, g, asked)
    requires EndsKnown(code, limit, g, asked)
    requires forall j ::
               0 <= j < |asked| && asked[j] in code && EndFrom(code, limit, asked[j]) == EndFrom(code, limit, a) ==>
               asked[j] == g[o].address
    ensures EachOnce(g + [b]) && InCode(code, asked + [a]) && !LateAt(code, limit, asked + [a], |asked|)
    ensures Covers(code, limit, g + [b], a)
  {
    CutParts(code, limit, g, a, o, b);
    Appended(code, g, b);
    BlockCovered(g, o);
    OnceAppend(g, b);
    OnceIfTiled(code, limit, g, asked);
    OneNotLate(code, limit, asked, a, g[o].address);
    hide CodeOk, Straight, EndsOf, EndsKnown, AllBlocksOk, Covered, EachOnce, Tiled, InCode, LateAt, NewAt, Starts, Run;
    forall x | x in b.instrs ensures x !in Covered(g) { KeptIsNew(code, limit, g, asked, a, o, b, x); }
    forall x | x in Straight(code, limit, a) ensures x in Covered(g + [b]) {
      assert x in b.instrs || x in g[o].instrs;
    }
  }

  /** With one earlier address for its end, a request is not late. */
  lemma OneNotLate(code: LCode, limit: nat, asked: seq<nat>, a: nat, c: nat)
    requires CodeOk(code, limit) && InCode(code, asked) && a in code
    requires forall j ::
               0 <= j < |asked| && asked[j] in code && EndFrom(code, limit, asked[j]) == EndFrom(code, limit, a) ==>
               asked[j] == c
    ensures InCode(code, asked + [a]) && !LateAt(code, limit, asked + [a], |asked|)
  {
    hide CodeOk, EndFrom;
    assert InCode(code, asked + [a]);
    assert forall i :: 0 <= i < |asked| ==> (asked + [a])[i] == asked[i] && asked[i] in asked;
  }

  lemma KeptIsNew(code: LCode, limit: nat, g: Graph, asked: seq<nat>, a: nat, o: nat, b: BB, x: nat)
    requires Cut(code, limit, g, a, o, b) && InCode(code, asked) && Tiled(code, limit, g, asked)
    requires EndsKnown(code, limit, g, asked) && x in b.instrs
    requires forall j ::
               0 <= j < |asked| && asked[j] in code && EndFrom(code, limit, asked[j]) == EndFrom(code, limit, a) ==>
               asked[j] == g[o].address
    ensures x !in Covered(g)
  {
    CutParts(code, limit, g, a, o, b);
    hide CodeOk, Straight, EndsOf, EndsKnown, AllBlocksOk, Covered, Tiled, InCode, Run;
    Within(code, limit, a, x);
    if x in Covered(g) {
      var k := KnownHasEnd(code, limit, g, asked, x);
      var j := TiledIn(code, limit, g, asked, k);
      assert false;
    }
  }

  lemma BlockCovered(g: Graph, k: nat)
    requires k < |g|
    ensures forall x :: x in g[k].instrs ==> x in Covered(g)
  {
    forall x | x in g[k].instrs ensures x in Covered(g) { IsCovered(g, x); }
  }

  /** Another block with the same end has been asked for: its start is kept a second time. */
  lemma CutTwice(code: LCode, limit: nat, g: Graph, asked: seq<nat>, a: nat, o: nat, b: BB, j: nat)
    requires Cut(code, limit, g, a, o, b) && InCode(code, asked) && Tiled(code, limit, g, asked)
    requires j < |asked| && asked[j] in code && EndFrom(code, limit, asked[j]) == EndFrom(code, limit, a) &&
             asked[j] != g[o].address
    ensures !EachOnce(g + [b]) && InCode(code, asked + [a]) && LateAt(code, limit, asked + [a], |asked|)
  {
    CutParts(code, limit, g, a, o, b);
    var m := asked[j];
    BehindNew(code, limit, g, asked, a, j);
    Comparable(code, limit, a, m);
    assert Starts(g, m);
    var k :| 0 <= k < |g| && g[k].address == m;
    assert BlockOk(code, g[k]) && m in g[k].instrs;
    OtherBefore(code, limit, g, asked, o, k);
    BlockCovered(g, k);
    hide CodeOk, Tiled, Covered, EachOnce, Straight, LateAt, AllBlocksOk;
    assert m in b.instrs + g[o].instrs;
    NotInBlock(code, limit, g[o], m);
    OnceAppend(g, b);
    IsLate(code, limit, g, asked, a, o, j);
  }

  /** Of two blocks with the same end, the one that holds it is the last. */
  lemma OtherBefore(code: LCode, limit: nat, g: Graph, asked: seq<nat>, o: nat, k: nat)
    requires CodeOk(code, limit) && InCode(code, asked) && Tiled(code, limit, g, asked) && o < |g| && k < |g|
    requires g[o].address in code && g[o].instrs == Straight(code, limit, g[o].address)
    requires BlockOk(code, g[k]) && g[k].address in code && g[k].address != g[o].address
    requires EndFrom(code, limit, g[k].address) == EndFrom(code, limit, g[o].address)
    ensures g[k].address < g[o].address
  {
    Comparable(code, limit, g[o].address, g[k].address);
    assert g[k].address in g[k].instrs;
    NotInOther(g, o, k, g[k].address);
  }

  lemma NotInOther(g: Graph, j: nat, k: nat, x: nat)
    requires EachOnce(g) && j < |g| && k < |g| && j != k && x in g[k].instrs
    ensures x !in g[j].instrs
  {}

  lemma NotInBlock(code: LCode, limit: nat, b: BB, x: nat)
    requires CodeOk(code, limit) && BlockOk(code, b) && x < b.address
    ensures x !in b.instrs
  {
    if x in b.instrs {
      InBlock(code, limit, b, x);
      Within(code, limit, b.address, x);
    }
  }

  lemma IsLate(code: LCode, limit: nat, g: Graph, asked: seq<nat>, a: nat, o: nat, j: nat)
    requires CodeOk(code, limit) && InCode(code, asked) && Tiled(code, limit, g, asked) && a in code && o < |g|
    requires j < |asked| && asked[j] in code && EndFrom(code, limit, asked[j]) == EndFrom(code, limit, a) &&
             asked[j] != g[o].address
    requires g[o].address in code && EndFrom(code, limit, g[o].address) == EndFrom(code, limit, a) && a !in Covered(g)
    ensures InCode(code, asked + [a]) && LateAt(code, limit, asked + [a], |asked|)
  {
    hide CodeOk, EndFrom, Tiled, Covered;
    var p := TiledIn(code, limit, g, asked, o);
    forall i | 0 <= i < |asked| && EndFrom(code, limit, asked[i]) == EndFrom(code, limit, a) ensures a < asked[i] {
      BehindNew(code, limit, g, asked, a, i);
    }
    TwoAreLate(code, limit, asked, a, if j < p then j else p, if j < p then p else j);
  }

  lemma TwoAreLate(code: LCode, limit: nat, asked: seq<nat>, a: nat, x: nat, y: nat)
    requires CodeOk(code, limit) && InCode(code, asked) && a in code && x < y < |asked| && asked[x] != asked[y]
    requires EndFrom(code, limit, asked[x]) == EndFrom(code, limit, a) == EndFrom(code, limit, asked[y])
    requires forall i :: 0 <= i < |asked| && EndFrom(code, limit, asked[i]) == EndFrom(code, limit, a) ==> a < asked[i]
    ensures InCode(code, asked + [a]) && LateAt(code, limit, asked + [a], |asked|)
  {
    hide CodeOk, EndFrom;
    var r := asked + [a];
    assert InCode(code, r);
    assert forall i :: 0 <= i < |asked| ==> r[i] == asked[i];
    assert r[x] == asked[x] && r[y] == asked[y];
  }

  /** The new straight code is cut before the known block o. */
  lemma HistoryCut(code: LCode, limit: nat, g: Graph, asked: seq<nat>, a: nat, o: nat, b: BB)
    requires History(code, limit, g, asked) && Cut(code, limit, g, a, o, b)
    ensures EndFrom(code, limit, a) in EndsOf(code, limit, asked)
    ensures History(code, limit, g + [b], asked + [a])
  {
    hide CodeOk, InCode, EndsKnown, Late, LateAt, Tiled, EachOnce, Covered, NewAt, AllBlocksOk, EndsOf, Cut, EndFrom;
    CutFacts(code, limit, g, a, o, b);
    CutEnd(code, limit, g, asked, a);
    KnownEnds(code, limit, g, g + [b], asked, a);
    if !Late(code, limit, asked) { HistoryCutTiled(code, limit, g, asked, a, o, b); }
    OnceStays(g, b);
    HistoryOf(code, limit, g + [b], asked, a);
  }

  lemma HistoryOf(code: LCode, limit: nat, h: Graph, asked: seq<nat>, a: nat)
    requires CodeOk(code, limit) && InCode(code, asked) && a in code && InCode(code, asked + [a]) &&
             AllBlocksOk(code, h)
    requires EndsKnown(code, limit, h, asked + [a])
    requires Late(code, limit, asked) || LateAt(code, limit, asked + [a], |asked|) ==> !EachOnce(h)
    requires !Late(code, limit, asked) && !LateAt(code, limit, asked + [a], |asked|) ==>
             Tiled(code, limit, h, asked + [a])
    ensures History(code, limit, h, asked + [a])
  {
    hide CodeOk, InCode, EndsKnown, Late, LateAt, Tiled, EachOnce, AllBlocksOk;
    LateGrows(code, limit, asked, a);
  }

  lemma CutEnd(code: LCode, limit: nat, g: Graph, asked: seq<nat>, a: nat)
    requires CodeOk(code, limit) && InCode(code, asked) && AllBlocksOk(code, g) && EndsKnown(code, limit, g, asked)
    requires a in code && EndFrom(code, limit, a) in Covered(g)
    ensures EndFrom(code, limit, a) in EndsOf(code, limit, asked)
  {
    hide CodeOk, InCode, EndsKnown, Covered, AllBlocksOk, EndsOf, EndFrom;
    var k := KnownHasEnd(code, limit, g, asked, EndFrom(code, limit, a));
    EndIsEnd(code, limit, a);
  }

  lemma CutFacts(code: LCode, limit: nat, g: Graph, a: nat, o: nat, b: BB)
    requires Cut(code, limit, g, a, o, b)
    ensures a in code && EndFrom(code, limit, a) in Covered(g) && EndFrom(code, limit, a) in Covered(g + [b])
    ensures Covered(g) <= Covered(g + [b])
    ensures NewAt(g, g + [b], a) && AllBlocksOk(code, g + [b])
  {
    CutParts(code, limit, g, a, o, b);
    Appended(code, g, b);
    BlockCovered(g, o);
  }

  lemma HistoryCutTiled(code: LCode, limit: nat, g: Graph, asked: seq<nat>, a: nat, o: nat, b: BB)
    requires Cut(code, limit, g, a, o, b) && InCode(code, asked) && Tiled(code, limit, g, asked)
    requires EndsKnown(code, limit, g, asked)
    ensures InCode(code, asked + [a])
    ensures if LateAt(code, limit, asked + [a], |asked|) then !EachOnce(g + [b])
            else Tiled(code, limit, g + [b], asked + [a])
  {
    var h := g + [b];
    Appended(code, g, b);
    hide CodeOk, EndsKnown, LateAt, Tiled, EachOnce, Covered, NewAt, Covers, AllBlocksOk, EndsOf, Starts, Run;
    if j: nat :| j < |asked| && asked[j] in code && EndFrom(code, limit, asked[j]) == EndFrom(code, limit, a)
                 && asked[j] != g[o].address {
      CutTwice(code, limit, g, asked, a, o, b, j);
    } else {
      CutFirst(code, limit, g, asked, a, o, b);
      TiledMore(code, limit, g, h, asked, a);
    }
  }

  lemma EndIsEnd(code: LCode, limit: nat, a: nat)
    requires CodeOk(code, limit) && a in code
    ensures EndFrom(code, limit, EndFrom(code, limit, a)) == EndFrom(code, limit, a)
  {
    var s := Straight(code, limit, a);
    Inside(code, limit, a, |s| - 1);
  }

  /** Links do not matter. */
  lemma HistorySame(code: LCode, limit: nat, g: Graph, h: Graph, asked: seq<nat>)
    requires History(code, limit, g, asked) && SameBlocks(g, h)
    ensures History(code, limit, h, asked)
  {
    hide CodeOk, InCode, Late, Run, EndsOf, EndFrom, Straight;
    OnceSame(g, h);
    SameCovered(g, h);
    assert AllBlocksOk(code, h) by {
      forall k | 0 <= k < |h| ensures BlockOk(code, h[k]) { assert BlockOk(code, g[k]); }
    }
    hide EachOnce, AllBlocksOk, BlockOk;
    if !Late(code, limit, asked) { TiledSame(code, limit, g, h, asked); }
  }

  lemma TiledSame(code: LCode, limit: nat, g: Graph, h: Graph, asked: seq<nat>)
    requires CodeOk(code, limit) && InCode(code, asked) && Tiled(code, limit, g, asked) && SameBlocks(g, h)
    requires EachOnce(h) && Covered(h) == Covered(g)
    ensures Tiled(code, limit, h, asked)
  {
    hide CodeOk, InCode, EachOnce, Covered, Straight;
    forall i | 0 <= i < |asked| ensures asked[i] in code && Starts(h, asked[i]) && Covers(code, limit, h, asked[i]) {
      assert Starts(g, asked[i]) && Covers(code, limit, g, asked[i]);
      var k :| 0 <= k < |g| && g[k].address == asked[i];
      assert h[k].address == asked[i];
    }
  }

  /** Without blocks and requests. */
  lemma HistoryStart(code: LCode, limit: nat)
    requires CodeOk(code, limit)
    ensures History(code, limit, [], [])
  {}

  /** What History says in the end. */
  lemma OnceExact(code: LCode, limit: nat, g: Graph, asked: seq<nat>)
    requires History(code, limit, g, asked)
    ensures CodeOk(code, limit) && InCode(code, asked) && (EachOnce(g) <==> !Late(code, limit, asked))
  {}

  // ----- an instruction in two blocks

  function CrossingKind(a: nat): Kind {
    if a == 10 then Branch(1)
    else if a == 11 then Branch(3)
    else if a == 12 then Jump(2)
    else if a == 4 then Stop
    else Plain
  }

  /** Two conditional jumps and a jump into straight code, out of order: 10: jcc 1, 11: jcc 3, 12: jmp 2, and 1, 2, 3
      up to the end at 4. */
  function Crossing(): (c: LCode)
    ensures forall a: nat :: a in c <==> 1 <= a <= 4 || 10 <= a <= 12
    ensures forall a :: a in c ==> c[a] == LInstr(CrossingKind(a), 1)
  {
    map a: nat | 0 <= a < 13 && (1 <= a <= 4 || 10 <= a <= 12) :: LInstr(CrossingKind(a), 1)
  }

  lemma CrossingOk()
    ensures CodeOk(Crossing(), 13)
  {
    var c := Crossing();
    hide Crossing;
    forall a | a in c && Continues(c[a].kind) ensures a + c[a].len in c { assert c[a].kind == CrossingKind(a); }
    forall a | a in c && Jumps(c[a].kind) ensures c[a].kind.target in c { assert c[a].kind == CrossingKind(a); }
  }

  /** Three starts in one straight piece of code. */
  lemma CrossingStraight()
    ensures var c := Crossing(); Run(c, [10]) && Run(c, [11]) && Run(c, [12]) && Run(c, [1, 2, 3, 4])
  {}

  lemma CrossingRuns()
    ensures var c := Crossing();
            Run(c, [10]) && Run(c, [11]) && Run(c, [12]) && Run(c, [1, 2, 3, 4]) && Run(c, [2, 3, 4]) && Run(c, [3, 4])
  {
    var c := Crossing();
    CrossingStraight();
    hide Crossing;
    RunParts(c, [1, 2, 3, 4], 1);
    RunParts(c, [1, 2, 3, 4], 2);
    assert [1, 2, 3, 4][1..] == [2, 3, 4] && [1, 2, 3, 4][2..] == [3, 4];
  }

  lemma EndOfRun(code: LCode, limit: nat, s: seq<nat>)
    requires CodeOk(code, limit) && Run(code, s) && !code[s[|s| - 1]].kind.Plain?
    ensures EndFrom(code, limit, s[0]) == s[|s| - 1]
  {
    RunPrefix(code, limit, s);
    EndsThere(code, Straight(code, limit, s[0]), |s| - 1, s);
  }

  lemma CrossingEnds()
    ensures CodeOk(Crossing(), 13)
    ensures var c := Crossing();
            && EndFrom(c, 13, 10) == 10 && EndFrom(c, 13, 11) == 11 && EndFrom(c, 13, 12) == 12
            && EndFrom(c, 13, 1) == EndFrom(c, 13, 2) == EndFrom(c, 13, 3) == 4
  {
    CrossingOk();
    CrossingRuns();
    var c := Crossing();
    hide CodeOk, EndFrom, Crossing, Run;
    EndOfRun(c, 13, [10]);
    EndOfRun(c, 13, [11]);
    EndOfRun(c, 13, [12]);
    EndOfRun(c, 13, [1, 2, 3, 4]);
    EndOfRun(c, 13, [2, 3, 4]);
    EndOfRun(c, 13, [3, 4]);
  }

  /** One step of Requests. */
  lemma RequestsStep(code: LCode, limit: nat, asked: seq<nat>, a: nat)
    requires CodeOk(code, limit) && InCode(code, asked) && a in code
    ensures InCode(code, asked + [a])
    ensures Requests(code, limit, asked, a) ==
            if exists i :: 0 <= i < |asked| && EndFrom(code, limit, asked[i]) == EndFrom(code, limit, a)
            then asked + [a]
            else Followed(code, limit, asked + [a], EndFrom(code, limit, a))
  {
    hide CodeOk, EndFrom, Followed;
    var e := EndFrom(code, limit, a);
    if e in EndsOf(code, limit, asked) {
      var b :| b in asked && EndFrom(code, limit, b) == e;
      var i :| 0 <= i < |asked| && asked[i] == b;
    }
  }

  lemma FollowedStep(code: LCode, limit: nat, asked: seq<nat>, e: nat)
    requires CodeOk(code, limit) && InCode(code, asked) && e in code && !code[e].kind.Plain?
    requires Continues(code[e].kind) ==> After(code, e) in code
    requires Jumps(code[e].kind) ==> code[e].kind.target in code
    ensures var h := if Continues(code[e].kind) then Requests(code, limit, asked, After(code, e)) else asked;
            Followed(code, limit, asked, e) ==
            if Jumps(code[e].kind) then Requests(code, limit, h, code[e].kind.target) else h
  {
    hide CodeOk, EndFrom, Requests;
  }

  /** The decoder is asked for 2, 3 and then 1, which is late: instruction 2 gets into two blocks. */
  lemma CrossingLate()
    ensures CodeOk(Crossing(), 13) && InCode(Crossing(), []) && 10 in Crossing()
    ensures Requests(Crossing(), 13, [], 10) == [10, 11, 12, 2, 3, 1]
    ensures Late(Crossing(), 13, Requests(Crossing(), 13, [], 10))
  {
    CrossingRequests();
    CrossingEnds();
    hide CodeOk, EndFrom, Requests, Crossing;
    var c, r := Crossing(), [10, 11, 12, 2, 3, 1];
    assert r[3] != r[4] && EndFrom(c, 13, r[3]) == EndFrom(c, 13, r[5]) == EndFrom(c, 13, r[4]);
    assert LateAt(c, 13, r, 5);
  }

  /** The three addresses that are asked for last: 2, 3 and 1. */
  lemma CrossingTail()
    ensures CodeOk(Crossing(), 13) && InCode(Crossing(), [10, 11, 12, 2, 3])
    ensures var c := Crossing();
            && Requests(c, 13, [10, 11, 12], 2) == [10, 11, 12, 2]
            && Requests(c, 13, [10, 11, 12, 2], 3) == [10, 11, 12, 2, 3]
            && Requests(c, 13, [10, 11, 12, 2, 3], 1) == [10, 11, 12, 2, 3, 1]
  {
    CrossingEnds();
    hide CodeOk, EndFrom, Requests, Followed, Crossing;
    var c, r, q := Crossing(), [10, 11, 12, 2], [10, 11, 12, 2, 3];
    RequestsStep(c, 13, [10, 11, 12], 2);
    FollowedStep(c, 13, r, 4);
    RequestsStep(c, 13, r, 3);
    RequestsStep(c, 13, q, 1);
    assert EndFrom(c, 13, r[3]) == EndFrom(c, 13, 3) && EndFrom(c, 13, q[3]) == EndFrom(c, 13, 1);
    assert [10, 11, 12] + [2] == r && r + [3] == q && q + [1] == [10, 11, 12, 2, 3, 1];
  }

  lemma CrossingRequests()
    ensures CodeOk(Crossing(), 13) && InCode(Crossing(), []) && 10 in Crossing()
    ensures Requests(Crossing(), 13, [], 10) == [10, 11, 12, 2, 3, 1]
  {
    CrossingEnds();
    CrossingTail();
    hide CodeOk, EndFrom, Requests, Followed, Crossing;
    var c := Crossing();
    RequestsStep(c, 13, [], 10);
    FollowedStep(c, 13, [10], 10);
    RequestsStep(c, 13, [10], 11);
    FollowedStep(c, 13, [10, 11], 11);
    RequestsStep(c, 13, [10, 11], 12);
    FollowedStep(c, 13, [10, 11, 12], 12);
    assert [] + [10] == [10] && [10] + [11] == [10, 11] && [10, 11] + [12] == [10, 11, 12];
  }
}
