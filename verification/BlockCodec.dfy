/** Blocks as bytes: generating a list of instructions and decoding it again. */
module BlockCodec {
  import opened Machine
  import opened Bytes
  import opened Ledger
  import opened ModRM
  import opened Codec
  import opened Layout

  /** All instructions have an encoding. */
  predicate Generates(code: seq<Insn>) {
    forall k :: 0 <= k < |code| ==> InsnValid(code[k]) && Generate(code[k]).Some?
  }

  function Encoded(code: seq<Insn>): (r: seq<seq<Byte>>)
    requires Generates(code)
    ensures |r| == |code|
  {
    seq(|code|, k requires 0 <= k < |code| => Generate(code[k]).value)
  }

  /** An instruction with its address and length. */
  datatype Listed = Listed(x: Insn, addr: nat, len: nat)

  /** What the generator records for code placed at p: hints take no room and leave no trace. */
  function Listing(code: seq<Insn>, p: nat): seq<Listed>
    requires Generates(code)
  {
    if code == [] then []
    else
      var n := |Generate(code[0]).value|;
      (if n == 0 then [] else [Listed(Norm(code[0]), p, n)]) + Listing(code[1..], p + n)
  }

  /** Decode from p up to the first return. */
  function DecodeBlock(m: seq<Byte>, p: nat): Option<seq<Listed>>
    decreases |m| - p
  {
    match Decode(m, p)
    case None => None
    case Some(Read(y, next)) =>
      var x := Listed(y, p, next - p);
      if IsRet(y) then Some([x])
      else match DecodeBlock(m, next)
        case None => None
        case Some(rest) => Some([x] + rest)
  }

  predicate EndsInRet(code: seq<Insn>) {
    && |code| > 0 && IsRet(code[|code| - 1])
    && forall k :: 0 <= k < |code| - 1 ==> !IsRet(code[k])
  }

  lemma {:induction false} FlatFirst(code: seq<seq<Byte>>)
    requires code != []
    ensures Flat(code) == code[0] + Flat(code[1..])
    decreases |code|
  {
    if |code| > 1 {
      var init := code[..|code| - 1];
      FlatFirst(init);
      assert code[1..][..|code| - 2] == init[1..];
      assert code[1..][|code| - 2] == code[|code| - 1];
    } else {
      assert code[..0] == [] && code[1..] == [];
    }
  }

  lemma EncodedFirst(code: seq<Insn>)
    requires Generates(code) && code != []
    ensures Generates(code[1..])
    ensures Flat(Encoded(code)) == Generate(code[0]).value + Flat(Encoded(code[1..]))
  {
    FlatFirst(Encoded(code));
    assert Encoded(code)[1..] == Encoded(code[1..]);
  }

  /** The code up to its first return. */
  function UpToRet(code: seq<Insn>): seq<Insn> {
    if code == [] then [] else if IsRet(code[0]) then [code[0]] else [code[0]] + UpToRet(code[1..])
  }

  predicate HasRet(code: seq<Insn>) { exists k :: 0 <= k < |code| && IsRet(code[k]) }

  lemma UpToRetFirst(code: seq<Insn>)
    requires Generates(code) && HasRet(code)
    ensures code != [] && Generates(UpToRet(code))
    ensures !IsRet(code[0]) ==> HasRet(code[1..]) && UpToRet(code)[1..] == UpToRet(code[1..])
    ensures IsRet(code[0]) ==> UpToRet(code)[1..] == []
    decreases |code|
  {
    hide Generate, InsnValid;
    if !IsRet(code[0]) {
      var k :| 0 <= k < |code| && IsRet(code[k]);
      assert IsRet(code[1..][k - 1]);
      UpToRetFirst(code[1..]);
    }
  }

  /** Wherever code lies and whatever follows, decoding its bytes gives back its instructions up to the first
      return, with the addresses and lengths the generator recorded. */
  lemma {:induction false} BlockDecodes(m: seq<Byte>, p: nat, code: seq<Insn>)
    requires Generates(code) && HasRet(code) && Has(m, p, Flat(Encoded(code)))
    ensures Generates(UpToRet(code)) && DecodeBlock(m, p) == Some(Listing(UpToRet(code), p))
    decreases |code|
  {
    hide Decode, Generate, Has, Flat, Norm, HasRet, InsnValid;
    UpToRetFirst(code);
    EncodedFirst(code);
    var g := Generate(code[0]).value;
    SplitHas(m, p, g, Flat(Encoded(code[1..])));
    ShortEnough(code[0]);
    NormRet(code[0]);
    if g != [] { InstrRoundTrip(m, p, code[0]); }
    if !IsRet(code[0]) {
      BlockDecodes(m, p + |g|, code[1..]);
      if g == [] { assert [] + Listing(UpToRet(code[1..]), p) == Listing(UpToRet(code[1..]), p); }
    } else {
      assert [Listed(code[0], p, |g|)] + [] == [Listed(code[0], p, |g|)];
    }
  }

  lemma {:induction false} WholeUpToRet(code: seq<Insn>)
    requires EndsInRet(code)
    ensures HasRet(code) && UpToRet(code) == code
    decreases |code|
  {
    assert IsRet(code[|code| - 1]);
    if !IsRet(code[0]) {
      assert forall k :: 0 <= k < |code[1..]| ==> code[1..][k] == code[k + 1];
      WholeUpToRet(code[1..]);
    }
  }

  /** A block that ends in its only return comes back whole. */
  lemma BlockRoundTrip(m: seq<Byte>, p: nat, code: seq<Insn>)
    requires Generates(code) && EndsInRet(code) && Has(m, p, Flat(Encoded(code)))
    ensures DecodeBlock(m, p) == Some(Listing(code, p))
  {
    WholeUpToRet(code);
    BlockDecodes(m, p, code);
  }

  lemma NormRet(x: Insn)
    requires InsnValid(x)
    ensures IsRet(Norm(x)) <==> IsRet(x)
    ensures IsRet(x) ==> Norm(x) == x
  {}

  /** The recorded lengths add up to the size of the block. */
  lemma {:induction false} ListingCovers(code: seq<Insn>, p: nat, k: nat)
    requires Generates(code) && k < |Listing(code, p)|
    ensures var l := Listing(code, p);
            && l[k].addr == (if k == 0 then p else l[k - 1].addr + l[k - 1].len)
            && 0 < l[k].len < 15
            && (k == |l| - 1 ==> l[k].addr + l[k].len == p + |Flat(Encoded(code))|)
    decreases |code|
  {
    hide Generate, Norm, Flat;
    EncodedFirst(code);
    ShortEnough(code[0]);
    var n := |Generate(code[0]).value|;
    var rest := Listing(code[1..], p + n);
    if n == 0 {
      ListingCovers(code[1..], p, k);
    } else if k > 0 {
      ListingCovers(code[1..], p + n, k - 1);
    } else if |rest| == 0 {
      NothingListed(code[1..], p + n);
    }
  }

  lemma {:induction false} NothingListed(code: seq<Insn>, p: nat)
    requires Generates(code) && Listing(code, p) == []
    ensures Flat(Encoded(code)) == []
    decreases |code|
  {
    hide Generate, Norm;
    if code != [] {
      EncodedFirst(code);
      NothingListed(code[1..], p);
    }
  }
}
