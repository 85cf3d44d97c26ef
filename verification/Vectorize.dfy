/** Expansion of a scalar kernel on doubles to vectors of two or four doubles. */
module Vectorize {
  import opened Ledger

  type VReg = r: nat | r < 16

  /** Source of an addition. Memory is not written by the kernels that are expanded. */
  datatype Source = Xmm(r: VReg) | Memory(a: int)

  datatype VInstr =
    | AddSD(dst: VReg, src: Source)
    | AddPD(dst: VReg, src: Source)
    | VAddSD(dst: VReg, src1: VReg, src2: Source)
    | VAddPD(lanes: nat, dst: VReg, src1: VReg, src2: Source)
    | HintCall
    | HintRet
    | Ret
    | Other(opcode: nat)

  datatype Tag = Unknown | DoubleX2 | DoubleX4 | PtrDoubleX2 | PtrDoubleX4

  datatype Request = X2_RV | X2_RVV | X2_RP | X4_RV | X4_RVV | X4_RP

  /** Unsupported is reported as an error, Stopped is a failed assertion. */
  datatype VecError = Unsupported | Stopped | NoRoom

  predicate Wide(t: Tag) { t == DoubleX2 || t == DoubleX4 }

  function TagOf(tags: seq<Tag>, s: Source): Tag
    requires |tags| == 16
  {
    match s case Xmm(r) => tags[r] case Memory(_) => Unknown
  }

  function Expand(tags: seq<Tag>, i: VInstr): (r: (Option<VecError>, VInstr))
    requires |tags| == 16
  {
    match i
    case AddSD(d, s) =>
      if tags[d] == DoubleX2 && TagOf(tags, s) == DoubleX2 then (None, AddPD(d, s))
      else if Wide(tags[d]) || Wide(TagOf(tags, s)) then (Some(Stopped), i)
      else (None, i)
    case VAddSD(d, s, s2) =>
      if tags[d] == DoubleX2 && tags[s] == DoubleX2 then (None, VAddPD(2, d, s, s2))
      else if tags[d] == DoubleX4 && tags[s] == DoubleX4 then (None, VAddPD(4, d, s, s2))
      else if Wide(tags[d]) || Wide(tags[s]) then (Some(Stopped), i)
      else (None, i)
    case HintCall => (None, i)
    case HintRet => (None, i)
    case Ret => (None, i)
    case _ => (Some(Unsupported), i)
  }

  /** Tags of the arguments, tag of the result, lanes. */
  function Tags(q: Request): (t: seq<Tag>)
    ensures |t| == 16
  {
    match q
    case X2_RV => seq(16, r => if r == 0 then DoubleX2 else Unknown)
    case X2_RVV => seq(16, r => if r <= 1 then DoubleX2 else Unknown)
    case X2_RP => seq(16, r => if r == 0 then PtrDoubleX2 else Unknown)
    case X4_RV => seq(16, r => if r == 0 then DoubleX4 else Unknown)
    case X4_RVV => seq(16, r => if r <= 1 then DoubleX4 else Unknown)
    case X4_RP => seq(16, r => if r == 0 then PtrDoubleX4 else Unknown)
  }

  function Lanes(q: Request): nat { if q in {X2_RV, X2_RVV, X2_RP} then 2 else 4 }

  function ResultTag(q: Request): Tag { if Lanes(q) == 2 then DoubleX2 else DoubleX4 }

  // ----- what the kernels compute, for any addition of doubles

  /** Addition, the content of memory, and zero. */
  datatype Floats<!T> = Floats(add: (T, T) -> T, mem: int -> T, zero: T)

  /** Registers of a scalar kernel: their low doubles. */
  function ScalarSource<T>(f: Floats<T>, s: seq<T>, x: Source): T
    requires |s| == 16
  {
    match x case Xmm(r) => s[r] case Memory(a) => f.mem(a)
  }

  function ScalarStep<T>(f: Floats<T>, s: seq<T>, i: VInstr): (s': seq<T>)
    requires |s| == 16
    ensures |s'| == 16
  {
    match i
    case AddSD(d, x) => s[d := f.add(s[d], ScalarSource(f, s, x))]
    case VAddSD(d, a, x) => s[d := f.add(s[a], ScalarSource(f, s, x))]
    case _ => s
  }

  function ScalarRun<T>(f: Floats<T>, s: seq<T>, code: seq<VInstr>): (s': seq<T>)
    requires |s| == 16
    ensures |s'| == 16
  {
    if code == [] then s else ScalarStep(f, ScalarRun(f, s, code[..|code| - 1]), code[|code| - 1])
  }

  predicate Vectors<T>(v: seq<seq<T>>) { |v| == 16 && forall r :: 0 <= r < 16 ==> |v[r]| == 4 }

  /** Lane k of a source; consecutive doubles in memory. */
  function LaneSource<T>(f: Floats<T>, v: seq<seq<T>>, x: Source, k: nat): T
    requires Vectors(v) && k < 4
  {
    match x case Xmm(r) => v[r][k] case Memory(a) => f.mem(a + 8 * k)
  }

  /** Legacy instructions keep the upper part of the register, the others clear it. */
  function VectorStep<T>(f: Floats<T>, v: seq<seq<T>>, i: VInstr): (v': seq<seq<T>>)
    requires Vectors(v)
    ensures Vectors(v')
  {
    match i
    case AddSD(d, x) => v[d := v[d][0 := f.add(v[d][0], LaneSource(f, v, x, 0))]]
    case AddPD(d, x) =>
      v[d := seq(4, k requires 0 <= k < 4 => if k < 2 then f.add(v[d][k], LaneSource(f, v, x, k)) else v[d][k])]
    case VAddSD(d, a, x) => v[d := [f.add(v[a][0], LaneSource(f, v, x, 0)), v[a][1], f.zero, f.zero]]
    case VAddPD(n, d, a, x) =>
      v[d := seq(4, k requires 0 <= k < 4 => if k < n then f.add(v[a][k], LaneSource(f, v, x, k)) else f.zero)]
    case _ => v
  }

  function VectorRun<T>(f: Floats<T>, v: seq<seq<T>>, code: seq<VInstr>): (v': seq<seq<T>>)
    requires Vectors(v)
    ensures Vectors(v')
  {
    if code == [] then v else VectorStep(f, VectorRun(f, v, code[..|code| - 1]), code[|code| - 1])
  }

  // ----- lanes

  /** Expanded registers hold the scalar value of lane k in lane k, the others hold it in the lowest lane. */
  predicate InLane<T(==)>(tags: seq<Tag>, v: seq<seq<T>>, s: seq<T>, k: nat)
    requires |tags| == 16 && Vectors(v) && |s| == 16 && k < 4
  {
    forall r :: 0 <= r < 16 ==> s[r] == v[r][if Wide(tags[r]) then k else 0]
  }

  /** What the pass does not look at: the second source of the three-operand addition must be expanded exactly
      if the first one is. */
  predicate SecondSourceFits(tags: seq<Tag>, i: VInstr)
    requires |tags| == 16
  {
    i.VAddSD? ==> Wide(TagOf(tags, i.src2)) == Wide(tags[i.src1])
  }

  predicate Uniform(tags: seq<Tag>, n: nat)
    requires |tags| == 16
  {
    forall r :: 0 <= r < 16 && Wide(tags[r]) ==> n == if tags[r] == DoubleX2 then 2 else 4
  }

  lemma LaneStep<T>(f: Floats<T>, tags: seq<Tag>, n: nat, v: seq<seq<T>>, s: seq<T>, k: nat, i: VInstr)
    requires |tags| == 16 && Vectors(v) && |s| == 16 && k < n <= 4 && Uniform(tags, n) && InLane(tags, v, s, k)
    requires Expand(tags, i).0 == None && SecondSourceFits(tags, i)
    ensures InLane(tags, VectorStep(f, v, Expand(tags, i).1), ScalarStep(f, s, i), k)
  {
    var v', s' := VectorStep(f, v, Expand(tags, i).1), ScalarStep(f, s, i);
    if i.AddSD? || i.VAddSD? {
      var lane := if Wide(tags[i.dst]) then k else 0;
      var x := if i.AddSD? then i.src else i.src2;
      var a := if i.AddSD? then i.dst else i.src1;
      assert s[a] == v[a][if Wide(tags[a]) then k else 0];
      assert ScalarSource(f, s, x) == LaneSource(f, v, x, if Wide(TagOf(tags, x)) then k else 0);
      assert Wide(tags[a]) == Wide(tags[i.dst]) == Wide(TagOf(tags, x));
      assert s'[i.dst] == v'[i.dst][lane];
    }
    forall r | 0 <= r < 16 ensures s'[r] == v'[r][if Wide(tags[r]) then k else 0] {}
  }

  function Expanded(tags: seq<Tag>, code: seq<VInstr>): (e: seq<VInstr>)
    requires |tags| == 16
    ensures |e| == |code|
  {
    seq(|code|, j requires 0 <= j < |code| => Expand(tags, code[j]).1)
  }

  predicate Accepts(tags: seq<Tag>, code: seq<VInstr>)
    requires |tags| == 16
  {
    forall j :: 0 <= j < |code| ==> Expand(tags, code[j]).0 == None
  }

  predicate SecondSourcesFit(tags: seq<Tag>, code: seq<VInstr>)
    requires |tags| == 16
  {
    forall j :: 0 <= j < |code| ==> SecondSourceFits(tags, code[j])
  }

  lemma {:induction false} LaneRun<T>(f: Floats<T>, tags: seq<Tag>, n: nat, v: seq<seq<T>>, s: seq<T>, k: nat,
                                      code: seq<VInstr>)
    requires |tags| == 16 && Vectors(v) && |s| == 16 && k < n <= 4 && Uniform(tags, n) && InLane(tags, v, s, k)
    requires Accepts(tags, code) && SecondSourcesFit(tags, code)
    ensures InLane(tags, VectorRun(f, v, Expanded(tags, code)), ScalarRun(f, s, code), k)
    decreases |code|
  {
    hide Expand, SecondSourceFits, InLane, VectorStep, ScalarStep, Uniform, Vectors;
    if code != [] {
      var init, i := code[..|code| - 1], code[|code| - 1];
      LaneRun(f, tags, n, v, s, k, init);
      assert Expanded(tags, code)[..|code| - 1] == Expanded(tags, init);
      LaneStep(f, tags, n, VectorRun(f, v, Expanded(tags, init)), ScalarRun(f, s, init), k, i);
    }
  }

  /** The expanded kernel computes in lane k of its result what the kernel computes on lane k of its arguments,
      whatever the addition of doubles does. */
  lemma KernelExpanded<T>(f: Floats<T>, q: Request, v: seq<seq<T>>, s: seq<T>, k: nat, code: seq<VInstr>)
    requires q in {X2_RV, X2_RVV, X4_RV, X4_RVV}
    requires Vectors(v) && |s| == 16 && k < Lanes(q) && InLane(Tags(q), v, s, k)
    requires Accepts(Tags(q), code) && SecondSourcesFit(Tags(q), code)
    ensures VectorRun(f, v, Expanded(Tags(q), code))[0][k] == ScalarRun(f, s, code)[0]
  {
    LaneRun(f, Tags(q), Lanes(q), v, s, k, code);
  }

  /** Whether an accepted three-operand addition keeps every lane of every input, for every addition. */
  ghost predicate KeepsLanes(tags: seq<Tag>, n: nat, i: VInstr)
    requires |tags| == 16 && n <= 4
  {
    forall f: Floats<int>, v: seq<seq<int>>, s: seq<int>, k: nat ::
      Vectors(v) && |s| == 16 && k < n && InLane(tags, v, s, k) ==>
        InLane(tags, VectorStep(f, v, Expand(tags, i).1), ScalarStep(f, s, i), k)
  }

  /** The pass is right on an instruction it accepts exactly if the source it does not look at fits. */
  lemma SecondSourceMatters(q: Request, i: VInstr)
    requires q in {X2_RV, X2_RVV, X4_RV, X4_RVV} && Expand(Tags(q), i).0 == None
    ensures KeepsLanes(Tags(q), Lanes(q), i) <==> SecondSourceFits(Tags(q), i)
  {
    var tags, n := Tags(q), Lanes(q);
    if SecondSourceFits(tags, i) {
      forall f: Floats<int>, v: seq<seq<int>>, s: seq<int>, k: nat |
        Vectors(v) && |s| == 16 && k < n && InLane(tags, v, s, k)
        ensures InLane(tags, VectorStep(f, v, Expand(tags, i).1), ScalarStep(f, s, i), k)
      {
        LaneStep(f, tags, n, v, s, k, i);
      }
    } else {
      SecondSourceBreaks(tags, n, i);
    }
  }

  /** addsd xmm0, xmm0, xmm5 in a kernel with one vector argument is accepted, and wrong. */
  lemma SecondSourceWrong()
    ensures var i := VAddSD(0, 0, Xmm(5)); Expand(Tags(X4_RV), i).0 == None && !KeepsLanes(Tags(X4_RV), Lanes(X4_RV), i)
  {
    SecondSourceMatters(X4_RV, VAddSD(0, 0, Xmm(5)));
  }

  /** Lane 1 of a register that was not expanded is arbitrary; an expanded one differs between lanes. */
  lemma SecondSourceBreaks(tags: seq<Tag>, n: nat, i: VInstr)
    requires |tags| == 16 && 2 <= n <= 4 && Uniform(tags, n) && Expand(tags, i).0 == None && !SecondSourceFits(tags, i)
    ensures !KeepsLanes(tags, n, i)
  {
    var f := Floats((x, y) => x + y, (a: int) => a, 0);
    var v := seq(16, r => [1, 2, 3, 4]);
    var s := seq(16, r requires 0 <= r < 16 => if Wide(tags[r]) then 2 else 1);
    assert Vectors(v) && InLane(tags, v, s, 1);
    var v', s' := VectorStep(f, v, Expand(tags, i).1), ScalarStep(f, s, i);
    var d := i.dst;
    assert s'[d] != v'[d][if Wide(tags[d]) then 1 else 0];
    assert !InLane(tags, v', s', 1);
  }

  // ----- the pass

  class Vectorizer {
    const capacity: nat
    const vrt: array<Tag>
    var capInstr: seq<VInstr>

    constructor (capacity: nat, captured: seq<VInstr>)
      ensures vrt.Length == 16 && fresh(vrt) && this.capacity == capacity && capInstr == captured
    {
      this.capacity := capacity;
      vrt := new Tag[16](i => Unknown);
      capInstr := captured;
    }

    /** The vector form of an instruction. */
    method DoVec(src: VInstr) returns (e: Option<VecError>, dst: VInstr)
      requires vrt.Length == 16
      ensures (e, dst) == Expand(vrt[..], src)
    {
      e, dst := None, src;
      match src
      case AddSD(d, s) =>
        var t1 := vrt[d];
        var t2 := if s.Xmm? then vrt[s.r] else Unknown;
        if t1 == DoubleX2 && t2 == DoubleX2 { dst := AddPD(d, s); }
        else if Wide(t1) || Wide(t2) { e := Some(Stopped); }
      case VAddSD(d, s, s2) =>
        if vrt[d] == DoubleX2 && vrt[s] == DoubleX2 { dst := VAddPD(2, d, s, s2); }
        else if vrt[d] == DoubleX4 && vrt[s] == DoubleX4 { dst := VAddPD(4, d, s, s2); }
        else if Wide(vrt[d]) || Wide(vrt[s]) { e := Some(Stopped); }
      case HintCall =>
      case HintRet =>
      case Ret =>
      case _ => e := Some(Unsupported);
    }

    /** Expanded copies of the instructions in first..first + count, behind all captured ones. */
    method VecPass(first: nat, count: nat) returns (e: Option<VecError>, first': nat)
      requires vrt.Length == 16 && first + count <= |capInstr|
      modifies this`capInstr
      ensures old(capInstr) <= capInstr
      ensures e == None ==> first' + count <= |capInstr|
      ensures e == None ==>
        var code := old(capInstr)[first..first + count];
        Accepts(vrt[..], code) && capInstr[first'..first' + count] == Expanded(vrt[..], code)
      ensures e.Some? && e.value != NoRoom ==> !Accepts(vrt[..], old(capInstr)[first..first + count])
      ensures e == None <==>
        Accepts(vrt[..], old(capInstr)[first..first + count]) && (count == 0 || |old(capInstr)| + count <= capacity)
    {
      first' := first;
      if count == 0 {
        assert capInstr[first..first] == Expanded(vrt[..], []);
        return None, first;
      }
      ghost var code := capInstr[first..first + count];
      first' := |capInstr|;
      for i := 0 to count
        invariant |capInstr| == first' + i && old(capInstr) <= capInstr && first' == |old(capInstr)|
        invariant i == 0 || |capInstr| <= capacity
        invariant Accepts(vrt[..], code[..i]) && capInstr[first'..] == Expanded(vrt[..], code[..i])
      {
        if |capInstr| >= capacity { return Some(NoRoom), first'; }
        var src := capInstr[first + i];
        assert src == code[i];
        var dst;
        e, dst := DoVec(src);
        if e.Some? {
          assert Expand(vrt[..], code[i]).0 != None;
          return;
        }
        capInstr := capInstr + [dst];
        assert code[..i + 1] == code[..i] + [code[i]];
      }
      assert code[..count] == code;
      assert capInstr[first'..first' + count] == capInstr[first'..];
      e := None;
    }

    /** Expand the only captured block as requested. That succeeds exactly for accepted blocks with room for the copies,
        unless the request has a pointer argument: then it always stops. */
    method RunVectorization(q: Request, first: nat, count: nat) returns (e: Option<VecError>, first': nat)
      requires vrt.Length == 16 && first + count <= |capInstr|
      modifies this`capInstr, vrt
      ensures e == None <==>
        && q !in {X2_RP, X4_RP} && Accepts(Tags(q), old(capInstr)[first..first + count])
        && (count == 0 || |old(capInstr)| + count <= capacity)
      ensures e == None ==> vrt[..] == Tags(q) && first' + count <= |capInstr|
      ensures e == None ==>
        var code := old(capInstr)[first..first + count];
        Accepts(Tags(q), code) && capInstr[first'..first' + count] == Expanded(Tags(q), code)
    {
      forall i | 0 <= i < 16 { vrt[i] := Unknown; }
      match q {
        case X2_RV => vrt[0] := DoubleX2;
        case X2_RVV => vrt[0], vrt[1] := DoubleX2, DoubleX2;
        case X2_RP => vrt[0] := PtrDoubleX2;
        case X4_RV => vrt[0] := DoubleX4;
        case X4_RVV => vrt[0], vrt[1] := DoubleX4, DoubleX4;
        case X4_RP => vrt[0] := PtrDoubleX4;
      }
      assert vrt[..] == Tags(q);
      e, first' := VecPass(first, count);
      if e == None && vrt[0] != ResultTag(q) { e := Some(Stopped); }
    }
  }
}
