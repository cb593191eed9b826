/** Successors and predecessors of instructions with debug intrinsics skipped (svf-llvm/lib/LLVMUtil.cpp). */
module ControlFlow {

  /** What the control flow needs to know of an instruction. `opaqueCallee` marks calls whose callee is
      unknown or external; `caseOf` gives the value that leads to a block, where it is unique and has no more
      than 64 bits. */
  datatype Instruction =
    | Ret
    | Branch(conditional: bool)
    | Switch(caseOf: map<nat, int>)
    | Call(opaqueCallee: bool)
    | Intrinsic
    | Other

  datatype BasicBlock = BasicBlock(insts: seq<Instruction>, succs: seq<nat>, preds: seq<nat>)

  type Cfg = seq<BasicBlock>

  /** The place of an instruction. */
  datatype Pos = Pos(block: nat, index: nat)

  predicate Within(f: Cfg, p: Pos) {
    p.block < |f| && p.index < |f[p.block].insts|
  }

  function At(f: Cfg, p: Pos): Instruction
    requires Within(f, p)
  {
    f[p.block].insts[p.index]
  }

  predicate IsIntrinsic(f: Cfg, p: Pos) {
    Within(f, p) && At(f, p).Intrinsic?
  }

  predicate IsTerminator(f: Cfg, p: Pos)
    requires Within(f, p)
  {
    p.index + 1 == |f[p.block].insts|
  }

  /** Blocks are not empty and end in a terminator that is not an intrinsic, predecessors mirror
      successors, returns end a block without successors. */
  ghost predicate WellFormed(f: Cfg) {
    && (forall b: nat | b < |f| :: f[b].insts != [] && !IsIntrinsic(f, Last(f, b)))
    && (forall b: nat, s: nat {:trigger s in f[b].succs} | b < |f| && s in f[b].succs :: s < |f| && b in f[s].preds)
    && (forall b: nat, s: nat {:trigger s in f[b].preds} | b < |f| && s in f[b].preds :: s < |f| && b in f[s].succs)
    && (forall p: Pos | Within(f, p) && At(f, p).Ret? :: IsTerminator(f, p) && f[p.block].succs == [])
  }

  function First(b: nat): Pos { Pos(b, 0) }

  function Last(f: Cfg, b: nat): Pos
    requires b < |f| && f[b].insts != []
  {
    Pos(b, |f[b].insts| - 1)
  }

  predicate IsLast(f: Cfg, b: nat, p: Pos) {
    b < |f| && f[b].insts != [] && p == Last(f, b)
  }

  // ---------------------------------------------------------------- what the functions compute

  /** getNextInsts, as the list it appends. */
  function Next(f: Cfg, p: Pos): (r: seq<Pos>)
    requires WellFormed(f) && Within(f, p)
    decreases if IsTerminator(f, p) then 1 else 0, |f[p.block].insts| - p.index, 0
  {
    if !IsTerminator(f, p) then
      var q := Pos(p.block, p.index + 1);
      if IsIntrinsic(f, q) then Next(f, q) else [q]
    else NextOfBlocks(f, p, |f[p.block].succs|)
  }

  /** The first `count` successor blocks. */
  function NextOfBlocks(f: Cfg, p: Pos, count: nat): (r: seq<Pos>)
    requires WellFormed(f) && Within(f, p) && IsTerminator(f, p) && count <= |f[p.block].succs|
    decreases 1, 0, count
  {
    if count == 0 then []
    else
      var s := f[p.block].succs[count - 1];
      NextOfBlocks(f, p, count - 1) + if IsIntrinsic(f, First(s)) then Next(f, First(s)) else [First(s)]
  }

  /** getPrevInsts, as the list it appends. */
  function Prev(f: Cfg, p: Pos): (r: seq<Pos>)
    requires WellFormed(f) && Within(f, p)
    decreases p.index, 1, 0
  {
    if p.index > 0 then
      var q := Pos(p.block, p.index - 1);
      if IsIntrinsic(f, q) then Prev(f, q) else [q]
    else LastOfBlocks(f, p.block, |f[p.block].preds|)
  }

  /** The first `count` predecessor blocks; their terminators are no intrinsics. */
  function LastOfBlocks(f: Cfg, b: nat, count: nat): (r: seq<Pos>)
    requires WellFormed(f) && b < |f| && count <= |f[b].preds|
    decreases 0, 0, count
  {
    if count == 0 then []
    else
      var s := f[b].preds[count - 1];
      assert s in f[b].preds;
      LastOfBlocks(f, b, count - 1) + [Last(f, s)]
  }

  // ---------------------------------------------------------------- the methods

  /** getNextInsts */
  method GetNextInsts(f: Cfg, curInst: Pos, instList0: seq<Pos>) returns (instList: seq<Pos>)
    requires WellFormed(f) && Within(f, curInst)
    ensures instList == instList0 + Next(f, curInst)
    decreases if IsTerminator(f, curInst) then 1 else 0, |f[curInst.block].insts| - curInst.index
  {
    instList := instList0;
    if !IsTerminator(f, curInst) {
      var nextInst := Pos(curInst.block, curInst.index + 1);
      if IsIntrinsic(f, nextInst) {
        instList := GetNextInsts(f, nextInst, instList);
      } else {
        instList := instList + [nextInst];
      }
    } else {
      var succs := f[curInst.block].succs;
      for i := 0 to |succs|
        invariant instList == instList0 + NextOfBlocks(f, curInst, i)
      {
        var nextInst := First(succs[i]);
        if IsIntrinsic(f, nextInst) {
          instList := GetNextInsts(f, nextInst, instList);
        } else {
          instList := instList + [nextInst];
        }
      }
    }
  }

  /** getPrevInsts */
  method GetPrevInsts(f: Cfg, curInst: Pos, instList0: seq<Pos>) returns (instList: seq<Pos>)
    requires WellFormed(f) && Within(f, curInst)
    ensures instList == instList0 + Prev(f, curInst)
    decreases curInst.index
  {
    instList := instList0;
    if curInst.index > 0 {
      var prevInst := Pos(curInst.block, curInst.index - 1);
      if IsIntrinsic(f, prevInst) {
        instList := GetPrevInsts(f, prevInst, instList);
      } else {
        instList := instList + [prevInst];
      }
    } else {
      var preds := f[curInst.block].preds;
      for i := 0 to |preds|
        invariant instList == instList0 + LastOfBlocks(f, curInst.block, i)
      {
        assert preds[i] in preds;
        var prevInst := Last(f, preds[i]);
        assert !IsIntrinsic(f, prevInst);
        instList := instList + [prevInst];
      }
    }
  }

  // ---------------------------------------------------------------- paths over intrinsics

  /** q directly follows p. */
  predicate Flow(f: Cfg, p: Pos, q: Pos) {
    && Within(f, p) && Within(f, q)
    && if IsTerminator(f, p) then q.block in f[p.block].succs && q.index == 0
       else q == Pos(p.block, p.index + 1)
  }

  /** A path from p to q with nothing but intrinsics in between. */
  ghost predicate SkipsIntrinsics(f: Cfg, path: seq<Pos>, p: Pos, q: Pos) {
    && |path| >= 2 && path[0] == p && path[|path| - 1] == q
    && (forall i: nat | i + 1 < |path| :: Flow(f, path[i], path[i + 1]))
    && (forall i: nat | 0 < i < |path| - 1 :: IsIntrinsic(f, path[i]))
  }

  /** q is the next proper instruction after p, on some way through the graph. */
  ghost predicate Follows(f: Cfg, p: Pos, q: Pos) {
    !IsIntrinsic(f, q) && exists path :: SkipsIntrinsics(f, path, p, q)
  }

  /** p is the last proper instruction before q, on some way through the graph. */
  ghost predicate Precedes(f: Cfg, p: Pos, q: Pos) {
    !IsIntrinsic(f, p) && exists path :: SkipsIntrinsics(f, path, p, q)
  }

  /** MAIN RESULT: getNextInsts finds exactly the instructions that follow over intrinsics. */
  lemma NextIsFollows(f: Cfg, p: Pos, q: Pos)
    requires WellFormed(f) && Within(f, p)
    ensures q in Next(f, p) <==> Follows(f, p, q)
  {
    if q in Next(f, p) {
      NextIsSound(f, p, q);
    }
    if Follows(f, p, q) {
      var path :| SkipsIntrinsics(f, path, p, q);
      NextIsComplete(f, path, p, q);
    }
  }

  lemma {:induction false} NextIsSound(f: Cfg, p: Pos, q: Pos)
    requires WellFormed(f) && Within(f, p) && q in Next(f, p)
    ensures Follows(f, p, q)
    decreases if IsTerminator(f, p) then 1 else 0, |f[p.block].insts| - p.index
  {
    if !IsTerminator(f, p) {
      FollowsThrough(f, p, Pos(p.block, p.index + 1), q);
    } else {
      var k := SourceOfNext(f, p, |f[p.block].succs|, q);
      var s := f[p.block].succs[k];
      assert s in f[p.block].succs;
      FollowsThrough(f, p, First(s), q);
    }
  }

  lemma {:induction false} FollowsThrough(f: Cfg, p: Pos, x: Pos, q: Pos)
    requires WellFormed(f) && Flow(f, p, x)
    requires if IsIntrinsic(f, x) then q in Next(f, x) else q == x
    ensures Follows(f, p, q)
    decreases if IsTerminator(f, p) then 1 else 0, |f[p.block].insts| - p.index, 0
  {
    if IsIntrinsic(f, x) {
      assert x != Last(f, x.block);
      NextIsSound(f, x, q);
      var path :| SkipsIntrinsics(f, path, x, q);
      var longer := [p] + path;
      assert forall i: nat | i + 1 < |path| :: Flow(f, path[i], path[i + 1]);
      forall i: nat | i + 1 < |longer| ensures Flow(f, longer[i], longer[i + 1]) {
        if i > 0 {
          var j: nat := i - 1;
          assert longer[i] == path[j] && longer[i + 1] == path[j + 1];
        }
      }
      assert SkipsIntrinsics(f, longer, p, q);
    } else {
      assert SkipsIntrinsics(f, [p, x], p, q);
    }
  }

  lemma {:induction false} SourceOfNext(f: Cfg, p: Pos, count: nat, q: Pos) returns (k: nat)
    requires WellFormed(f) && Within(f, p) && IsTerminator(f, p) && count <= |f[p.block].succs|
    requires q in NextOfBlocks(f, p, count)
    ensures k < count
    ensures var x := First(f[p.block].succs[k]); if IsIntrinsic(f, x) then q in Next(f, x) else q == x
  {
    if q in NextOfBlocks(f, p, count - 1) {
      k := SourceOfNext(f, p, count - 1, q);
    } else {
      k := count - 1;
    }
  }

  lemma {:induction false} NextIsComplete(f: Cfg, path: seq<Pos>, p: Pos, q: Pos)
    requires WellFormed(f) && SkipsIntrinsics(f, path, p, q) && !IsIntrinsic(f, q)
    ensures Within(f, p) && q in Next(f, p)
    decreases |path|
  {
    var x := path[1];
    assert Flow(f, path[0], path[0 + 1]);
    if |path| > 2 {
      var rest := path[1..];
      forall i: nat | i + 1 < |rest| ensures Flow(f, rest[i], rest[i + 1]) {
        var j: nat := i + 1;
        assert rest[i] == path[j] && rest[i + 1] == path[j + 1];
      }
      assert SkipsIntrinsics(f, rest, x, q);
      NextIsComplete(f, rest, x, q);
    }
    if IsTerminator(f, p) {
      var k: nat :| k < |f[p.block].succs| && f[p.block].succs[k] == x.block;
      InNextOfBlocks(f, p, |f[p.block].succs|, k, q);
    }
  }

  lemma {:induction false} InNextOfBlocks(f: Cfg, p: Pos, count: nat, k: nat, q: Pos)
    requires WellFormed(f) && Within(f, p) && IsTerminator(f, p) && k < count <= |f[p.block].succs|
    requires var x := First(f[p.block].succs[k]); if IsIntrinsic(f, x) then q in Next(f, x) else q == x
    ensures q in NextOfBlocks(f, p, count)
  {
    if k < count - 1 {
      InNextOfBlocks(f, p, count - 1, k, q);
    }
  }

  // ---------------------------------------------------------------- predecessors

  lemma PrevIsPrecedes(f: Cfg, q: Pos, p: Pos)
    requires WellFormed(f) && Within(f, q)
    ensures p in Prev(f, q) <==> Precedes(f, p, q)
  {
    if p in Prev(f, q) {
      PrevIsSound(f, q, p);
    }
    if Precedes(f, p, q) {
      var path :| SkipsIntrinsics(f, path, p, q);
      PrevIsComplete(f, path, p, q);
    }
  }

  lemma {:induction false} PrevIsSound(f: Cfg, q: Pos, p: Pos)
    requires WellFormed(f) && Within(f, q) && p in Prev(f, q)
    ensures Precedes(f, p, q)
    decreases q.index
  {
    if q.index > 0 {
      var x := Pos(q.block, q.index - 1);
      assert Flow(f, x, q);
      if IsIntrinsic(f, x) {
        PrevIsSound(f, x, p);
        var path :| SkipsIntrinsics(f, path, p, x);
        PathWithStep(f, path, p, x, q);
      } else {
        assert SkipsIntrinsics(f, [x, q], x, q);
      }
    } else {
      LastOfPredecessor(f, q.block, |f[q.block].preds|, p);
      assert Flow(f, p, q);
      assert SkipsIntrinsics(f, [p, q], p, q);
    }
  }

  lemma PathWithStep(f: Cfg, path: seq<Pos>, p: Pos, x: Pos, q: Pos)
    requires SkipsIntrinsics(f, path, p, x) && IsIntrinsic(f, x) && Flow(f, x, q)
    ensures SkipsIntrinsics(f, path + [q], p, q)
  {
    var longer := path + [q];
    forall i: nat | i + 1 < |longer| ensures Flow(f, longer[i], longer[i + 1]) {
      if i + 1 < |path| {
        assert Flow(f, path[i], path[i + 1]);
      }
    }
  }

  lemma {:induction false} LastOfPredecessor(f: Cfg, b: nat, count: nat, p: Pos)
    requires WellFormed(f) && b < |f| && count <= |f[b].preds|
    ensures p in LastOfBlocks(f, b, count) <==> exists k: nat | k < count :: IsLast(f, f[b].preds[k], p)
    ensures p in LastOfBlocks(f, b, count) ==> Within(f, p) && b in f[p.block].succs && !IsIntrinsic(f, p)
  {
    if count > 0 {
      LastOfPredecessor(f, b, count - 1, p);
      assert f[b].preds[count - 1] in f[b].preds;
    }
  }

  lemma {:induction false} PrevIsComplete(f: Cfg, path: seq<Pos>, p: Pos, q: Pos)
    requires WellFormed(f) && SkipsIntrinsics(f, path, p, q) && !IsIntrinsic(f, p)
    ensures Within(f, q) && p in Prev(f, q)
    decreases |path|
  {
    var n := |path| - 2;
    var x := path[n];
    assert Flow(f, path[n], path[n + 1]);
    if |path| > 2 {
      var rest := path[..n + 1];
      forall i: nat | i + 1 < |rest| ensures Flow(f, rest[i], rest[i + 1]) {
        assert Flow(f, path[i], path[i + 1]);
      }
      assert SkipsIntrinsics(f, rest, p, x);
      PrevIsComplete(f, rest, p, x);
    }
    if IsTerminator(f, x) {
      assert x == Last(f, x.block) && !IsIntrinsic(f, x);
      assert x.block in f[q.block].preds;
      var k: nat :| k < |f[q.block].preds| && f[q.block].preds[k] == x.block;
      LastOfPredecessor(f, q.block, |f[q.block].preds|, x);
    }
  }

  /** MAIN RESULT: next and previous are converse relations on proper instructions. */
  lemma NextAndPrevAreConverse(f: Cfg, p: Pos, q: Pos)
    requires WellFormed(f) && Within(f, p) && Within(f, q) && !IsIntrinsic(f, p) && !IsIntrinsic(f, q)
    ensures q in Next(f, p) <==> p in Prev(f, q)
  {
    NextIsFollows(f, p, q);
    PrevIsPrecedes(f, q, p);
  }

  // ---------------------------------------------------------------- one entry per successor

  /** The i-th entry belongs to the i-th successor block, whatever intrinsics are skipped: this is why a
      running number tells the true branch from the false one. */
  lemma NextOfTerminator(f: Cfg, p: Pos)
    requires WellFormed(f) && Within(f, p) && IsTerminator(f, p)
    ensures |Next(f, p)| == |f[p.block].succs|
    ensures forall i: nat | i < |Next(f, p)| :: Next(f, p)[i].block == f[p.block].succs[i]
  {
    NextOfBlocksOneEach(f, p, |f[p.block].succs|);
  }

  lemma {:induction false} NextOfBlocksOneEach(f: Cfg, p: Pos, count: nat)
    requires WellFormed(f) && Within(f, p) && IsTerminator(f, p) && count <= |f[p.block].succs|
    ensures |NextOfBlocks(f, p, count)| == count
    ensures forall i: nat | i < count :: NextOfBlocks(f, p, count)[i].block == f[p.block].succs[i]
  {
    if count > 0 {
      NextOfBlocksOneEach(f, p, count - 1);
      var x := First(f[p.block].succs[count - 1]);
      if IsIntrinsic(f, x) {
        NextWithinBlock(f, x);
      }
    }
  }

  lemma {:induction false} NextWithinBlock(f: Cfg, x: Pos)
    requires WellFormed(f) && IsIntrinsic(f, x)
    ensures |Next(f, x)| == 1 && Next(f, x)[0].block == x.block
    decreases |f[x.block].insts| - x.index
  {
    assert x != Last(f, x.block);
    var q := Pos(x.block, x.index + 1);
    if IsIntrinsic(f, q) {
      NextWithinBlock(f, q);
    }
  }

  lemma NextIsProper(f: Cfg, p: Pos)
    requires WellFormed(f) && Within(f, p)
    ensures forall q | q in Next(f, p) :: Within(f, q) && !IsIntrinsic(f, q)
  {
    forall q | q in Next(f, p) ensures Within(f, q) && !IsIntrinsic(f, q) {
      NextIsFollows(f, p, q);
      var path :| SkipsIntrinsics(f, path, p, q);
      var n: nat := |path| - 2;
      assert Flow(f, path[n], path[n + 1]);
    }
  }
}
