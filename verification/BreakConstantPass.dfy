/** The worklist of `BreakConstantGEPs::runOnModule`, in place on function objects: it terminates,
    leaves nothing to break, and only ever takes conversion steps. */
module BreakConstantPass {
  import opened BreakConstantExpr

  // ------------------------------------------------------------- termination measure

  function Size(c: Constant): nat {
    match c
    case Atom(_) => 0
    case ConstantExpr(_, xs) => 1 + SizeAll(xs)
  }

  function SizeAll(xs: seq<Constant>): nat {
    if xs == [] then 0 else Size(xs[0]) + SizeAll(xs[1..])
  }

  function Weight(v: Value): nat {
    if HasConstantExpr(v) then Size(v.c) else 0
  }

  function Weights(vs: seq<Value>): nat {
    if vs == [] then 0 else Weight(vs[0]) + Weights(vs[1..])
  }

  /** Total size of the operands that still have to be broken. */
  function TotalWeight(insts: seq<Instruction>): nat {
    if insts == [] then 0 else Weights(Operands(insts[0])) + TotalWeight(insts[1..])
  }

  lemma {:induction false} WeightsDrop(vs: seq<Value>, vs': seq<Value>, k0: nat, d: nat)
    requires |vs| == |vs'| && k0 < |vs|
    requires forall k | 0 <= k < |vs| :: Weight(vs'[k]) <= Weight(vs[k])
    requires Weight(vs'[k0]) + d <= Weight(vs[k0])
    ensures Weights(vs') + d <= Weights(vs)
  {
    if k0 == 0 {
      if |vs| > 1 {
        WeightsDrop(vs[1..], vs'[1..], 0, 0);
      }
    } else {
      WeightsDrop(vs[1..], vs'[1..], k0 - 1, d);
    }
  }

  lemma {:induction false} WeightsOfConstants(xs: seq<Constant>, vs: seq<Value>)
    requires |xs| == |vs| && forall k | 0 <= k < |xs| :: vs[k] == Const(xs[k])
    ensures Weights(vs) <= SizeAll(xs)
  {
    if xs != [] {
      WeightsOfConstants(xs[1..], vs[1..]);
    }
  }

  lemma {:induction false} TotalWeightUpdate(insts: seq<Instruction>, id: nat, i': Instruction)
    requires id < |insts|
    ensures TotalWeight(insts[id := i']) == TotalWeight(insts) - Weights(Operands(insts[id])) + Weights(Operands(i'))
  {
    if id > 0 {
      assert insts[id := i'][1..] == insts[1..][id - 1 := i'];
      TotalWeightUpdate(insts[1..], id - 1, i');
    } else {
      assert insts[id := i'][1..] == insts[1..];
    }
  }

  lemma {:induction false} TotalWeightAppend(insts: seq<Instruction>, i: Instruction)
    ensures TotalWeight(insts + [i]) == TotalWeight(insts) + Weights(Operands(i))
  {
    if insts != [] {
      assert (insts + [i])[1..] == insts[1..] + [i];
      TotalWeightAppend(insts[1..], i);
    } else {
      assert (insts + [i])[1..] == [];
    }
  }

  /** Every conversion of a breakable operand makes the total strictly smaller, although the new
      instruction may itself need breaking. */
  lemma ConversionLowersWeight(f: Body, g: Body, id: nat, c: Constant, b: nat, p: nat)
    requires WellFormed(f) && ConvertsIn(f, g, id, c, b, p) && HasConstantExpr(Const(c))
    ensures TotalWeight(g.insts) < TotalWeight(f.insts)
  {
    var i, i' := f.insts[id], g.insts[id];
    var vs, vs' := Operands(i), Operands(i');
    var k0 :| 0 <= k0 < |vs| && vs[k0] == Const(c) && (i.Phi? ==> i.preds[k0] == b);
    assert WellFormedPhi(i, |f.blocks|);
    WeightsDrop(vs, vs', k0, Size(c));
    WeightsOfConstants(c.operands, AsInstruction(c).operands);
    TotalWeightUpdate(f.insts, id, i');
    TotalWeightAppend(f.insts[id := i'], AsInstruction(c));
  }

  // ------------------------------------------------------------------ runs

  lemma ReachesRefl(f: Body)
    ensures Reaches(f, f)
  {
    assert ConversionRun([f], f, f);
  }

  lemma ReachesStep(f: Body, g: Body, h: Body)
    requires Reaches(f, g) && Converts(g, h)
    ensures Reaches(f, h)
  {
    var run :| ConversionRun(run, f, g);
    assert ConversionRun(run + [h], f, h);
  }

  lemma ReachesTransitive(f: Body, g: Body, h: Body)
    requires Reaches(f, g) && Reaches(g, h)
    ensures Reaches(f, h)
  {
    var r1 :| ConversionRun(r1, f, g);
    var r2 :| ConversionRun(r2, g, h);
    var run := r1 + r2[1..];
    forall k | 0 <= k < |run| - 1 ensures Converts(run[k], run[k + 1]) {
      if k >= |r1| - 1 {
        assert run[k] == r2[k - (|r1| - 1)] && run[k + 1] == r2[k + 1 - (|r1| - 1)];
      }
    }
    assert ConversionRun(run, f, h);
  }

  // ------------------------------------------------------------------ the pass

  ghost predicate NothingToBreak(insts: seq<Instruction>) {
    forall i | 0 <= i < |insts| :: !NeedsBreaking(insts[i])
  }

  /** Whatever still needs breaking, `except` aside, is on the worklist. */
  ghost predicate Pending(insts: seq<Instruction>, worklist: seq<nat>, except: int) {
    && AllBelow(worklist, |insts|)
    && forall i | 0 <= i < |insts| && i != except :: NeedsBreaking(insts[i]) ==> i in worklist
  }

  /** At exit no operand of any instruction has a GEP, binary or unary expression at any depth. */
  lemma NothingToBreakMeans(insts: seq<Instruction>)
    requires NothingToBreak(insts)
    ensures forall i, k, s | 0 <= i < |insts| && 0 <= k < |Operands(insts[i])| && Operands(insts[i])[k].Const? ::
              Within(s, Operands(insts[i])[k].c) ==> !BreakableHead(s)
  {
    forall i, k, s | 0 <= i < |insts| && 0 <= k < |Operands(insts[i])| && Operands(insts[i])[k].Const? &&
                     Within(s, Operands(insts[i])[k].c)
      ensures !BreakableHead(s)
    {
      assert !NeedsBreaking(insts[i]);
      HasConstantExprFindsAnyDepth(Operands(insts[i])[k].c);
    }
  }

  class Function {
    var insts: seq<Instruction>
    var blocks: seq<seq<nat>>

    ghost function Contents(): Body
      reads this
    {
      Body(insts, blocks)
    }

    constructor (f: Body)
      ensures Contents() == f
    {
      insts, blocks := f.insts, f.blocks;
    }

    /** convertExpression: a fresh instruction in front of position `p` of block `b`. */
    method ConvertExpression(c: Constant, b: nat, p: nat) returns (newInst: nat)
      requires c.ConstantExpr? && b < |blocks| && p <= |blocks[b]|
      modifies this
      ensures newInst == old(|insts|)
      ensures insts == old(insts) + [AsInstruction(c)]
      ensures blocks == old(blocks)[b := InsertAt(old(blocks)[b], p, newInst)]
    {
      newInst := |insts|;
      insts := insts + [AsInstruction(c)];
      blocks := blocks[b := InsertAt(blocks[b], p, newInst)];
    }

    /** One PHI entry, and with it every later entry for the same predecessor. */
    method BreakIncoming(id: nat, index: nat) returns (newInst: nat)
      requires WellFormed(Contents()) && id < |insts| && insts[id].Phi? && index < |insts[id].values|
      requires |insts[id].values| == |insts[id].preds|
      requires HasConstantExpr(insts[id].values[index])
      requires forall k | 0 <= k < index :: !HasConstantExpr(insts[id].values[k])
      modifies this
      ensures newInst == old(|insts|)
      ensures old(insts[id].preds[index] < |blocks|)
      ensures ConvertsIncoming(old(Contents()), Contents(), id,
                               old(insts[id].values[index].c), old(insts[id].preds[index]))
    {
      ghost var f := Contents();
      var phi := insts[id];
      assert WellFormedPhi(phi, |blocks|);
      var n, b, c := |phi.values|, phi.preds[index], phi.values[index].c;
      assert WellFormedBlock(f, blocks[b]);
      newInst := ConvertExpression(c, b, |blocks[b]| - 1);
      var values := phi.values;
      var i2 := index;
      while i2 < n
        invariant index <= i2 <= n && |values| == n
        invariant forall k | 0 <= k < n ::
                    values[k] == if index <= k < i2 && phi.preds[k] == b then Result(newInst) else phi.values[k]
      {
        if phi.preds[i2] == b {
          values := values[i2 := Result(newInst)];
        }
        i2 := i2 + 1;
      }
      EarlierEntriesUntouched(f, id, index, values);
      insts := insts[id := Phi(values, phi.preds)];
    }

    method BreakIncomingValues(id: nat, todo: seq<nat>) returns (worklist: seq<nat>)
      requires WellFormed(Contents()) && id < |insts| && insts[id].Phi?
      requires Pending(insts, todo, id)
      modifies this
      ensures Progress(old(Contents()), todo, Contents(), worklist)
      ensures Pending(insts, worklist, -1)
    {
      worklist := todo;
      ReachesRefl(Contents());
      var index := 0;
      assert WellFormedPhi(insts[id], |blocks|);
      var n := |insts[id].values|;
      while index < n
        invariant Progress(old(Contents()), todo, Contents(), worklist)
        invariant id < |insts| && insts[id].Phi? && |insts[id].values| == |insts[id].preds| == n && 0 <= index <= n
        invariant forall k | 0 <= k < index :: !HasConstantExpr(insts[id].values[k])
        invariant Pending(insts, worklist, id)
      {
        if HasConstantExpr(insts[id].values[index]) {
          worklist := BreakAndQueue(id, index, worklist, old(Contents()), todo);
        }
        index := index + 1;
      }
    }

    /** One incoming value; the new instruction is queued. */
    method BreakAndQueue(id: nat, index: nat, list: seq<nat>, ghost f0: Body, ghost todo: seq<nat>)
      returns (worklist: seq<nat>)
      requires Progress(f0, todo, Contents(), list) && WellFormed(Contents()) && Pending(insts, list, id)
      requires id < |insts| && insts[id].Phi? && |insts[id].values| == |insts[id].preds| && index < |insts[id].values|
      requires HasConstantExpr(insts[id].values[index])
      requires forall k | 0 <= k < index :: !HasConstantExpr(insts[id].values[k])
      modifies this
      ensures Progress(f0, todo, Contents(), worklist) && Pending(insts, worklist, id)
      ensures id < |insts| && insts[id].Phi?
      ensures |insts[id].values| == |insts[id].preds| == |old(insts[id].values)|
      ensures forall k | 0 <= k <= index :: !HasConstantExpr(insts[id].values[k])
    {
      ghost var f := Contents();
      ghost var c, b := insts[id].values[index].c, insts[id].preds[index];
      var newInst := BreakIncoming(id, index);
      worklist := list + [newInst];
      AfterConversion(f0, todo, f, list, Contents(), id, c, b, |f.blocks[b]| - 1);
    }

    /** One operand, and with it every operand holding the same constant. */
    method BreakOperand(id: nat, index: nat) returns (newInst: nat, ghost b: nat, ghost p: nat)
      requires WellFormed(Contents()) && id < |insts| && !insts[id].Phi? && index < |insts[id].operands|
      requires HasConstantExpr(insts[id].operands[index])
      modifies this
      ensures newInst == old(|insts|)
      ensures ConvertsUse(old(Contents()), Contents(), id, old(insts[id].operands[index].c), b, p)
    {
      assert Placed(Contents(), id);
      var b', p' := Find(id);
      b, p := b', p';
      var user := insts[id];
      var c := user.operands[index].c;
      newInst := ConvertExpression(c, b', p');
      insts := insts[id := ReplaceUses(user, Const(c), Result(newInst))];
    }

    /** The place of an instruction, which LLVM keeps in the instruction itself. */
    method Find(id: nat) returns (b: nat, p: nat)
      requires Placed(Contents(), id)
      ensures At(Contents(), b, p, id)
    {
      ghost var b0: nat, p0: nat :| At(Contents(), b0, p0, id);
      assert b0 < |blocks| && p0 < |blocks[b0]| && blocks[b0][p0] == id;
      b, p :| b < |blocks| && p < |blocks[b]| && blocks[b][p] == id;
    }

    method BreakOperands(id: nat, todo: seq<nat>) returns (worklist: seq<nat>)
      requires WellFormed(Contents()) && id < |insts| && !insts[id].Phi?
      requires Pending(insts, todo, id)
      modifies this
      ensures Progress(old(Contents()), todo, Contents(), worklist)
      ensures Pending(insts, worklist, -1)
    {
      worklist := todo;
      ReachesRefl(Contents());
      var index := 0;
      var n := |insts[id].operands|;
      while index < n
        invariant Progress(old(Contents()), todo, Contents(), worklist)
        invariant id < |insts| && !insts[id].Phi? && |insts[id].operands| == n && 0 <= index <= n
        invariant forall k | 0 <= k < index :: !HasConstantExpr(insts[id].operands[k])
        invariant Pending(insts, worklist, id)
      {
        if HasConstantExpr(insts[id].operands[index]) {
          ghost var f, w := Contents(), worklist;
          ghost var c := insts[id].operands[index].c;
          var newInst, b, p := BreakOperand(id, index);
          worklist := worklist + [newInst];
          AfterConversion(old(Contents()), todo, f, w, Contents(), id, c, b, p);
        }
        index := index + 1;
      }
    }

    /** One entry per breakable operand, in layout order. */
    method InitialWorklist() returns (worklist: seq<nat>)
      requires WellFormed(Contents())
      ensures Pending(insts, worklist, -1)
      ensures forall k | 0 <= k < |worklist| :: worklist[k] < |insts| && NeedsBreaking(insts[worklist[k]])
    {
      worklist := [];
      var b := 0;
      while b < |blocks|
        invariant 0 <= b <= |blocks|
        invariant Scanned(Contents(), worklist, b, 0)
      {
        var p := 0;
        assert WellFormedBlock(Contents(), blocks[b]);
        while p < |blocks[b]|
          invariant 0 <= p <= |blocks[b]|
          invariant Scanned(Contents(), worklist, b, p)
        {
          var id := blocks[b][p];
          var k := 0;
          while k < |Operands(insts[id])|
            invariant 0 <= k <= |Operands(insts[id])|
            invariant Scanned(Contents(), worklist, b, p)
            invariant (exists j | 0 <= j < k :: HasConstantExpr(Operands(insts[id])[j])) ==> id in worklist
          {
            if HasConstantExpr(Operands(insts[id])[k]) {
              worklist := worklist + [id];
            }
            k := k + 1;
          }
          p := p + 1;
        }
        b := b + 1;
      }
      forall i | 0 <= i < |insts| && NeedsBreaking(insts[i]) ensures i in worklist {
        assert Placed(Contents(), i);
        var b': nat, p: nat :| At(Contents(), b', p, i);
      }
    }

    /** runOnModule for one function. */
    method BreakConstants() returns (modified: bool)
      requires WellFormed(Contents())
      modifies this
      ensures WellFormed(Contents()) && Reaches(old(Contents()), Contents())
      ensures NothingToBreak(insts)
      ensures modified <==> !old(NothingToBreak(insts))
    {
      var worklist := InitialWorklist();
      modified := |worklist| > 0;
      assert modified ==> NeedsBreaking(insts[worklist[0]]);
      ReachesRefl(Contents());
      while |worklist| > 0
        invariant WellFormed(Contents()) && Reaches(old(Contents()), Contents())
        invariant Pending(insts, worklist, -1)
        decreases TotalWeight(insts), |worklist|
      {
        ghost var f := Contents();
        var id := worklist[|worklist| - 1];
        var rest := worklist[..|worklist| - 1];
        assert worklist == rest + [id];
        if insts[id].Phi? {
          worklist := BreakIncomingValues(id, rest);
        } else {
          worklist := BreakOperands(id, rest);
        }
        ReachesTransitive(old(Contents()), f, Contents());
      }
    }
  }

  /** The entries of a PHI that share the predecessor of entry `index` all come at or after it,
      because earlier entries are already broken; so the loop from `index` on rewrites them all. */
  lemma EarlierEntriesUntouched(f: Body, id: nat, index: nat, values: seq<Value>)
    requires WellFormed(f) && id < |f.insts| && f.insts[id].Phi?
    requires |values| == |f.insts[id].values| == |f.insts[id].preds| && index < |values|
    requires HasConstantExpr(f.insts[id].values[index])
    requires forall k | 0 <= k < index :: !HasConstantExpr(f.insts[id].values[k])
    requires forall k | 0 <= k < |values| ::
               values[k] == if index <= k && f.insts[id].preds[k] == f.insts[id].preds[index]
                            then Result(|f.insts|) else f.insts[id].values[k]
    ensures Phi(values, f.insts[id].preds) == SetIncoming(f.insts[id], f.insts[id].preds[index], Result(|f.insts|))
  {
    var phi := f.insts[id];
    assert WellFormedPhi(phi, |f.blocks|);
    assert values == SetIncoming(phi, phi.preds[index], Result(|f.insts|)).values;
  }

  /** Conversions only, and either none at all or a smaller total. */
  ghost predicate Progress(f0: Body, todo: seq<nat>, f: Body, worklist: seq<nat>) {
    && WellFormed(f0) && WellFormed(f) && Reaches(f0, f)
    && ((f == f0 && worklist == todo) || TotalWeight(f.insts) < TotalWeight(f0.insts))
  }

  lemma AfterConversion(f0: Body, todo: seq<nat>, f: Body, worklist: seq<nat>, g: Body, id: nat, c: Constant,
                        b: nat, p: nat)
    requires Progress(f0, todo, f, worklist) && ConvertsIn(f, g, id, c, b, p) && HasConstantExpr(Const(c))
    requires Pending(f.insts, worklist, id)
    ensures Progress(f0, todo, g, worklist + [|f.insts|])
    ensures Pending(g.insts, worklist + [|f.insts|], id)
  {
    ConversionLowersWeight(f, g, id, c, b, p);
    ConversionKeepsWellFormed(f, g);
    ReachesStep(f0, f, g);
    TouchesOf(f, g, id, c, b, p);
    StillPending(f, worklist, g, id, c, b);
  }

  lemma StillPending(f: Body, worklist: seq<nat>, g: Body, id: nat, c: Constant, b: nat)
    requires Touches(f, g, id, c, b) && Pending(f.insts, worklist, id)
    ensures Pending(g.insts, worklist + [|f.insts|], id)
  {
    forall i | 0 <= i < |g.insts| && i != id && NeedsBreaking(g.insts[i]) ensures i in worklist + [|f.insts|] {
      if i < |f.insts| {
        assert g.insts[i] == f.insts[i];
      }
    }
  }

  /** Everything before position `p` of block `b` has been looked at. */
  ghost predicate Scanned(f: Body, worklist: seq<nat>, b: nat, p: nat) {
    && (forall k | 0 <= k < |worklist| :: worklist[k] < |f.insts| && NeedsBreaking(f.insts[worklist[k]]))
    && (forall b': nat, p': nat, id: nat |
          At(f, b', p', id) && (b' < b || (b' == b && p' < p)) && id < |f.insts| && NeedsBreaking(f.insts[id]) ::
          id in worklist)
  }

  /** The module: each function has its own worklist. */
  method RunOnModule(functions: seq<Function>) returns (modified: bool)
    requires forall i, j | 0 <= i < j < |functions| :: functions[i] != functions[j]
    requires forall i | 0 <= i < |functions| :: WellFormed(functions[i].Contents())
    modifies functions
    ensures forall i | 0 <= i < |functions| ::
              && WellFormed(functions[i].Contents())
              && Reaches(old(functions[i].Contents()), functions[i].Contents())
              && NothingToBreak(functions[i].insts)
    ensures modified <==> exists i | 0 <= i < |functions| :: !old(NothingToBreak(functions[i].insts))
  {
    modified := false;
    var k := 0;
    while k < |functions|
      invariant 0 <= k <= |functions|
      invariant forall i | k <= i < |functions| :: functions[i].Contents() == old(functions[i].Contents())
      invariant forall i | 0 <= i < k ::
                  && WellFormed(functions[i].Contents())
                  && Reaches(old(functions[i].Contents()), functions[i].Contents())
                  && NothingToBreak(functions[i].insts)
      invariant modified <==> exists i | 0 <= i < k :: !old(NothingToBreak(functions[i].insts))
    {
      assert functions[k].insts == functions[k].Contents().insts;
      var changed := functions[k].BreakConstants();
      modified := modified || changed;
      k := k + 1;
    }
  }

  /** MAIN RESULT for a whole run of the pass: same meaning, and nothing left to break. */
  lemma PassIsCorrect<V, M>(m: Machine<V, M>, f: Body, g: Body, path: seq<nat>, s: State<V, M>)
    requires WellFormed(f) && Reaches(f, g) && NothingToBreak(g.insts) && AllBelow(path, |f.blocks|)
    ensures WellFormed(g) && |g.blocks| == |f.blocks|
    ensures Agree(|f.insts|, Run(m, f, ENTRY, path, s), Run(m, g, ENTRY, path, s))
    ensures forall i, k, c | 0 <= i < |g.insts| && 0 <= k < |Operands(g.insts[i])| && Operands(g.insts[i])[k].Const? ::
              Within(c, Operands(g.insts[i])[k].c) ==> !BreakableHead(c)
  {
    var run :| ConversionRun(run, f, g);
    RunPreserved(m, run, f, g, path, s);
    NothingToBreakMeans(g.insts);
  }
}
