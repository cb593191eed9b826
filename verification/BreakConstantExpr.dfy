/** The pass that turns constant expressions into instructions
    (svf-llvm/lib/BreakConstantExpr.cpp). */
module BreakConstantExpr {

  // ---------------------------------------------------------------- the IR

  datatype Opcode = GetElementPtr | BinaryOp(code: nat) | UnaryOp(code: nat) | OtherOp(code: nat)

  /** A constant holds no instruction results: LLVM uniques constants, so structural equality
      is pointer equality. */
  datatype Constant = Atom(id: nat) | ConstantExpr(op: Opcode, operands: seq<Constant>)

  datatype Value = Const(c: Constant) | Argument(index: nat) | Result(inst: nat)

  /** `Pure` is an instruction that only computes (everything a constant expression can turn into);
      `Effect` covers loads, stores, calls and terminators. */
  datatype Instruction =
    | Phi(values: seq<Value>, preds: seq<nat>)
    | Pure(op: Opcode, operands: seq<Value>)
    | Effect(code: nat, operands: seq<Value>)

  /** `insts[i]` is the instruction with identity `i`; `blocks[b]` lists block b in order. */
  datatype Body = Body(insts: seq<Instruction>, blocks: seq<seq<nat>>)

  function Operands(i: Instruction): seq<Value> {
    if i.Phi? then i.values else i.operands
  }

  predicate HasConstantGEP(c: Constant) {
    c.ConstantExpr? &&
    (c.op.GetElementPtr? || exists i | 0 <= i < |c.operands| :: HasConstantGEP(c.operands[i]))
  }

  predicate HasConstantBinaryOrUnaryOp(c: Constant) {
    c.ConstantExpr? &&
    (c.op.BinaryOp? || c.op.UnaryOp? ||
     exists i | 0 <= i < |c.operands| :: HasConstantBinaryOrUnaryOp(c.operands[i]))
  }

  predicate HasConstantExpr(v: Value) {
    v.Const? && (HasConstantGEP(v.c) || HasConstantBinaryOrUnaryOp(v.c))
  }

  predicate NeedsBreaking(i: Instruction) {
    exists k | 0 <= k < |Operands(i)| :: HasConstantExpr(Operands(i)[k])
  }

  /** `s` occurs somewhere inside `c`. */
  ghost predicate Within(s: Constant, c: Constant) {
    s == c || (c.ConstantExpr? && exists i | 0 <= i < |c.operands| :: Within(s, c.operands[i]))
  }

  ghost predicate BreakableHead(s: Constant) {
    s.ConstantExpr? && !s.op.OtherOp?
  }

  /** The three recursive checks together find a breakable expression at any depth. */
  lemma {:induction false} HasConstantExprFindsAnyDepth(c: Constant)
    ensures HasConstantExpr(Const(c)) <==> exists s :: Within(s, c) && BreakableHead(s)
  {
    if c.ConstantExpr? {
      forall i | 0 <= i < |c.operands|
        ensures HasConstantExpr(Const(c.operands[i])) <==> exists s :: Within(s, c.operands[i]) && BreakableHead(s)
      {
        HasConstantExprFindsAnyDepth(c.operands[i]);
      }
      if BreakableHead(c) {
        assert Within(c, c);
      } else if HasConstantGEP(c) {
        var i :| 0 <= i < |c.operands| && HasConstantGEP(c.operands[i]);
        assert HasConstantExpr(Const(c.operands[i]));
        var s :| Within(s, c.operands[i]) && BreakableHead(s);
        assert Within(s, c);
      } else if HasConstantBinaryOrUnaryOp(c) {
        var i :| 0 <= i < |c.operands| && HasConstantBinaryOrUnaryOp(c.operands[i]);
        assert HasConstantExpr(Const(c.operands[i]));
        var s :| Within(s, c.operands[i]) && BreakableHead(s);
        assert Within(s, c);
      } else {
        forall s | Within(s, c) ensures !BreakableHead(s) {
          if s != c {
            var i :| 0 <= i < |c.operands| && Within(s, c.operands[i]);
            assert !HasConstantExpr(Const(c.operands[i]));
          }
        }
      }
    }
  }

  // ------------------------------------------------------- well-formedness

  ghost predicate RefersBelow(i: Instruction, n: nat) {
    forall k | 0 <= k < |Operands(i)| :: Operands(i)[k].Result? ==> Operands(i)[k].inst < n
  }

  ghost predicate WellFormedPhi(i: Instruction, nBlocks: nat) {
    i.Phi? ==>
      && |i.values| == |i.preds|
      && (forall k | 0 <= k < |i.preds| :: i.preds[k] < nBlocks)
      && (forall j, k | 0 <= j < |i.preds| && 0 <= k < |i.preds| ::
            i.preds[j] == i.preds[k] ==> i.values[j] == i.values[k])
  }

  ghost predicate At(f: Body, b: nat, p: nat, id: nat) {
    b < |f.blocks| && p < |f.blocks[b]| && f.blocks[b][p] == id
  }

  ghost predicate Placed(f: Body, id: nat) {
    exists b, p :: At(f, b, p, id)
  }

  /** What the LLVM verifier guarantees and the pass relies on: operands refer to instructions,
      PHI entries for one predecessor agree, every block ends in a terminator, PHIs come first,
      and every instruction sits at exactly one place. */
  ghost predicate WellFormed(f: Body) {
    && (forall i | 0 <= i < |f.insts| ::
          RefersBelow(f.insts[i], |f.insts|) && WellFormedPhi(f.insts[i], |f.blocks|))
    && (forall b | 0 <= b < |f.blocks| :: WellFormedBlock(f, f.blocks[b]))
    && (forall id | 0 <= id < |f.insts| :: Placed(f, id))
    && (forall b, p, b', p', id :: At(f, b, p, id) && At(f, b', p', id) ==> b == b' && p == p')
  }

  ghost predicate WellFormedBlock(f: Body, ids: seq<nat>) {
    && |ids| > 0
    && (forall p | 0 <= p < |ids| :: ids[p] < |f.insts|)
    && !f.insts[ids[|ids| - 1]].Phi?
    && (forall p, q | 0 <= p < q < |ids| :: f.insts[ids[q]].Phi? ==> f.insts[ids[p]].Phi?)
  }

  // -------------------------------------------------------------- one conversion

  /** `getAsInstruction`: no recursion, so the operands may still be constant expressions. */
  function AsInstruction(c: Constant): Instruction
    requires c.ConstantExpr?
  {
    Pure(c.op, seq(|c.operands|, i requires 0 <= i < |c.operands| => Const(c.operands[i])))
  }

  function ReplaceUses(i: Instruction, old_: Value, new_: Value): Instruction
    requires !i.Phi?
  {
    var xs := seq(|i.operands|, k requires 0 <= k < |i.operands| =>
                    if i.operands[k] == old_ then new_ else i.operands[k]);
    if i.Pure? then Pure(i.op, xs) else Effect(i.code, xs)
  }

  function SetIncoming(i: Instruction, pred: nat, new_: Value): Instruction
    requires i.Phi? && |i.values| == |i.preds|
  {
    Phi(seq(|i.values|, k requires 0 <= k < |i.values| =>
              if i.preds[k] == pred then new_ else i.values[k]), i.preds)
  }

  function InsertAt(ids: seq<nat>, p: nat, id: nat): seq<nat>
    requires p <= |ids|
  {
    ids[..p] + [id] + ids[p..]
  }

  /** Instruction `id` becomes `i'`, and `c` becomes a fresh instruction at position `p` of block `b`. */
  function WithInserted(f: Body, id: nat, i': Instruction, c: Constant, b: nat, p: nat): Body
    requires id < |f.insts| && c.ConstantExpr? && b < |f.blocks| && p <= |f.blocks[b]|
  {
    Body(f.insts[id := i'] + [AsInstruction(c)], f.blocks[b := InsertAt(f.blocks[b], p, |f.insts|)])
  }

  /** The non-PHI rule: the new instruction goes right before the user, all equal uses are rewritten. */
  ghost predicate ConvertsUse(f: Body, g: Body, id: nat, c: Constant, b: nat, p: nat) {
    && id < |f.insts| && !f.insts[id].Phi? && At(f, b, p, id)
    && Const(c) in f.insts[id].operands && c.ConstantExpr?
    && g == WithInserted(f, id, ReplaceUses(f.insts[id], Const(c), Result(|f.insts|)), c, b, p)
  }

  /** The PHI rule: the new instruction goes before the terminator of the predecessor block. */
  ghost predicate ConvertsIncoming(f: Body, g: Body, id: nat, c: Constant, b: nat) {
    && id < |f.insts| && f.insts[id].Phi? && |f.insts[id].values| == |f.insts[id].preds|
    && (exists k | 0 <= k < |f.insts[id].values| ::
          f.insts[id].preds[k] == b && f.insts[id].values[k] == Const(c))
    && c.ConstantExpr? && b < |f.blocks| && |f.blocks[b]| > 0
    && g == WithInserted(f, id, SetIncoming(f.insts[id], b, Result(|f.insts|)), c, b, |f.blocks[b]| - 1)
  }

  ghost predicate Converts(f: Body, g: Body) {
    || (exists id, c, b, p :: ConvertsUse(f, g, id, c, b, p))
    || (exists id, c, b :: ConvertsIncoming(f, g, id, c, b))
  }

  ghost predicate ConversionRun(run: seq<Body>, f: Body, g: Body) {
    && |run| > 0 && run[0] == f && run[|run| - 1] == g
    && forall k | 0 <= k < |run| - 1 :: Converts(run[k], run[k + 1])
  }

  ghost predicate Reaches(f: Body, g: Body) {
    exists run :: ConversionRun(run, f, g)
  }

  // --------------------------------------------------------------- semantics

  /** Any meaning of the instruction set in which constant expressions have no side effects. */
  datatype Machine<!V, !M> = Machine(
    atom: nat -> V,
    argument: nat -> V,
    undef: V,
    compute: (Opcode, seq<V>) -> V,
    effect: (nat, seq<V>, M) -> (V, M))

  datatype State<V, M> = State(env: map<nat, V>, mem: M)

  function EvalConst<V, M>(m: Machine<V, M>, c: Constant): V {
    match c
    case Atom(n) => m.atom(n)
    case ConstantExpr(op, xs) => m.compute(op, seq(|xs|, i requires 0 <= i < |xs| => EvalConst(m, xs[i])))
  }

  function Eval<V, M>(m: Machine<V, M>, env: map<nat, V>, v: Value): V {
    match v
    case Const(c) => EvalConst(m, c)
    case Argument(n) => m.argument(n)
    case Result(i) => if i in env then env[i] else m.undef
  }

  function EvalAll<V, M>(m: Machine<V, M>, env: map<nat, V>, xs: seq<Value>): seq<V> {
    seq(|xs|, i requires 0 <= i < |xs| => Eval(m, env, xs[i]))
  }

  /** getIncomingValueForBlock: the first entry for the predecessor. */
  function Incoming<V, M>(m: Machine<V, M>, entry: map<nat, V>, values: seq<Value>, preds: seq<nat>, pred: int): V
    requires |values| == |preds|
  {
    if values == [] then m.undef
    else if preds[0] == pred then Eval(m, entry, values[0])
    else Incoming(m, entry, values[1..], preds[1..], pred)
  }

  /** PHIs read the state at entry of the block (`entry`), all other instructions the current one. */
  function Step<V, M>(m: Machine<V, M>, f: Body, id: nat, pred: int, entry: map<nat, V>, st: State<V, M>): State<V, M>
    requires WellFormed(f) && id < |f.insts|
  {
    match f.insts[id]
    case Phi(values, preds) => st.(env := st.env[id := Incoming(m, entry, values, preds, pred)])
    case Pure(op, xs) => st.(env := st.env[id := m.compute(op, EvalAll(m, st.env, xs))])
    case Effect(code, xs) =>
      var r := m.effect(code, EvalAll(m, st.env, xs), st.mem);
      State(st.env[id := r.0], r.1)
  }

  ghost predicate AllBelow(ids: seq<nat>, n: nat) {
    forall k | 0 <= k < |ids| :: ids[k] < n
  }

  function Exec<V, M>(m: Machine<V, M>, f: Body, ids: seq<nat>, pred: int, entry: map<nat, V>,
                      st: State<V, M>): State<V, M>
    requires WellFormed(f) && AllBelow(ids, |f.insts|)
  {
    if ids == [] then st
    else Exec(m, f, ids[1..], pred, entry, Step(m, f, ids[0], pred, entry, st))
  }

  /** The state after control enters `path[0]` from `pred` and then follows `path`. */
  function Run<V, M>(m: Machine<V, M>, f: Body, pred: int, path: seq<nat>, st: State<V, M>): State<V, M>
    requires WellFormed(f) && AllBelow(path, |f.blocks|)
    decreases path
  {
    if path == [] then st
    else
      Run(m, f, path[0], path[1..], Exec(m, f, f.blocks[path[0]], pred, st.env, st))
  }

  /** Function entry has no predecessor block. */
  const ENTRY: int := -1

  ghost predicate AgreeBelow<V>(n: nat, e: map<nat, V>, e': map<nat, V>) {
    forall k | 0 <= k < n :: (k in e <==> k in e') && (k in e ==> e[k] == e'[k])
  }

  ghost predicate Agree<V, M>(n: nat, s: State<V, M>, s': State<V, M>) {
    AgreeBelow(n, s.env, s'.env) && s.mem == s'.mem
  }

  ghost predicate Holds<V>(e: map<nat, V>, n: nat, v: V) {
    n in e && e[n] == v
  }

  // ------------------------------------------------------- simulation of one conversion

  lemma EvalAllAgree<V, M>(m: Machine<V, M>, f: Body, id: nat, e: map<nat, V>, e': map<nat, V>)
    requires WellFormed(f) && id < |f.insts| && AgreeBelow(|f.insts|, e, e')
    ensures forall k | 0 <= k < |Operands(f.insts[id])| ::
              Eval(m, e, Operands(f.insts[id])[k]) == Eval(m, e', Operands(f.insts[id])[k])
    ensures EvalAll(m, e, Operands(f.insts[id])) == EvalAll(m, e', Operands(f.insts[id]))
  {
    assert RefersBelow(f.insts[id], |f.insts|);
  }

  lemma {:induction false} IncomingAgree<V, M>(m: Machine<V, M>, e: map<nat, V>, e': map<nat, V>,
                             values: seq<Value>, values': seq<Value>, preds: seq<nat>, pred: int)
    requires |values| == |values'| == |preds|
    requires forall k | 0 <= k < |preds| :: preds[k] == pred ==> Eval(m, e, values[k]) == Eval(m, e', values'[k])
    ensures Incoming(m, e, values, preds, pred) == Incoming(m, e', values', preds, pred)
  {
    if values != [] {
      if preds[0] != pred {
        IncomingAgree(m, e, e', values[1..], values'[1..], preds[1..], pred);
      }
    }
  }

  lemma {:induction false} ExecAppend<V, M>(m: Machine<V, M>, f: Body, xs: seq<nat>, ys: seq<nat>, pred: int,
                                            entry: map<nat, V>, st: State<V, M>)
    requires WellFormed(f) && AllBelow(xs, |f.insts|) && AllBelow(ys, |f.insts|)
    ensures AllBelow(xs + ys, |f.insts|)
    ensures Exec(m, f, xs + ys, pred, entry, st) == Exec(m, f, ys, pred, entry, Exec(m, f, xs, pred, entry, st))
  {
    if xs == [] {
      assert xs + ys == ys;
    } else {
      assert (xs + ys)[1..] == xs[1..] + ys;
      ExecAppend(m, f, xs[1..], ys, pred, entry, Step(m, f, xs[0], pred, entry, st));
    }
  }

  /** One instruction that the conversion left alone. */
  lemma StepSame<V, M>(m: Machine<V, M>, f: Body, g: Body, id: nat, pred: int,
                       e: map<nat, V>, e': map<nat, V>, s: State<V, M>, s': State<V, M>)
    requires WellFormed(f) && WellFormed(g) && id < |f.insts| < |g.insts| && f.insts[id] == g.insts[id]
    requires AgreeBelow(|f.insts|, e, e') && Agree(|f.insts|, s, s')
    ensures Agree(|f.insts|, Step(m, f, id, pred, e, s), Step(m, g, id, pred, e', s'))
    ensures forall k | k >= |f.insts| && k in s'.env ::
              Holds(Step(m, g, id, pred, e', s').env, k, s'.env[k])
  {
    var i := f.insts[id];
    if i.Phi? {
      EvalAllAgree(m, f, id, e, e');
      IncomingAgree(m, e, e', i.values, i.values, i.preds, pred);
    } else {
      EvalAllAgree(m, f, id, s.env, s'.env);
    }
  }

  /** The PHI whose entries for predecessor `b` were redirected to the new instruction. */
  lemma StepPhi<V, M>(m: Machine<V, M>, f: Body, g: Body, id: nat, c: Constant, b: nat, pred: int,
                      e: map<nat, V>, e': map<nat, V>, s: State<V, M>, s': State<V, M>)
    requires WellFormed(f) && WellFormed(g) && ConvertsIncoming(f, g, id, c, b)
    requires AgreeBelow(|f.insts|, e, e') && Agree(|f.insts|, s, s')
    requires pred == b ==> Holds(e', |f.insts|, EvalConst(m, c))
    ensures Agree(|f.insts|, Step(m, f, id, pred, e, s), Step(m, g, id, pred, e', s'))
    ensures forall k | k >= |f.insts| && k in s'.env ::
              Holds(Step(m, g, id, pred, e', s').env, k, s'.env[k])
  {
    var i, i' := f.insts[id], g.insts[id];
    var k0 :| 0 <= k0 < |i.values| && i.preds[k0] == b && i.values[k0] == Const(c);
    EvalAllAgree(m, f, id, e, e');
    forall k | 0 <= k < |i.preds| && i.preds[k] == pred
      ensures Eval(m, e, i.values[k]) == Eval(m, e', i'.values[k])
    {
      if pred == b {
        assert i.preds[k0] == i.preds[k];
      }
    }
    IncomingAgree(m, e, e', i.values, i'.values, i.preds, pred);
  }

  /** How a conversion relates the instructions of the two bodies, apart from the rewritten user. */
  ghost predicate Touches(f: Body, g: Body, id: nat, c: Constant, b: nat) {
    && |g.insts| == |f.insts| + 1
    && (forall j | 0 <= j < |f.insts| && j != id :: g.insts[j] == f.insts[j])
    && c.ConstantExpr? && g.insts[|f.insts|] == AsInstruction(c)
    && (id < |f.insts| && f.insts[id].Phi? ==> ConvertsIncoming(f, g, id, c, b))
  }

  /** A stretch of original instructions that does not hold a rewritten non-PHI user. */
  lemma {:induction false} ExecSame<V, M>(m: Machine<V, M>, f: Body, g: Body, id: nat, c: Constant, b: nat,
                        ids: seq<nat>, pred: int,
                        e: map<nat, V>, e': map<nat, V>, s: State<V, M>, s': State<V, M>)
    requires WellFormed(f) && WellFormed(g) && Touches(f, g, id, c, b) && AllBelow(ids, |f.insts|)
    requires id in ids ==> id < |f.insts| && f.insts[id].Phi?
    requires AgreeBelow(|f.insts|, e, e') && Agree(|f.insts|, s, s')
    requires pred == b && id < |f.insts| && f.insts[id].Phi? ==> Holds(e', |f.insts|, EvalConst(m, c))
    ensures AllBelow(ids, |g.insts|)
    ensures Agree(|f.insts|, Exec(m, f, ids, pred, e, s), Exec(m, g, ids, pred, e', s'))
    ensures forall k | k >= |f.insts| && k in s'.env ::
              Holds(Exec(m, g, ids, pred, e', s').env, k, s'.env[k])
  {
    if ids != [] {
      if ids[0] == id {
        StepPhi(m, f, g, id, c, b, pred, e, e', s, s');
      } else {
        StepSame(m, f, g, ids[0], pred, e, e', s, s');
      }
      var t, t' := Step(m, f, ids[0], pred, e, s), Step(m, g, ids[0], pred, e', s');
      ExecSame(m, f, g, id, c, b, ids[1..], pred, e, e', t, t');
      forall k | k >= |f.insts| && k in s'.env
        ensures Holds(Exec(m, g, ids, pred, e', s').env, k, s'.env[k])
      {
        assert Holds(t'.env, k, s'.env[k]);
      }
    }
  }

  /** The new instruction computes the constant it was made from and disturbs nothing. */
  lemma StepNew<V, M>(m: Machine<V, M>, g: Body, n: nat, c: Constant, pred: int, e: map<nat, V>,
                      s: State<V, M>, s': State<V, M>)
    requires WellFormed(g) && n < |g.insts| && c.ConstantExpr? && g.insts[n] == AsInstruction(c)
    requires Agree(n, s, s')
    ensures Holds(Step(m, g, n, pred, e, s').env, n, EvalConst(m, c))
    ensures Agree(n, s, Step(m, g, n, pred, e, s'))
  {
    var i := AsInstruction(c);
    assert EvalAll(m, s'.env, i.operands) ==
           seq(|c.operands|, k requires 0 <= k < |c.operands| => EvalConst(m, c.operands[k]));
  }

  /** The rewritten non-PHI user, right after the new instruction. */
  lemma StepUser<V, M>(m: Machine<V, M>, f: Body, g: Body, id: nat, c: Constant, pred: int,
                       e: map<nat, V>, e': map<nat, V>, s: State<V, M>, s': State<V, M>)
    requires WellFormed(f) && WellFormed(g) && id < |f.insts| < |g.insts| && !f.insts[id].Phi?
    requires g.insts[id] == ReplaceUses(f.insts[id], Const(c), Result(|f.insts|))
    requires Agree(|f.insts|, s, s') && Holds(s'.env, |f.insts|, EvalConst(m, c))
    ensures Agree(|f.insts|, Step(m, f, id, pred, e, s), Step(m, g, id, pred, e', s'))
  {
    var xs, xs' := f.insts[id].operands, g.insts[id].operands;
    EvalAllAgree(m, f, id, s.env, s'.env);
    assert EvalAll(m, s.env, xs) == EvalAll(m, s'.env, xs');
  }

  /** Where the conversion inserts, and which block it touches. */
  ghost predicate ConvertsIn(f: Body, g: Body, id: nat, c: Constant, b: nat, p: nat) {
    || ConvertsUse(f, g, id, c, b, p)
    || (ConvertsIncoming(f, g, id, c, b) && p == |f.blocks[b]| - 1)
  }

  lemma TouchesOf(f: Body, g: Body, id: nat, c: Constant, b: nat, p: nat)
    requires WellFormed(f) && ConvertsIn(f, g, id, c, b, p)
    ensures Touches(f, g, id, c, b) && p < |f.blocks[b]| && |g.blocks| == |f.blocks|
    ensures g.blocks[b] == f.blocks[b][..p] + [|f.insts|] + [f.blocks[b][p]] + f.blocks[b][p + 1..]
    ensures forall k | 0 <= k < |f.blocks| && k != b :: g.blocks[k] == f.blocks[k]
  {
    assert f.blocks[b][p..] == [f.blocks[b][p]] + f.blocks[b][p + 1..];
  }

  lemma OnlyHere(f: Body, b: nat, p: nat, id: nat)
    requires WellFormed(f) && At(f, b, p, id)
    ensures id !in f.blocks[b][..p] && id !in f.blocks[b][p + 1..]
    ensures forall k | 0 <= k < |f.blocks| && k != b :: id !in f.blocks[k]
  {
    var ids := f.blocks[b];
    forall q | 0 <= q < |ids| && q != p ensures ids[q] != id {
      assert At(f, b, q, ids[q]);
    }
    forall k | 0 <= k < |f.blocks| && k != b ensures id !in f.blocks[k] {
      forall q | 0 <= q < |f.blocks[k]| ensures f.blocks[k][q] != id {
        assert At(f, k, q, f.blocks[k][q]);
      }
    }
  }

  /** The rewritten user of the converted block, or the terminator behind the new instruction. */
  lemma StepAfterNew<V, M>(m: Machine<V, M>, f: Body, g: Body, id: nat, c: Constant, b: nat, p: nat, pred: int,
                           e: map<nat, V>, e': map<nat, V>, s: State<V, M>, s': State<V, M>)
    requires WellFormed(f) && WellFormed(g) && ConvertsIn(f, g, id, c, b, p)
    requires AgreeBelow(|f.insts|, e, e') && Agree(|f.insts|, s, s') && Holds(s'.env, |f.insts|, EvalConst(m, c))
    ensures p < |f.blocks[b]| && f.blocks[b][p] < |f.insts| < |g.insts|
    ensures Agree(|f.insts|, Step(m, f, f.blocks[b][p], pred, e, s), Step(m, g, f.blocks[b][p], pred, e', s'))
    ensures Holds(Step(m, g, f.blocks[b][p], pred, e', s').env, |f.insts|, EvalConst(m, c))
  {
    TouchesOf(f, g, id, c, b, p);
    assert WellFormedBlock(f, f.blocks[b]);
    if f.insts[id].Phi? {
      StepSame(m, f, g, f.blocks[b][p], pred, e, e', s, s');
    } else {
      StepUser(m, f, g, id, c, pred, e, e', s, s');
    }
  }

  /** Execution of a block split around one instruction. */
  lemma ExecSplit<V, M>(m: Machine<V, M>, f: Body, xs: seq<nat>, u: nat, ys: seq<nat>, pred: int,
                        e: map<nat, V>, s: State<V, M>)
    requires WellFormed(f) && AllBelow(xs, |f.insts|) && AllBelow(ys, |f.insts|) && u < |f.insts|
    ensures AllBelow(xs + [u] + ys, |f.insts|)
    ensures Exec(m, f, xs + [u] + ys, pred, e, s) ==
            Exec(m, f, ys, pred, e, Step(m, f, u, pred, e, Exec(m, f, xs, pred, e, s)))
  {
    ExecAppend(m, f, [u], ys, pred, e, Exec(m, f, xs, pred, e, s));
    ExecAppend(m, f, xs, [u] + ys, pred, e, s);
    assert xs + [u] + ys == xs + ([u] + ys);
    assert ([u] + ys)[1..] == ys;
  }

  lemma ExecAround<V, M>(m: Machine<V, M>, f: Body, g: Body, id: nat, c: Constant, b: nat, p: nat,
                         xs: seq<nat>, ys: seq<nat>, pred: int, s: State<V, M>, s': State<V, M>)
    requires WellFormed(f) && WellFormed(g) && ConvertsIn(f, g, id, c, b, p) && Touches(f, g, id, c, b)
    requires AllBelow(xs, |f.insts|) && AllBelow(ys, |f.insts|) && p < |f.blocks[b]|
    requires id in xs + ys ==> f.insts[id].Phi?
    requires Agree(|f.insts|, s, s')
    requires pred == b ==> Holds(s'.env, |f.insts|, EvalConst(m, c))
    ensures var n, u := |f.insts|, f.blocks[b][p];
            && u < n
            && AllBelow(xs + [u] + ys, n) && AllBelow(xs + [n] + ([u] + ys), n + 1)
            && Agree(n, Exec(m, f, xs + [u] + ys, pred, s.env, s), Exec(m, g, xs + [n] + ([u] + ys), pred, s'.env, s'))
            && Holds(Exec(m, g, xs + [n] + ([u] + ys), pred, s'.env, s').env, n, EvalConst(m, c))
  {
    var n, u, e, e' := |f.insts|, f.blocks[b][p], s.env, s'.env;
    ExecSame(m, f, g, id, c, b, xs, pred, e, e', s, s');
    var s1, s1' := Exec(m, f, xs, pred, e, s), Exec(m, g, xs, pred, e', s');
    StepNew(m, g, n, c, pred, e', s1, s1');
    var s2' := Step(m, g, n, pred, e', s1');
    StepAfterNew(m, f, g, id, c, b, p, pred, e, e', s1, s2');
    var s3, s3' := Step(m, f, u, pred, e, s1), Step(m, g, u, pred, e', s2');
    ExecSame(m, f, g, id, c, b, ys, pred, e, e', s3, s3');
    assert Holds(s3'.env, n, EvalConst(m, c));
    ExecSplit(m, f, xs, u, ys, pred, e, s);
    ExecSplit(m, g, xs, n, [u] + ys, pred, e', s');
    assert ([u] + ys)[1..] == ys;
  }

  /** The block that received the new instruction. */
  lemma ExecConverted<V, M>(m: Machine<V, M>, f: Body, g: Body, id: nat, c: Constant, b: nat, p: nat, pred: int,
                            s: State<V, M>, s': State<V, M>)
    requires WellFormed(f) && WellFormed(g) && ConvertsIn(f, g, id, c, b, p)
    requires Agree(|f.insts|, s, s')
    requires pred == b ==> Holds(s'.env, |f.insts|, EvalConst(m, c))
    ensures |g.blocks| == |f.blocks|
    ensures Agree(|f.insts|, Exec(m, f, f.blocks[b], pred, s.env, s), Exec(m, g, g.blocks[b], pred, s'.env, s'))
    ensures Holds(Exec(m, g, g.blocks[b], pred, s'.env, s').env, |f.insts|, EvalConst(m, c))
  {
    TouchesOf(f, g, id, c, b, p);
    var n, ids := |f.insts|, f.blocks[b];
    var xs, u, ys := ids[..p], ids[p], ids[p + 1..];
    assert ids == xs + [u] + ys;
    assert g.blocks[b] == xs + [n] + ([u] + ys);
    assert WellFormedBlock(f, ids);
    if !f.insts[id].Phi? {
      OnlyHere(f, b, p, id);
    }
    ExecAround(m, f, g, id, c, b, p, xs, ys, pred, s, s');
  }

  /** Any block, entered from any predecessor. */
  lemma ExecAny<V, M>(m: Machine<V, M>, f: Body, g: Body, id: nat, c: Constant, b: nat, p: nat, pred: int, k: nat,
                      s: State<V, M>, s': State<V, M>)
    requires WellFormed(f) && WellFormed(g) && ConvertsIn(f, g, id, c, b, p) && k < |f.blocks|
    requires Agree(|f.insts|, s, s')
    requires pred == b ==> Holds(s'.env, |f.insts|, EvalConst(m, c))
    ensures |g.blocks| == |f.blocks|
    ensures Agree(|f.insts|, Exec(m, f, f.blocks[k], pred, s.env, s), Exec(m, g, g.blocks[k], pred, s'.env, s'))
    ensures k == b ==> Holds(Exec(m, g, g.blocks[k], pred, s'.env, s').env, |f.insts|, EvalConst(m, c))
  {
    if k == b {
      ExecConverted(m, f, g, id, c, b, p, pred, s, s');
    } else {
      TouchesOf(f, g, id, c, b, p);
      assert WellFormedBlock(f, f.blocks[k]);
      if !f.insts[id].Phi? {
        OnlyHere(f, b, p, id);
      }
      ExecSame(m, f, g, id, c, b, f.blocks[k], pred, s.env, s'.env, s, s');
    }
  }

  /** Every path, starting in states that agree. */
  lemma {:induction false} RunConverted<V, M>(m: Machine<V, M>, f: Body, g: Body, id: nat, c: Constant, b: nat, p: nat,
                            pred: int, path: seq<nat>, s: State<V, M>, s': State<V, M>)
    requires WellFormed(f) && WellFormed(g) && ConvertsIn(f, g, id, c, b, p) && AllBelow(path, |f.blocks|)
    requires Agree(|f.insts|, s, s')
    requires pred == b ==> Holds(s'.env, |f.insts|, EvalConst(m, c))
    ensures |g.blocks| == |f.blocks|
    ensures Agree(|f.insts|, Run(m, f, pred, path, s), Run(m, g, pred, path, s'))
    decreases path
  {
    TouchesOf(f, g, id, c, b, p);
    if path != [] {
      ExecAny(m, f, g, id, c, b, p, pred, path[0], s, s');
      RunConverted(m, f, g, id, c, b, p, path[0], path[1..],
                   Exec(m, f, f.blocks[path[0]], pred, s.env, s),
                   Exec(m, g, g.blocks[path[0]], pred, s'.env, s'));
    }
  }

  // --------------------------------------------- a conversion keeps the IR well-formed

  lemma ConvertedOperands(f: Body, g: Body, id: nat, c: Constant, b: nat, p: nat)
    requires WellFormed(f) && ConvertsIn(f, g, id, c, b, p)
    ensures forall i | 0 <= i < |g.insts| ::
              RefersBelow(g.insts[i], |g.insts|) && WellFormedPhi(g.insts[i], |g.blocks|)
  {
    TouchesOf(f, g, id, c, b, p);
    forall i | 0 <= i < |g.insts|
      ensures RefersBelow(g.insts[i], |g.insts|) && WellFormedPhi(g.insts[i], |g.blocks|)
    {
      if i < |f.insts| {
        assert RefersBelow(f.insts[i], |f.insts|) && WellFormedPhi(f.insts[i], |f.blocks|);
        forall k | 0 <= k < |Operands(g.insts[i])|
          ensures Operands(g.insts[i])[k].Result? ==> Operands(g.insts[i])[k].inst < |g.insts|
        {
          assert Operands(f.insts[i])[k].Result? ==> Operands(f.insts[i])[k].inst < |f.insts|;
        }
      }
    }
  }

  /** Where the instruction at (k, q) of the converted body sat before. */
  lemma ConvertedPlace(f: Body, g: Body, id: nat, c: Constant, b: nat, p: nat, k: nat, q: nat, j: nat)
    requires WellFormed(f) && ConvertsIn(f, g, id, c, b, p) && At(g, k, q, j)
    ensures j <= |f.insts|
    ensures j == |f.insts| ==> k == b && q == p
    ensures j < |f.insts| ==> At(f, k, if k == b && q > p then q - 1 else q, j) && !(k == b && q == p)
  {
    TouchesOf(f, g, id, c, b, p);
    if k != b {
      assert WellFormedBlock(f, f.blocks[k]);
    } else {
      assert WellFormedBlock(f, f.blocks[b]);
    }
  }

  lemma ConvertedBlocks(f: Body, g: Body, id: nat, c: Constant, b: nat, p: nat, k: nat)
    requires WellFormed(f) && ConvertsIn(f, g, id, c, b, p) && k < |g.blocks|
    ensures WellFormedBlock(g, g.blocks[k])
  {
    TouchesOf(f, g, id, c, b, p);
    assert WellFormedBlock(f, f.blocks[k]);
    var ids := g.blocks[k];
    forall q | 0 <= q < |ids|
      ensures ids[q] < |g.insts| && (ids[q] < |f.insts| ==> (g.insts[ids[q]].Phi? <==> f.insts[ids[q]].Phi?))
    {
      ConvertedPlace(f, g, id, c, b, p, k, q, ids[q]);
    }
    assert !f.insts[f.blocks[b][p]].Phi?;
    forall q, r | 0 <= q < r < |ids| && g.insts[ids[r]].Phi? ensures g.insts[ids[q]].Phi? {
      ConvertedPlace(f, g, id, c, b, p, k, q, ids[q]);
      ConvertedPlace(f, g, id, c, b, p, k, r, ids[r]);
    }
  }

  lemma ConvertedPlacement(f: Body, g: Body, id: nat, c: Constant, b: nat, p: nat, j: nat)
    requires WellFormed(f) && ConvertsIn(f, g, id, c, b, p) && j < |g.insts|
    ensures Placed(g, j)
  {
    TouchesOf(f, g, id, c, b, p);
    if j == |f.insts| {
      assert At(g, b, p, j);
    } else {
      assert Placed(f, j);
      var k: nat, q: nat :| At(f, k, q, j);
      assert At(g, k, if k == b && q >= p then q + 1 else q, j);
    }
  }

  lemma ConversionKeepsWellFormed(f: Body, g: Body)
    requires WellFormed(f) && Converts(f, g)
    ensures WellFormed(g) && |g.insts| == |f.insts| + 1 && |g.blocks| == |f.blocks|
  {
    var id, c, b, p := ConversionSite(f, g);
    TouchesOf(f, g, id, c, b, p);
    ConvertedOperands(f, g, id, c, b, p);
    forall k | 0 <= k < |g.blocks| ensures WellFormedBlock(g, g.blocks[k]) {
      ConvertedBlocks(f, g, id, c, b, p, k);
    }
    forall j | 0 <= j < |g.insts| ensures Placed(g, j) {
      ConvertedPlacement(f, g, id, c, b, p, j);
    }
    forall k, q, k', q', j | At(g, k, q, j) && At(g, k', q', j) ensures k == k' && q == q' {
      ConvertedPlace(f, g, id, c, b, p, k, q, j);
      ConvertedPlace(f, g, id, c, b, p, k', q', j);
    }
  }

  lemma ConversionSite(f: Body, g: Body) returns (id: nat, c: Constant, b: nat, p: nat)
    requires Converts(f, g)
    ensures ConvertsIn(f, g, id, c, b, p)
  {
    if id', c', b', p' :| ConvertsUse(f, g, id', c', b', p') {
      id, c, b, p := id', c', b', p';
    } else {
      id, c, b :| ConvertsIncoming(f, g, id, c, b);
      p := |f.blocks[b]| - 1;
    }
  }

  // ------------------------------------------------------- the whole pass preserves meaning

  lemma {:induction false} ReachesKeepsWellFormed(run: seq<Body>, f: Body, g: Body)
    requires WellFormed(f) && ConversionRun(run, f, g)
    ensures WellFormed(g) && |g.insts| >= |f.insts| && |g.blocks| == |f.blocks|
  {
    if |run| > 1 {
      ConversionKeepsWellFormed(f, run[1]);
      ReachesKeepsWellFormed(run[1..], run[1], g);
    }
  }

  lemma {:induction false} RunPreserved<V, M>(m: Machine<V, M>, run: seq<Body>, f: Body, g: Body,
                                              path: seq<nat>, s: State<V, M>)
    requires WellFormed(f) && ConversionRun(run, f, g) && AllBelow(path, |f.blocks|)
    ensures WellFormed(g) && |g.blocks| == |f.blocks|
    ensures Agree(|f.insts|, Run(m, f, ENTRY, path, s), Run(m, g, ENTRY, path, s))
  {
    ReachesKeepsWellFormed(run, f, g);
    if |run| > 1 {
      var h := run[1];
      ConversionKeepsWellFormed(f, h);
      var id, c, b, p := ConversionSite(f, h);
      RunConverted(m, f, h, id, c, b, p, ENTRY, path, s, s);
      RunPreserved(m, run[1..], h, g, path, s);
    }
  }

  /** MAIN RESULT. For every meaning of the instructions, every path through the CFG from function
      entry and every initial state: each original instruction (PHIs and terminators included) holds
      the same value after the pass as before, and memory is the same. Every prefix of a path is a
      path, so this covers every moment control leaves a block. */
  lemma BreakingPreservesMeaning<V, M>(m: Machine<V, M>, f: Body, g: Body, path: seq<nat>, s: State<V, M>)
    requires WellFormed(f) && Reaches(f, g) && AllBelow(path, |f.blocks|)
    ensures WellFormed(g) && |g.blocks| == |f.blocks|
    ensures Run(m, f, ENTRY, path, s).mem == Run(m, g, ENTRY, path, s).mem
    ensures forall i | 0 <= i < |f.insts| ::
              Eval(m, Run(m, f, ENTRY, path, s).env, Result(i)) == Eval(m, Run(m, g, ENTRY, path, s).env, Result(i))
  {
    var run :| ConversionRun(run, f, g);
    RunPreserved(m, run, f, g, path, s);
  }
}
