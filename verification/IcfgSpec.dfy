/** What the intra-procedural control-flow graph of a function holds, in terms of its instructions and
    blocks alone. */
module IcfgSpec {
  import opened ControlFlow
  import opened Reachability

  datatype IcfgNode = FunEntry | FunExit | Intra(inst: Pos) | CallNode(inst: Pos) | RetNode(inst: Pos)

  /** The value of the branch condition an edge stands for. */
  datatype Condition = Unconditional | When(value: int)

  type Edges = map<(IcfgNode, IcfgNode), Condition>

  ghost function FlowStep(f: Cfg): (Pos, Pos) -> bool {
    (p: Pos, q: Pos) => Flow(f, p, q)
  }

  /** A proper instruction that control can reach from the first instruction of the function. */
  ghost predicate Executed(f: Cfg, p: Pos) {
    Within(f, p) && !IsIntrinsic(f, p) && Reaches(FlowStep(f), Pos(0, 0), p)
  }

  /** The first proper instructions. */
  ghost predicate ComesFirst(f: Cfg, q: Pos) {
    if IsIntrinsic(f, Pos(0, 0)) then Follows(f, Pos(0, 0), q) else q == Pos(0, 0)
  }

  /** Instruction q is entered at node d. */
  predicate EntersAt(f: Cfg, q: Pos, d: IcfgNode) {
    Within(f, q) && d == match At(f, q) { case Call(_) => CallNode(q) case _ => Intra(q) }
  }

  ghost predicate EntersNextOf(f: Cfg, p: Pos, d: IcfgNode) {
    exists q :: Follows(f, p, q) && EntersAt(f, q, d)
  }

  /** There is to be an edge from s to d. */
  ghost predicate Wire(f: Cfg, s: IcfgNode, d: IcfgNode) {
    match s
    case FunEntry => exists q :: ComesFirst(f, q) && EntersAt(f, q, d)
    case Intra(p) =>
      && Within(f, p) && !At(f, p).Call?
      && ((At(f, p).Ret? && d == FunExit) || (Executed(f, p) && EntersNextOf(f, p, d)))
    case CallNode(p) => Executed(f, p) && At(f, p) == Call(true) && d == RetNode(p)
    case RetNode(p) => Executed(f, p) && At(f, p).Call? && EntersNextOf(f, p, d)
    case FunExit => false
  }

  ghost predicate Wired(f: Cfg, edges: Edges) {
    forall s, d :: (s, d) in edges <==> Wire(f, s, d)
  }

  predicate InBlock(n: IcfgNode, block: nat) {
    (n.Intra? || n.CallNode? || n.RetNode?) && n.inst.block == block
  }

  /** From s there are edges into that block, and all of them carry condition c. */
  ghost predicate EdgeInto(edges: Edges, s: IcfgNode, block: nat, c: Condition) {
    && (exists d :: (s, d) in edges && InBlock(d, block))
    && (forall d | (s, d) in edges && InBlock(d, block) :: edges[(s, d)] == c)
  }

  /** v is x as a signed 32-bit number. */
  predicate IsSigned32(v: int, x: int) {
    -0x8000_0000 <= v < 0x8000_0000 && (x - v) % 0x1_0000_0000 == 0
  }

  /** The conditions on the edges of an executed terminator: 1 into the block a branch takes when its
      condition holds, 0 into the other; the case value into the target of a case, -1 into any other
      target of a switch. */
  ghost predicate Labelled(f: Cfg, edges: Edges, p: Pos)
    requires Within(f, p)
  {
    var succs := f[p.block].succs;
    match At(f, p)
    case Branch(conditional) =>
      conditional && |succs| == 2 ==>
        && EdgeInto(edges, Intra(p), succs[0], When(1))
        && (succs[0] != succs[1] ==> EdgeInto(edges, Intra(p), succs[1], When(0)))
    case Switch(caseOf) =>
      forall b | b in succs :: CaseLabel(edges, p, b, if b in caseOf then caseOf[b] else -1)
    case _ => true
  }

  ghost predicate CaseLabel(edges: Edges, p: Pos, block: nat, x: int) {
    exists v :: IsSigned32(v, x) && EdgeInto(edges, Intra(p), block, When(v))
  }

  predicate IsConditional(i: Instruction) {
    i.Switch? || i == Branch(true)
  }

  /** No other edge has a condition. */
  ghost predicate OtherwisePlain(f: Cfg, edges: Edges) {
    forall s, d | (s, d) in edges && edges[(s, d)] != Unconditional ::
      s.Intra? && Within(f, s.inst) && IsConditional(At(f, s.inst))
  }
}
