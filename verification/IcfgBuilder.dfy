/** The intra-procedural part of the control-flow graph of one function (svf-llvm/lib/ICFGBuilder.cpp). */
module IcfgBuilder {
  import opened ControlFlow
  import opened IcfgSpec
  import opened Reachability
  import opened Words

  // ---------------------------------------------------------------- what the graph should hold

  /** The node at which an instruction is entered. */
  function BlockNode(f: Cfg, p: Pos): IcfgNode
    requires Within(f, p)
  {
    if At(f, p).Call? then CallNode(p) else Intra(p)
  }

  /** The node from which control goes on: a call is left from its return node. */
  function LeaveNode(f: Cfg, p: Pos): IcfgNode
    requires Within(f, p)
  {
    if At(f, p).Call? then RetNode(p) else Intra(p)
  }

  predicate IsOpaqueCall(f: Cfg, p: Pos) {
    Within(f, p) && At(f, p).Call? && At(f, p).opaqueCallee
  }

  /** The value of a block no unique case leads to is -1. Conditions of edges are 32-bit numbers. */
  function CaseValue(caseOf: map<nat, int>, block: nat): int {
    if block in caseOf then caseOf[block] else -1
  }

  /** The condition under which p hands control to its k-th next instruction. */
  function ConditionAt(f: Cfg, p: Pos, k: nat, q: Pos): Condition
    requires Within(f, p)
  {
    match At(f, p)
    case Branch(conditional) => if conditional then When(1 - k) else Unconditional
    case Switch(caseOf) => When(S32(CaseValue(caseOf, q.block)))
    case _ => Unconditional
  }

  function FirstIndex<T(==)>(s: seq<T>, x: T): (k: nat)
    requires x in s
    ensures k < |s| && s[k] == x && forall j: nat | j < k :: s[j] != x
  {
    if s[0] == x then 0 else FirstIndex(s[1..], x) + 1
  }

  function ConditionOf(f: Cfg, p: Pos, q: Pos): Condition
    requires WellFormed(f) && Within(f, p) && q in Next(f, p)
  {
    ConditionAt(f, p, FirstIndex(Next(f, p), q), q)
  }

  lemma S32IsCongruence(v: int, w: int)
    ensures S32(v) == S32(w) <==> (v - w) % 0x1_0000_0000 == 0
  {
    var a, b := v + 0x8000_0000, w + 0x8000_0000;
    assert v - w == a - b;
  }

  /** Conditions tell the targets of a two-way branch apart, and those of a switch exactly when their case
      values, -1 for the default, differ in the low 32 bits. */
  lemma ConditionsDifferExactlyWhen(f: Cfg, p: Pos, q: Pos, r: Pos)
    requires WellFormed(f) && Within(f, p) && IsTerminator(f, p) && q in Next(f, p) && r in Next(f, p) && q != r
    ensures At(f, p) == Branch(true) && |f[p.block].succs| == 2 ==> ConditionOf(f, p, q) != ConditionOf(f, p, r)
    ensures At(f, p).Switch? ==>
              (ConditionOf(f, p, q) != ConditionOf(f, p, r) <==>
               (CaseValue(At(f, p).caseOf, q.block) - CaseValue(At(f, p).caseOf, r.block)) % 0x1_0000_0000 != 0)
  {
    NextOfTerminator(f, p);
    if At(f, p).Switch? {
      S32IsCongruence(CaseValue(At(f, p).caseOf, q.block), CaseValue(At(f, p).caseOf, r.block));
    }
  }

  /** Block 1 is the case -1 of a switch, block 2 its default. */
  const SWITCH: Cfg := [
    BasicBlock([Switch(map[1 := -1])], [1, 2], []), BasicBlock([Ret], [], [0]), BasicBlock([Ret], [], [0])]

  lemma SwitchIsWellFormed(f: Cfg)
    requires f == SWITCH
    ensures WellFormed(f)
  {
    assert f[0].preds == f[1].succs == f[2].succs == [];
    assert f[0].succs == [1, 2] && f[1].preds == [0] && f[2].preds == [0];
  }

  lemma SwitchTargets(f: Cfg, p: Pos)
    requires WellFormed(f) && Within(f, p) && IsTerminator(f, p) && f[p.block].succs == [1, 2]
    requires !IsIntrinsic(f, First(1)) && !IsIntrinsic(f, First(2))
    ensures Next(f, p) == [First(1), First(2)]
  {
    assert NextOfBlocks(f, p, 0) == [];
    assert NextOfBlocks(f, p, 1) == [First(1)];
  }

  /** A case -1 and the default get one condition. */
  lemma CaseMinusOneLooksLikeDefault(f: Cfg, p: Pos, q: Pos, r: Pos)
    requires f == SWITCH && p == Pos(0, 0) && q == First(1) && r == First(2)
    ensures WellFormed(f) && q in Next(f, p) && r in Next(f, p)
    ensures ConditionOf(f, p, q) == ConditionOf(f, p, r) == When(-1)
  {
    SwitchIsWellFormed(f);
    SwitchTargets(f, p);
  }

  /** The first proper instructions of the function. */
  function Starts(f: Cfg): seq<Pos>
    requires WellFormed(f) && f != []
  {
    if IsIntrinsic(f, First(0)) then Next(f, First(0)) else [First(0)]
  }

  /** The edges, given which start instructions have been entered, which instructions have been visited
      and which have been given a node. */
  ghost predicate IsEdge(f: Cfg, starts: seq<Pos>, visited: set<Pos>, touched: set<Pos>,
                         s: IcfgNode, d: IcfgNode, c: Condition)
    requires WellFormed(f) && f != []
  {
    || (s.FunEntry? && c.Unconditional? && exists q | q in starts && Within(f, q) :: d == BlockNode(f, q))
    || SuccessorEdge(f, visited, s, d, c)
    || (c.Unconditional? && d.FunExit? && s.Intra? && s.inst in visited && Within(f, s.inst) && At(f, s.inst).Ret?)
    || (c.Unconditional? && s.CallNode? && d == RetNode(s.inst) && s.inst in touched && IsOpaqueCall(f, s.inst))
  }

  ghost predicate SuccessorEdge(f: Cfg, visited: set<Pos>, s: IcfgNode, d: IcfgNode, c: Condition)
    requires WellFormed(f)
  {
    exists p, q | p in visited :: Connects(f, p, q, s, d, c)
  }

  predicate Connects(f: Cfg, p: Pos, q: Pos, s: IcfgNode, d: IcfgNode, c: Condition)
    requires WellFormed(f)
  {
    && Within(f, p) && q in Next(f, p) && Within(f, q)
    && s == LeaveNode(f, p) && d == BlockNode(f, q) && c == ConditionOf(f, p, q)
  }

  ghost predicate HoldsExactly(f: Cfg, starts: seq<Pos>, visited: set<Pos>, touched: set<Pos>, edges: Edges)
    requires WellFormed(f) && f != []
  {
    forall s, d, c :: Has(edges, s, d, c) <==> IsEdge(f, starts, visited, touched, s, d, c)
  }

  predicate Has(edges: Edges, s: IcfgNode, d: IcfgNode, c: Condition) {
    (s, d) in edges && edges[(s, d)] == c
  }

  /** addIntraEdge and addConditionalIntraEdge: the first edge between two nodes stays. */
  function Add(edges: Edges, s: IcfgNode, d: IcfgNode, c: Condition): Edges {
    if (s, d) in edges then edges else edges[(s, d) := c]
  }

  predicate IsNext(f: Cfg, p: Pos, q: Pos)
    requires WellFormed(f)
  {
    Within(f, p) && q in Next(f, p)
  }

  ghost function Succeeds(f: Cfg): (Pos, Pos) -> bool
    requires WellFormed(f)
  {
    (p: Pos, q: Pos) => WellFormed(f) && IsNext(f, p, q)
  }

  /** Reachable from the entry of the function. */
  ghost predicate FromEntry(f: Cfg, p: Pos)
    requires WellFormed(f) && f != []
  {
    ReachedFrom(Succeeds(f), Elements(Starts(f)), p)
  }

  // ---------------------------------------------------------------- one visit, edge by edge

  predicate ReturnEdge(f: Cfg, p: Pos, s: IcfgNode, d: IcfgNode, c: Condition) {
    c.Unconditional? && d.FunExit? && s == Intra(p) && Within(f, p) && At(f, p).Ret?
  }

  /** One of the first k successor edges of p. */
  ghost predicate EarlySuccessorEdge(f: Cfg, p: Pos, k: nat, s: IcfgNode, d: IcfgNode, c: Condition)
    requires WellFormed(f) && Within(f, p) && k <= |Next(f, p)|
  {
    exists j: nat | j < k :: Connects(f, p, Next(f, p)[j], s, d, c)
  }

  /** The graph while p is being visited: its first k successors are connected. */
  ghost predicate HoldsPartly(f: Cfg, visited: set<Pos>, touched: set<Pos>, p: Pos, k: nat, edges: Edges)
    requires WellFormed(f) && f != [] && Within(f, p) && k <= |Next(f, p)|
  {
    forall s, d, c :: Has(edges, s, d, c) <==>
      || IsEdge(f, Starts(f), visited, touched, s, d, c)
      || ReturnEdge(f, p, s, d, c)
      || EarlySuccessorEdge(f, p, k, s, d, c)
  }

  /** getOrAddBlockICFGNode leaves one edge behind: that of a call without a known body. */
  function Enter(f: Cfg, q: Pos, edges: Edges): Edges {
    if IsOpaqueCall(f, q) then Add(edges, CallNode(q), RetNode(q), Unconditional) else edges
  }

  lemma EnterKeepsExactly(f: Cfg, starts: seq<Pos>, visited: set<Pos>, touched: set<Pos>, q: Pos, edges: Edges)
    requires WellFormed(f) && f != [] && HoldsExactly(f, starts, visited, touched, edges)
    ensures HoldsExactly(f, starts, visited, touched + {q}, Enter(f, q, edges))
  {
    forall s, d, c ensures Has(Enter(f, q, edges), s, d, c) <==> IsEdge(f, starts, visited, touched + {q}, s, d, c) {
      assert Has(edges, s, d, c) <==> IsEdge(f, starts, visited, touched, s, d, c);
      if (s, d) == (CallNode(q), RetNode(q)) {
        OnlyOpaqueEdge(f, starts, visited, touched, q, edges);
      }
    }
  }

  /** A call node and its return node are connected for no other reason. */
  lemma OnlyOpaqueEdge(f: Cfg, starts: seq<Pos>, visited: set<Pos>, touched: set<Pos>, q: Pos, edges: Edges)
    requires WellFormed(f) && f != [] && HoldsExactly(f, starts, visited, touched, edges)
    ensures (CallNode(q), RetNode(q)) in edges ==> edges[(CallNode(q), RetNode(q))] == Unconditional
  {
    if (CallNode(q), RetNode(q)) in edges {
      assert Has(edges, CallNode(q), RetNode(q), edges[(CallNode(q), RetNode(q))]);
    }
  }

  lemma EnterKeepsPartly(f: Cfg, visited: set<Pos>, touched: set<Pos>, p: Pos, k: nat, q: Pos, edges: Edges)
    requires WellFormed(f) && f != [] && Within(f, p) && k <= |Next(f, p)|
    requires HoldsPartly(f, visited, touched, p, k, edges)
    ensures HoldsPartly(f, visited, touched + {q}, p, k, Enter(f, q, edges))
  {
    var a, b := CallNode(q), RetNode(q);
    if (a, b) in edges {
      assert Has(edges, a, b, edges[(a, b)]);
    }
    forall s, d, c ensures Has(Enter(f, q, edges), s, d, c) <==>
      || IsEdge(f, Starts(f), visited, touched + {q}, s, d, c)
      || ReturnEdge(f, p, s, d, c)
      || EarlySuccessorEdge(f, p, k, s, d, c)
    {
      assert Has(edges, s, d, c) <==>
        || IsEdge(f, Starts(f), visited, touched, s, d, c)
        || ReturnEdge(f, p, s, d, c)
        || EarlySuccessorEdge(f, p, k, s, d, c);
    }
  }

  /** Connecting the k-th successor: a repeated successor changes nothing, because its edge is there. */
  lemma ConnectKeepsPartly(f: Cfg, visited: set<Pos>, touched: set<Pos>, p: Pos, k: nat, edges: Edges)
    requires WellFormed(f) && f != [] && Within(f, p) && k < |Next(f, p)| && Within(f, Next(f, p)[k]) && p !in visited
    requires HoldsPartly(f, visited, touched, p, k, edges)
    ensures var q := Next(f, p)[k];
            HoldsPartly(f, visited, touched, p, k + 1,
                        Add(edges, LeaveNode(f, p), BlockNode(f, q), ConditionAt(f, p, k, q)))
  {
    var q := Next(f, p)[k];
    var a, b := LeaveNode(f, p), BlockNode(f, q);
    var now := Add(edges, a, b, ConditionAt(f, p, k, q));
    NewConnection(f, visited, touched, p, k, edges);
    forall s, d, c ensures Has(now, s, d, c) <==>
      || IsEdge(f, Starts(f), visited, touched, s, d, c)
      || ReturnEdge(f, p, s, d, c)
      || EarlySuccessorEdge(f, p, k + 1, s, d, c)
    {
      assert Has(edges, s, d, c) <==>
        || IsEdge(f, Starts(f), visited, touched, s, d, c)
        || ReturnEdge(f, p, s, d, c)
        || EarlySuccessorEdge(f, p, k, s, d, c);
      OneMoreSuccessor(f, p, k, s, d, c);
    }
  }

  lemma OneMoreSuccessor(f: Cfg, p: Pos, k: nat, s: IcfgNode, d: IcfgNode, c: Condition)
    requires WellFormed(f) && Within(f, p) && k < |Next(f, p)| && Within(f, Next(f, p)[k])
    ensures EarlySuccessorEdge(f, p, k + 1, s, d, c) <==>
            || EarlySuccessorEdge(f, p, k, s, d, c)
            || (s == LeaveNode(f, p) && d == BlockNode(f, Next(f, p)[k]) && c == ConditionOf(f, p, Next(f, p)[k]))
  {
  }

  /** The edge from p to its k-th successor is either new and gets the condition of the first
      occurrence, or was made for an earlier occurrence. */
  lemma NewConnection(f: Cfg, visited: set<Pos>, touched: set<Pos>, p: Pos, k: nat, edges: Edges)
    requires WellFormed(f) && f != [] && Within(f, p) && k < |Next(f, p)| && Within(f, Next(f, p)[k]) && p !in visited
    requires HoldsPartly(f, visited, touched, p, k, edges)
    ensures var q := Next(f, p)[k];
            var key := (LeaveNode(f, p), BlockNode(f, q));
            && (key in edges ==> edges[key] == ConditionOf(f, p, q))
            && (key !in edges ==> ConditionAt(f, p, k, q) == ConditionOf(f, p, q))
  {
    var next := Next(f, p);
    var q := next[k];
    var a, b := LeaveNode(f, p), BlockNode(f, q);
    var i := FirstIndex(next, q);
    var c := ConditionOf(f, p, q);
    assert Has(edges, a, b, c) <==>
      || IsEdge(f, Starts(f), visited, touched, a, b, c)
      || ReturnEdge(f, p, a, b, c)
      || EarlySuccessorEdge(f, p, k, a, b, c);
    if i < k {
      assert Connects(f, p, next[i], a, b, c);
    }
    if (a, b) in edges {
      assert Has(edges, a, b, edges[(a, b)]);
      assert !SuccessorEdge(f, visited, a, b, edges[(a, b)]);
    }
  }

  lemma VisitComplete(f: Cfg, visited: set<Pos>, touched: set<Pos>, p: Pos, edges: Edges)
    requires WellFormed(f) && f != [] && Within(f, p)
    requires HoldsPartly(f, visited, touched, p, |Next(f, p)|, edges)
    ensures HoldsExactly(f, Starts(f), visited + {p}, touched, edges)
  {
    NextIsProper(f, p);
    forall s, d, c ensures Has(edges, s, d, c) <==> IsEdge(f, Starts(f), visited + {p}, touched, s, d, c) {
      assert Has(edges, s, d, c) <==>
        || IsEdge(f, Starts(f), visited, touched, s, d, c)
        || ReturnEdge(f, p, s, d, c)
        || EarlySuccessorEdge(f, p, |Next(f, p)|, s, d, c);
      SuccessorsOfOneMore(f, visited, p, s, d, c);
    }
  }

  lemma SuccessorsOfOneMore(f: Cfg, visited: set<Pos>, p: Pos, s: IcfgNode, d: IcfgNode, c: Condition)
    requires WellFormed(f) && Within(f, p)
    ensures SuccessorEdge(f, visited + {p}, s, d, c) <==>
            SuccessorEdge(f, visited, s, d, c) || EarlySuccessorEdge(f, p, |Next(f, p)|, s, d, c)
  {
    if EarlySuccessorEdge(f, p, |Next(f, p)|, s, d, c) {
      EarlyIsSuccessor(f, visited, p, s, d, c);
    } else if SuccessorEdge(f, visited, s, d, c) {
      var u, q :| u in visited && Connects(f, u, q, s, d, c);
      assert u in visited + {p};
    } else if SuccessorEdge(f, visited + {p}, s, d, c) {
      SuccessorIsOldOrEarly(f, visited, p, s, d, c);
    }
  }

  lemma SuccessorIsOldOrEarly(f: Cfg, visited: set<Pos>, p: Pos, s: IcfgNode, d: IcfgNode, c: Condition)
    requires WellFormed(f) && Within(f, p) && SuccessorEdge(f, visited + {p}, s, d, c)
    ensures SuccessorEdge(f, visited, s, d, c) || EarlySuccessorEdge(f, p, |Next(f, p)|, s, d, c)
  {
    var u, q :| u in visited + {p} && Connects(f, u, q, s, d, c);
    if u == p {
      SuccessorIsEarly(f, p, q, s, d, c);
    }
  }

  lemma EarlyIsSuccessor(f: Cfg, visited: set<Pos>, p: Pos, s: IcfgNode, d: IcfgNode, c: Condition)
    requires WellFormed(f) && Within(f, p) && EarlySuccessorEdge(f, p, |Next(f, p)|, s, d, c)
    ensures SuccessorEdge(f, visited + {p}, s, d, c)
  {
    var next := Next(f, p);
    var j: nat :| j < |next| && Connects(f, p, next[j], s, d, c);
    assert p in visited + {p};
  }

  lemma SuccessorIsEarly(f: Cfg, p: Pos, q: Pos, s: IcfgNode, d: IcfgNode, c: Condition)
    requires WellFormed(f) && Within(f, p) && Connects(f, p, q, s, d, c)
    ensures EarlySuccessorEdge(f, p, |Next(f, p)|, s, d, c)
  {
    var next := Next(f, p);
    var j: nat :| j < |next| && next[j] == q;
  }

  lemma NextIsStep(f: Cfg, p: Pos)
    requires WellFormed(f) && Within(f, p)
    ensures forall q :: q in Elements(Next(f, p)) <==> Succeeds(f)(p, q)
    ensures Elements(Next(f, p)) <= Positions(f)
  {
    NextIsProper(f, p);
  }

  function Positions(f: Cfg): set<Pos> {
    set b: nat, i: nat | b < |f| && i < |f[b].insts| :: Pos(b, i)
  }

  lemma EntryEdge(f: Cfg, starts: seq<Pos>, touched: set<Pos>, q: Pos, edges: Edges)
    requires WellFormed(f) && f != [] && Within(f, q) && HoldsExactly(f, starts, {}, touched, edges)
    ensures HoldsExactly(f, starts + [q], {}, touched, Add(edges, FunEntry, BlockNode(f, q), Unconditional))
  {
    var d := BlockNode(f, q);
    var now := Add(edges, FunEntry, d, Unconditional);
    if (FunEntry, d) in edges {
      assert Has(edges, FunEntry, d, edges[(FunEntry, d)]);
    }
    forall s, t, c ensures Has(now, s, t, c) <==> IsEdge(f, starts + [q], {}, touched, s, t, c) {
      assert Has(edges, s, t, c) <==> IsEdge(f, starts, {}, touched, s, t, c);
    }
  }

  lemma StartVisit(f: Cfg, visited: set<Pos>, touched: set<Pos>, p: Pos, edges: Edges)
    requires WellFormed(f) && f != [] && Within(f, p) && HoldsExactly(f, Starts(f), visited, touched, edges)
    ensures HoldsPartly(f, visited, touched, p, 0,
                        if At(f, p).Ret? then Add(edges, BlockNode(f, p), FunExit, Unconditional) else edges)
  {
    var a := BlockNode(f, p);
    if (a, FunExit) in edges {
      assert Has(edges, a, FunExit, edges[(a, FunExit)]);
    }
    var now := if At(f, p).Ret? then Add(edges, a, FunExit, Unconditional) else edges;
    forall s, d, c ensures Has(now, s, d, c) <==>
      || IsEdge(f, Starts(f), visited, touched, s, d, c)
      || ReturnEdge(f, p, s, d, c)
      || EarlySuccessorEdge(f, p, 0, s, d, c)
    {
      assert Has(edges, s, d, c) <==> IsEdge(f, Starts(f), visited, touched, s, d, c);
    }
  }

  // ---------------------------------------------------------------- the builder

  /** The finished graph: closed that are not reachable are connected too. */
  ghost predicate IsFinished(f: Cfg, visited: set<Pos>, closed: set<Pos>, edges: Edges)
    requires WellFormed(f) && f != []
  {
    forall s, d, c :: Has(edges, s, d, c) <==>
      IsEdge(f, Starts(f), visited, visited, s, d, c) || exists p | p in closed :: ReturnEdge(f, p, s, d, c)
  }

  lemma OneMoreReturn(f: Cfg, visited: set<Pos>, closed: set<Pos>, p: Pos, edges: Edges)
    requires WellFormed(f) && f != [] && Within(f, p) && IsFinished(f, visited, closed, edges)
    ensures IsFinished(f, visited, closed + {p},
                       if At(f, p).Ret? then Add(edges, BlockNode(f, p), FunExit, Unconditional) else edges)
  {
    var a := BlockNode(f, p);
    if (a, FunExit) in edges {
      assert Has(edges, a, FunExit, edges[(a, FunExit)]);
    }
    var now := if At(f, p).Ret? then Add(edges, a, FunExit, Unconditional) else edges;
    forall s, d, c ensures Has(now, s, d, c) <==>
      IsEdge(f, Starts(f), visited, visited, s, d, c) || exists r | r in closed + {p} :: ReturnEdge(f, r, s, d, c)
    {
      assert Has(edges, s, d, c) <==>
        IsEdge(f, Starts(f), visited, visited, s, d, c) || exists r | r in closed :: ReturnEdge(f, r, s, d, c);
      if ReturnEdge(f, p, s, d, c) {
        assert p in closed + {p};
      }
    }
  }

  // ---------------------------------------------------------------- the finished graph

  lemma FollowsReaches(f: Cfg, p: Pos, q: Pos)
    requires Follows(f, p, q)
    ensures Reaches(FlowStep(f), p, q)
  {
    var path :| SkipsIntrinsics(f, path, p, q);
    assert IsPath(FlowStep(f), path, p, q);
  }

  /** x has been passed on the way from the entry: as a proper instruction that is visited, or as one of
      the intrinsics behind a visited instruction or in front of all of them. */
  ghost predicate Passed(f: Cfg, x: Pos)
    requires WellFormed(f) && f != []
  {
    if IsIntrinsic(f, x) then x == First(0) || exists u, path :: PassedFrom(f, u, path, x) else FromEntry(f, x)
  }

  ghost predicate PassedFrom(f: Cfg, u: Pos, path: seq<Pos>, x: Pos)
    requires WellFormed(f) && f != []
  {
    (FromEntry(f, u) || (u == First(0) && IsIntrinsic(f, u))) && SkipsIntrinsics(f, path, u, x)
  }

  lemma PassedStep(f: Cfg, x: Pos, y: Pos)
    requires WellFormed(f) && f != [] && Passed(f, x) && Flow(f, x, y)
    ensures Passed(f, y)
  {
    if IsIntrinsic(f, x) && x != First(0) {
      var u, path :| PassedFrom(f, u, path, x);
      PathWithStep(f, path, u, x, y);
      PassedOn(f, u, path + [y], y);
    } else {
      assert SkipsIntrinsics(f, [x, y], x, y);
      PassedOn(f, x, [x, y], y);
    }
  }

  lemma PassedOn(f: Cfg, u: Pos, path: seq<Pos>, y: Pos)
    requires WellFormed(f) && f != [] && PassedFrom(f, u, path, y) && Within(f, y)
    ensures Passed(f, y)
  {
    assert Flow(f, path[0], path[0 + 1]);
    if !IsIntrinsic(f, y) {
      NextIsFollows(f, u, y);
      if FromEntry(f, u) {
        ReachedFurther(Succeeds(f), Elements(Starts(f)), u, y);
      } else {
        ReachesItself(Succeeds(f), y);
      }
    }
  }

  lemma {:induction false} PassedAlong(f: Cfg, path: seq<Pos>, k: nat)
    requires WellFormed(f) && f != [] && k < |path| && path[0] == First(0)
    requires forall i: nat | i + 1 < |path| :: FlowStep(f)(path[i], path[i + 1])
    ensures Passed(f, path[k])
  {
    if k == 0 {
      ReachesItself(Succeeds(f), First(0));
    } else {
      PassedAlong(f, path, k - 1);
      assert FlowStep(f)(path[k - 1], path[k - 1 + 1]);
      PassedStep(f, path[k - 1], path[k]);
    }
  }

  lemma StartIsExecuted(f: Cfg, q: Pos)
    requires WellFormed(f) && f != []
    ensures q in Starts(f) <==> ComesFirst(f, q)
    ensures q in Starts(f) ==> Reaches(FlowStep(f), First(0), q)
  {
    if IsIntrinsic(f, First(0)) {
      NextIsFollows(f, First(0), q);
      if q in Starts(f) {
        FollowsReaches(f, First(0), q);
      }
    } else {
      ReachesItself(FlowStep(f), First(0));
    }
  }

  /** The instructions visited are those that control can reach. */
  lemma FromEntryIsExecuted(f: Cfg, p: Pos)
    requires WellFormed(f) && f != []
    ensures FromEntry(f, p) <==> Executed(f, p)
  {
    if FromEntry(f, p) {
      var x :| x in Elements(Starts(f)) && Reaches(Succeeds(f), x, p);
      StartIsExecuted(f, x);
      forall a, b | Succeeds(f)(a, b) ensures Reaches(FlowStep(f), a, b) {
        NextIsFollows(f, a, b);
        FollowsReaches(f, a, b);
      }
      ReachesThrough(Succeeds(f), FlowStep(f), x, p);
      ReachesTransitive(FlowStep(f), First(0), x, p);
      VisitedIsProper(f, x, p);
    }
    if Executed(f, p) {
      var path :| IsPath(FlowStep(f), path, First(0), p);
      PassedAlong(f, path, |path| - 1);
    }
  }

  lemma VisitedIsProper(f: Cfg, x: Pos, p: Pos)
    requires WellFormed(f) && f != [] && x in Starts(f) && Reaches(Succeeds(f), x, p)
    ensures Within(f, p) && !IsIntrinsic(f, p)
  {
    if p == x {
      NextIsProper(f, First(0));
    } else {
      var u := ReachesLast(Succeeds(f), x, p);
      NextIsProper(f, u);
    }
  }

  /** An edge of the finished graph that comes from a successor. */
  lemma SuccessorWire(f: Cfg, p: Pos, d: IcfgNode)
    requires WellFormed(f) && Within(f, p)
    ensures EntersNextOf(f, p, d) <==> exists q :: q in Next(f, p) && Within(f, q) && d == BlockNode(f, q)
  {
    forall q ensures q in Next(f, p) <==> Follows(f, p, q) {
      NextIsFollows(f, p, q);
    }
  }

  ghost predicate AllVisited(f: Cfg, visited: set<Pos>)
    requires WellFormed(f) && f != []
  {
    forall p :: p in visited <==> Executed(f, p)
  }

  lemma ConnectionIsWire(f: Cfg, p: Pos, q: Pos, s: IcfgNode, d: IcfgNode, c: Condition)
    requires WellFormed(f) && Executed(f, p) && Connects(f, p, q, s, d, c)
    ensures Wire(f, s, d)
  {
    NextIsFollows(f, p, q);
    assert EntersAt(f, q, d);
  }

  lemma EntryIsWire(f: Cfg, q: Pos, d: IcfgNode)
    requires WellFormed(f) && f != [] && q in Starts(f) && Within(f, q) && d == BlockNode(f, q)
    ensures Wire(f, FunEntry, d)
  {
    StartIsExecuted(f, q);
    assert EntersAt(f, q, d);
  }

  lemma EdgeIsWire(f: Cfg, visited: set<Pos>, s: IcfgNode, d: IcfgNode, c: Condition)
    requires WellFormed(f) && f != [] && AllVisited(f, visited)
    requires IsEdge(f, Starts(f), visited, visited, s, d, c)
    ensures Wire(f, s, d)
  {
    if SuccessorEdge(f, visited, s, d, c) {
      var p, q :| p in visited && Connects(f, p, q, s, d, c);
      ConnectionIsWire(f, p, q, s, d, c);
    } else if s.FunEntry? {
      var q :| q in Starts(f) && Within(f, q) && d == BlockNode(f, q);
      EntryIsWire(f, q, d);
    } else if d.FunExit? {
    } else {
      OpaqueIsWire(f, s, d);
    }
  }

  lemma OpaqueIsWire(f: Cfg, s: IcfgNode, d: IcfgNode)
    requires s.CallNode? && d == RetNode(s.inst) && Executed(f, s.inst) && IsOpaqueCall(f, s.inst)
    ensures Wire(f, s, d)
  {
  }

  lemma WireIsEdge(f: Cfg, visited: set<Pos>, s: IcfgNode, d: IcfgNode) returns (c: Condition)
    requires WellFormed(f) && f != [] && AllVisited(f, visited) && Wire(f, s, d)
    ensures IsEdge(f, Starts(f), visited, visited, s, d, c) ||
            exists p | p in Positions(f) :: ReturnEdge(f, p, s, d, c)
  {
    c := Unconditional;
    if s.FunEntry? {
      var q :| ComesFirst(f, q) && EntersAt(f, q, d);
      StartIsExecuted(f, q);
    } else if s.Intra? && At(f, s.inst).Ret? && d == FunExit {
      assert ReturnEdge(f, s.inst, s, d, c);
    } else if s.Intra? || s.RetNode? {
      var p := s.inst;
      SuccessorWire(f, p, d);
      var q :| q in Next(f, p) && Within(f, q) && d == BlockNode(f, q);
      c := ConditionOf(f, p, q);
      assert Connects(f, p, q, s, d, c);
    }
  }

  lemma FinishedIsWired(f: Cfg, visited: set<Pos>, edges: Edges)
    requires WellFormed(f) && f != [] && AllVisited(f, visited) && IsFinished(f, visited, Positions(f), edges)
    ensures Wired(f, edges)
  {
    forall s, d ensures (s, d) in edges <==> Wire(f, s, d) {
      if (s, d) in edges {
        var c := edges[(s, d)];
        assert Has(edges, s, d, c);
        if IsEdge(f, Starts(f), visited, visited, s, d, c) {
          EdgeIsWire(f, visited, s, d, c);
        }
      }
      if Wire(f, s, d) {
        var c := WireIsEdge(f, visited, s, d);
        assert Has(edges, s, d, c);
      }
    }
  }

  /** Conditions sit on the edges of branches and switches only, where the first target decides. */
  lemma EdgeCondition(f: Cfg, visited: set<Pos>, edges: Edges, s: IcfgNode, d: IcfgNode)
    requires WellFormed(f) && f != [] && IsFinished(f, visited, Positions(f), edges) && (s, d) in edges
    ensures edges[(s, d)] == Unconditional || exists p, q :: Connects(f, p, q, s, d, edges[(s, d)])
  {
    assert Has(edges, s, d, edges[(s, d)]);
  }

  lemma FinishedIsPlain(f: Cfg, visited: set<Pos>, edges: Edges)
    requires WellFormed(f) && f != [] && IsFinished(f, visited, Positions(f), edges)
    ensures OtherwisePlain(f, edges)
  {
    forall s, d | (s, d) in edges && edges[(s, d)] != Unconditional
      ensures s.Intra? && Within(f, s.inst) && IsConditional(At(f, s.inst))
    {
      EdgeCondition(f, visited, edges, s, d);
      var p, q :| Connects(f, p, q, s, d, edges[(s, d)]);
    }
  }

  /** An edge from a terminator leads to a next instruction, under its condition. */
  lemma EdgeOfTerminator(f: Cfg, visited: set<Pos>, edges: Edges, p: Pos, d: IcfgNode) returns (q: Pos)
    requires WellFormed(f) && f != [] && IsFinished(f, visited, Positions(f), edges)
    requires Within(f, p) && (At(f, p).Branch? || At(f, p).Switch?) && (Intra(p), d) in edges
    ensures q in Next(f, p) && Within(f, q) && d == BlockNode(f, q) && edges[(Intra(p), d)] == ConditionOf(f, p, q)
  {
    var c := edges[(Intra(p), d)];
    assert Has(edges, Intra(p), d, c);
    var u, w :| u in visited && Connects(f, u, w, Intra(p), d, c);
    q := w;
  }

  /** The edges from a terminator into one of its successor blocks. */
  lemma EdgesIntoBlock(f: Cfg, visited: set<Pos>, edges: Edges, p: Pos, i: nat, c: Condition)
    requires WellFormed(f) && f != [] && IsFinished(f, visited, Positions(f), edges)
    requires p in visited && Within(f, p) && IsTerminator(f, p) && (At(f, p).Branch? || At(f, p).Switch?)
    requires i < |f[p.block].succs|
    requires forall q | q in Next(f, p) && q.block == f[p.block].succs[i] :: ConditionOf(f, p, q) == c
    ensures EdgeInto(edges, Intra(p), f[p.block].succs[i], c)
  {
    NextOfTerminator(f, p);
    NextIsProper(f, p);
    var q := Next(f, p)[i];
    assert Connects(f, p, q, Intra(p), BlockNode(f, q), c);
    assert Has(edges, Intra(p), BlockNode(f, q), c);
    forall d | (Intra(p), d) in edges && InBlock(d, f[p.block].succs[i]) ensures edges[(Intra(p), d)] == c {
      var w := EdgeOfTerminator(f, visited, edges, p, d);
    }
  }

  lemma SameBlockSameNext(f: Cfg, p: Pos)
    requires WellFormed(f) && Within(f, p) && IsTerminator(f, p) && |f[p.block].succs| == 2
    requires f[p.block].succs[0] == f[p.block].succs[1]
    ensures |Next(f, p)| == 2 && Next(f, p)[0] == Next(f, p)[1]
  {
    var b := f[p.block].succs[0];
    var x := if IsIntrinsic(f, First(b)) then Next(f, First(b)) else [First(b)];
    NextOfTerminator(f, p);
    assert NextOfBlocks(f, p, 0) == [];
    assert NextOfBlocks(f, p, 1) == x;
    assert NextOfBlocks(f, p, 2) == x + x;
  }

  lemma BranchIsLabelled(f: Cfg, visited: set<Pos>, edges: Edges, p: Pos)
    requires WellFormed(f) && f != [] && IsFinished(f, visited, Positions(f), edges)
    requires p in visited && Within(f, p) && IsTerminator(f, p) && At(f, p) == Branch(true)
    requires |f[p.block].succs| == 2
    ensures Labelled(f, edges, p)
  {
    var succs := f[p.block].succs;
    NextOfTerminator(f, p);
    assert Next(f, p)[0].block == succs[0] && Next(f, p)[1].block == succs[1];
    if succs[0] == succs[1] {
      SameBlockSameNext(f, p);
    } else {
      EdgesIntoBlock(f, visited, edges, p, 1, When(0));
    }
    EdgesIntoBlock(f, visited, edges, p, 0, When(1));
  }

  lemma SwitchIsLabelled(f: Cfg, visited: set<Pos>, edges: Edges, p: Pos, b: nat, x: int)
    requires WellFormed(f) && f != [] && IsFinished(f, visited, Positions(f), edges)
    requires p in visited && Within(f, p) && IsTerminator(f, p) && At(f, p).Switch? && b in f[p.block].succs
    requires x == CaseValue(At(f, p).caseOf, b)
    ensures CaseLabel(edges, p, b, x)
  {
    var i: nat :| i < |f[p.block].succs| && f[p.block].succs[i] == b;
    EdgesIntoBlock(f, visited, edges, p, i, When(S32(x)));
    assert IsSigned32(S32(x), x);
  }

  /** MAIN RESULT: what the conditions on the edges of a branch or a switch are. */
  lemma FinishedIsLabelled(f: Cfg, visited: set<Pos>, edges: Edges, p: Pos)
    requires WellFormed(f) && f != [] && IsFinished(f, visited, Positions(f), edges)
    requires p in visited && Within(f, p) && IsTerminator(f, p)
    ensures Labelled(f, edges, p)
  {
    match At(f, p)
    case Branch(conditional) =>
      if conditional && |f[p.block].succs| == 2 {
        BranchIsLabelled(f, visited, edges, p);
      }
    case Switch(caseOf) =>
      forall b | b in f[p.block].succs ensures CaseLabel(edges, p, b, if b in caseOf then caseOf[b] else -1) {
        SwitchIsLabelled(f, visited, edges, p, b, if b in caseOf then caseOf[b] else -1);
      }
    case _ =>
  }

  lemma FinishedMeans(f: Cfg, visited: set<Pos>, edges: Edges)
    requires WellFormed(f) && f != [] && IsFinished(f, visited, Positions(f), edges)
    requires forall p :: p in visited <==> FromEntry(f, p)
    ensures forall p :: p in visited <==> Executed(f, p)
    ensures Wired(f, edges) && OtherwisePlain(f, edges)
    ensures forall p | Executed(f, p) && IsTerminator(f, p) :: Labelled(f, edges, p)
  {
    forall p ensures p in visited <==> Executed(f, p) {
      FromEntryIsExecuted(f, p);
    }
    FinishedIsWired(f, visited, edges);
    FinishedIsPlain(f, visited, edges);
    forall p | Executed(f, p) && IsTerminator(f, p) ensures Labelled(f, edges, p) {
      FinishedIsLabelled(f, visited, edges, p);
    }
  }

  class ICFGBuilder {
    const f: Cfg
    var edges: Edges

    constructor (f: Cfg)
      ensures this.f == f && edges == map[]
    {
      this.f := f;
      edges := map[];
    }

    method AddIntraEdge(s: IcfgNode, d: IcfgNode, c: Condition)
      modifies this
      ensures edges == Add(old(edges), s, d, c)
    {
      if (s, d) !in edges {
        edges := edges[(s, d) := c];
      }
    }

    method GetOrAddBlockICFGNode(q: Pos) returns (node: IcfgNode)
      requires Within(f, q)
      modifies this
      ensures node == BlockNode(f, q) && edges == Enter(f, q, old(edges))
    {
      node := BlockNode(f, q);
      if IsOpaqueCall(f, q) {
        AddIntraEdge(CallNode(q), RetNode(q), Unconditional);
      }
    }

    /** MAIN RESULT (build, for one function): exactly the instructions reachable from the entry are
        visited, and exactly the edges between them and their next instructions are made, calls being
        left from their return node; besides, the entry is connected to the first instructions, every
        return to the exit, and every visited call without a known body to its return node. */
    method Build() returns (ghost visited: set<Pos>)
      requires WellFormed(f) && f != [] && edges == map[]
      modifies this
      ensures forall p :: p in visited <==> FromEntry(f, p)
      ensures IsFinished(f, visited, Positions(f), edges)
      ensures forall p :: p in visited <==> Executed(f, p)
      ensures Wired(f, edges) && OtherwisePlain(f, edges)
      ensures forall p | Executed(f, p) && IsTerminator(f, p) :: Labelled(f, edges, p)
    {
      var worklist := ProcessFunEntry();
      visited := ProcessFunBody(worklist);
      ProcessFunExit(visited);
      FinishedMeans(f, visited, edges);
    }

    /** processFunEntry */
    method ProcessFunEntry() returns (worklist: seq<Pos>)
      requires WellFormed(f) && f != [] && edges == map[]
      modifies this
      ensures Elements(worklist) == Elements(Starts(f))
      ensures HoldsExactly(f, Starts(f), {}, Elements(worklist), edges)
    {
      var insts: seq<Pos>;
      if IsIntrinsic(f, First(0)) {
        insts := GetNextInsts(f, First(0), []);
      } else {
        insts := [First(0)];
      }
      assert insts == Starts(f);
      NextIsProper(f, First(0));
      worklist := EnterAll(insts);
    }

    /** The loop of processFunEntry. */
    method EnterAll(insts: seq<Pos>) returns (worklist: seq<Pos>)
      requires WellFormed(f) && f != [] && edges == map[] && forall s | s in insts :: Within(f, s)
      modifies this
      ensures forall p :: p in worklist <==> p in insts
      ensures HoldsExactly(f, insts, {}, Elements(worklist), edges)
    {
      worklist := [];
      ghost var touched: set<Pos> := {};
      for i := 0 to |insts|
        invariant HoldsExactly(f, insts[..i], {}, touched, edges)
        invariant forall p :: p in touched <==> p in worklist
        invariant forall p :: p in worklist <==> p in insts[..i]
      {
        assert insts[..i + 1] == insts[..i] + [insts[i]];
        EnterKeepsExactly(f, insts[..i], {}, touched, insts[i], edges);
        var instNode := GetOrAddBlockICFGNode(insts[i]);
        touched := touched + {insts[i]};
        EntryEdge(f, insts[..i], touched, insts[i], edges);
        AddIntraEdge(FunEntry, instNode, Unconditional);
        worklist := Push(worklist, insts[i]);
      }
      assert insts[..|insts|] == insts;
      assert touched == Elements(worklist);
    }

    /** processFunBody */
    method ProcessFunBody(worklist0: seq<Pos>) returns (visited: set<Pos>)
      requires WellFormed(f) && f != [] && Elements(worklist0) == Elements(Starts(f))
      requires HoldsExactly(f, Starts(f), {}, Elements(worklist0), edges)
      modifies this
      ensures forall p :: p in visited <==> FromEntry(f, p)
      ensures HoldsExactly(f, Starts(f), visited, visited, edges)
    {
      ghost var starts := Elements(Starts(f));
      visited := {};
      var worklist := worklist0;
      ghost var touched := starts;
      StartWalking(Succeeds(f), starts, worklist0);
      NextIsProper(f, First(0));
      while worklist != []
        invariant Walking(Succeeds(f), starts, visited, touched, worklist)
        invariant HoldsExactly(f, Starts(f), visited, touched, edges)
        invariant touched <= Positions(f)
        decreases Positions(f) - visited, |worklist|
      {
        assert worklist[0] in Elements(worklist);
        visited, worklist, touched := Take(visited, worklist, touched);
      }
      WalkIsComplete(Succeeds(f), starts, visited, touched);
    }

    /** One iteration. */
    method Take(visited0: set<Pos>, worklist0: seq<Pos>, ghost touched0: set<Pos>)
      returns (visited: set<Pos>, worklist: seq<Pos>, ghost touched: set<Pos>)
      requires WellFormed(f) && f != [] && worklist0 != [] && worklist0[0] in touched0 && touched0 <= Positions(f)
      requires Walking(Succeeds(f), Elements(Starts(f)), visited0, touched0, worklist0)
      requires HoldsExactly(f, Starts(f), visited0, touched0, edges)
      modifies this
      ensures Walking(Succeeds(f), Elements(Starts(f)), visited, touched, worklist)
      ensures HoldsExactly(f, Starts(f), visited, touched, edges) && touched <= Positions(f)
      ensures if worklist0[0] in visited0 then visited == visited0 && worklist == worklist0[1..]
              else visited == visited0 + {worklist0[0]}
    {
      ghost var starts := Elements(Starts(f));
      var inst := worklist0[0];
      visited, worklist, touched := visited0, worklist0[1..], touched0;
      if inst in visited {
        WalkOver(Succeeds(f), starts, visited0, touched0, worklist0);
      } else {
        worklist := Visit(inst, visited, worklist, touched);
        NextIsStep(f, inst);
        WalkOn(Succeeds(f), starts, visited0, touched0, worklist0, Elements(Next(f, inst)), worklist);
        visited, touched := visited + {inst}, touched + Elements(Next(f, inst));
      }
    }

    /** The body of the loop for an instruction seen for the first time. */
    method Visit(inst: Pos, ghost visited: set<Pos>, worklist0: seq<Pos>, ghost touched: set<Pos>)
      returns (worklist: seq<Pos>)
      requires WellFormed(f) && f != [] && inst !in visited && inst in touched && Within(f, inst)
      requires HoldsExactly(f, Starts(f), visited, touched, edges)
      modifies this
      ensures Elements(worklist) == Elements(worklist0) + Elements(Next(f, inst))
      ensures HoldsExactly(f, Starts(f), visited + {inst}, touched + Elements(Next(f, inst)), edges)
    {
      EnterKeepsExactly(f, Starts(f), visited, touched, inst, edges);
      assert touched + {inst} == touched;
      var srcNode := GetOrAddBlockICFGNode(inst);
      StartVisit(f, visited, touched, inst, edges);
      if At(f, inst).Ret? {
        AddIntraEdge(srcNode, FunExit, Unconditional);
      }
      var nextInsts := GetNextInsts(f, inst, []);
      assert nextInsts == Next(f, inst);
      worklist := ConnectNext(inst, nextInsts, visited, worklist0, touched);
      VisitComplete(f, visited, touched + Elements(nextInsts), inst, edges);
    }

    /** The loop over the next instructions. */
    method ConnectNext(inst: Pos, nextInsts: seq<Pos>, ghost visited: set<Pos>, worklist0: seq<Pos>,
                       ghost touched0: set<Pos>)
      returns (worklist: seq<Pos>)
      requires WellFormed(f) && f != [] && inst !in visited && Within(f, inst) && nextInsts == Next(f, inst)
      requires HoldsPartly(f, visited, touched0, inst, 0, edges)
      modifies this
      ensures Elements(worklist) == Elements(worklist0) + Elements(nextInsts)
      ensures HoldsPartly(f, visited, touched0 + Elements(nextInsts), inst, |nextInsts|, edges)
    {
      worklist := worklist0;
      ghost var touched := touched0;
      var branchID: nat := 0;
      NextIsProper(f, inst);
      while branchID < |nextInsts|
        invariant branchID <= |nextInsts|
        invariant HoldsPartly(f, visited, touched, inst, branchID, edges)
        invariant forall q :: q in touched <==> q in touched0 || q in nextInsts[..branchID]
        invariant forall q :: q in worklist <==> q in worklist0 || q in nextInsts[..branchID]
      {
        var succ := nextInsts[branchID];
        assert nextInsts[..branchID + 1] == nextInsts[..branchID] + [succ];
        EnterKeepsPartly(f, visited, touched, inst, branchID, succ, edges);
        var dstNode := GetOrAddBlockICFGNode(succ);
        touched := touched + {succ};
        var srcNode := LeaveNode(f, inst);
        ConnectKeepsPartly(f, visited, touched, inst, branchID, edges);
        AddIntraEdge(srcNode, dstNode, ConditionAt(f, inst, branchID, succ));
        worklist := Push(worklist, succ);
        branchID := branchID + 1;
      }
      assert nextInsts[..|nextInsts|] == nextInsts;
      assert touched == touched0 + Elements(nextInsts);
    }

    /** processFunExit */
    method ProcessFunExit(ghost visited: set<Pos>)
      requires WellFormed(f) && f != [] && HoldsExactly(f, Starts(f), visited, visited, edges)
      modifies this
      ensures IsFinished(f, visited, Positions(f), edges)
    {
      ghost var closed: set<Pos> := {};
      for b := 0 to |f|
        invariant IsFinished(f, visited, closed, edges)
        invariant closed <= Positions(f) && forall p: Pos | Within(f, p) && p.block < b :: p in closed
      {
        for i := 0 to |f[b].insts|
          invariant IsFinished(f, visited, closed, edges)
          invariant closed <= Positions(f) && forall p: Pos | Within(f, p) && p.block < b :: p in closed
          invariant forall k: nat | k < i :: Pos(b, k) in closed
        {
          var inst := Pos(b, i);
          OneMoreReturn(f, visited, closed, inst, edges);
          if At(f, inst).Ret? {
            var instNode := GetOrAddBlockICFGNode(inst);
            AddIntraEdge(instNode, FunExit, Unconditional);
          }
          closed := closed + {inst};
        }
      }
      assert closed == Positions(f);
    }
  }
}
