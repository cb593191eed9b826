/** Ancestors and descendants in the class hierarchy graph (svf-llvm/lib/CHGBuilder.cpp). */
module ChgClosure {
  import opened Reachability

  /** `addr` stands for the pointer, `funcName` for the demangled name. */
  datatype SVFFunction = SVFFunction(addr: nat, funcName: string)

  datatype CHEdgeType = Inheritance | Instance

  datatype CHEdge = CHEdge(src: nat, dst: nat, edgeType: CHEdgeType)

  datatype CHNode = CHNode(name: string, virtualFunctionVectors: seq<seq<SVFFunction>>,
                           outEdges: seq<CHEdge>, inEdges: seq<CHEdge>)

  /** What createNode and addEdge guarantee: names are unique, every edge is listed at both ends. */
  ghost predicate WellFormed(nodes: seq<CHNode>) {
    && (forall n: nat, m: nat | n < |nodes| && m < |nodes| && nodes[n].name == nodes[m].name :: n == m)
    && (forall n: nat, e | n < |nodes| && e in nodes[n].outEdges ::
          e.src == n && e.dst < |nodes| && e in nodes[e.dst].inEdges)
    && (forall n: nat, e | n < |nodes| && e in nodes[n].inEdges ::
          e.dst == n && e.src < |nodes| && e in nodes[e.src].outEdges)
  }

  predicate DirectBase(nodes: seq<CHNode>, a: nat, b: nat) {
    a < |nodes| && exists e | e in nodes[a].outEdges :: e.edgeType.Inheritance? && e.dst == b
  }

  ghost function Inherits(nodes: seq<CHNode>): (nat, nat) -> bool {
    (a: nat, b: nat) => DirectBase(nodes, a, b)
  }

  /** b lies one or more inheritance edges above a; on a cycle a class is its own ancestor. */
  ghost predicate Ancestor(nodes: seq<CHNode>, a: nat, b: nat) {
    exists k: nat :: Reaches(Inherits(nodes), a, k) && DirectBase(nodes, k, b)
  }

  lemma AncestorsOfAncestors(nodes: seq<CHNode>, a: nat, b: nat, c: nat)
    requires Ancestor(nodes, a, b) && Ancestor(nodes, b, c)
    ensures Ancestor(nodes, a, c)
  {
    var k: nat :| Reaches(Inherits(nodes), a, k) && DirectBase(nodes, k, b);
    var l: nat :| Reaches(Inherits(nodes), b, l) && DirectBase(nodes, l, c);
    ReachesFurther(Inherits(nodes), a, k, b);
    ReachesTransitive(Inherits(nodes), a, b, l);
  }

  type NameToNodes = map<string, set<nat>>

  function Get(m: NameToNodes, name: string): set<nat> {
    if name in m then m[name] else {}
  }

  /** The maps are those before the search from n, with `found` entered as its ancestors. */
  ghost predicate Entered(nodes: seq<CHNode>, anc0: NameToNodes, desc0: NameToNodes,
                          anc: NameToNodes, desc: NameToNodes, n: nat, found: set<nat>) {
    && (forall a: nat | a < |nodes| ::
          Get(anc, nodes[a].name) == Get(anc0, nodes[a].name) + if a == n then found else {})
    && (forall b: nat | b < |nodes| ::
          Get(desc, nodes[b].name) == Get(desc0, nodes[b].name) + if b in found then {n} else {})
  }

  /** While the search from n runs. */
  ghost predicate Searching(nodes: seq<CHNode>, n: nat, visited: set<nat>, worklist: seq<nat>, found: set<nat>) {
    && (n in visited || n in worklist)
    && (forall v: nat | v in visited || v in worklist :: v < |nodes| && Reaches(Inherits(nodes), n, v))
    && (forall b: nat | b in found :: b < |nodes| && Ancestor(nodes, n, b))
    && (forall v: nat, b: nat | v in visited && DirectBase(nodes, v, b) ::
          b in found && (b in visited || b in worklist))
  }

  /** The list taken up from its front. */
  lemma Rotated(nodes: seq<CHNode>, n: nat, visited: set<nat>, list: seq<nat>, found: set<nat>)
    requires Searching(nodes, n, visited, list, found) && list != []
    ensures Searching(nodes, n, visited, list[1..] + [list[0]], found)
  {
    assert list == [list[0]] + list[1..];
    assert forall v :: v in list <==> v in list[1..] + [list[0]];
  }

  lemma SearchIsComplete(nodes: seq<CHNode>, n: nat, visited: set<nat>, found: set<nat>)
    requires Searching(nodes, n, visited, [], found)
    ensures forall b: nat :: b in found <==> Ancestor(nodes, n, b)
  {
    assert Closed(Inherits(nodes), visited);
    forall b: nat | Ancestor(nodes, n, b) ensures b in found {
      var k: nat :| Reaches(Inherits(nodes), n, k) && DirectBase(nodes, k, b);
      ClosedHoldsReachable(Inherits(nodes), visited, n, k);
    }
  }

  /** All edges of cur before the i-th have been handled. */
  ghost predicate BasesDone(nodes: seq<CHNode>, cur: nat, i: nat, visited: set<nat>, worklist: seq<nat>,
                            found: set<nat>)
    requires cur < |nodes| && i <= |nodes[cur].outEdges|
  {
    forall j: nat | j < i && nodes[cur].outEdges[j].edgeType.Inheritance? ::
      var b := nodes[cur].outEdges[j].dst;
      b in found && (b in visited + {cur} || b in worklist)
  }

  lemma VisitDone(nodes: seq<CHNode>, n: nat, cur: nat, visited: set<nat>, worklist: seq<nat>, found: set<nat>)
    requires cur < |nodes| && BasesDone(nodes, cur, |nodes[cur].outEdges|, visited, worklist, found)
    requires Searching(nodes, n, visited, worklist + [cur], found)
    ensures Searching(nodes, n, visited + {cur}, worklist, found)
  {
    forall v: nat, b: nat | v in visited + {cur} && DirectBase(nodes, v, b)
      ensures b in found && (b in visited + {cur} || b in worklist)
    {
      if v == cur {
        var e :| e in nodes[v].outEdges && e.edgeType.Inheritance? && e.dst == b;
        var j: nat :| j < |nodes[v].outEdges| && nodes[v].outEdges[j] == e;
      }
    }
  }

  lemma FoundBase(nodes: seq<CHNode>, n: nat, cur: nat, b: nat)
    requires WellFormed(nodes) && Reaches(Inherits(nodes), n, cur) && DirectBase(nodes, cur, b)
    ensures b < |nodes| && Ancestor(nodes, n, b) && Reaches(Inherits(nodes), n, b)
  {
    ReachesFurther(Inherits(nodes), n, cur, b);
  }

  /** Each pair of an ancestor and a descendant is in both maps, for the first `count` descendants. */
  ghost predicate PairEntered(nodes: seq<CHNode>, anc0: NameToNodes, desc0: NameToNodes,
                              anc: NameToNodes, desc: NameToNodes, count: nat, a: nat, b: nat)
    requires a < |nodes| && b < |nodes|
  {
    && (b in Get(anc, nodes[a].name) <==> b in Get(anc0, nodes[a].name) || (a < count && Ancestor(nodes, a, b)))
    && (a in Get(desc, nodes[b].name) <==> a in Get(desc0, nodes[b].name) || (a < count && Ancestor(nodes, a, b)))
  }

  ghost predicate ClosureEntered(nodes: seq<CHNode>, anc0: NameToNodes, desc0: NameToNodes,
                                 anc: NameToNodes, desc: NameToNodes, count: nat) {
    forall a: nat, b: nat | a < |nodes| && b < |nodes| :: PairEntered(nodes, anc0, desc0, anc, desc, count, a, b)
  }

  lemma OneMoreEntered(nodes: seq<CHNode>, anc0: NameToNodes, desc0: NameToNodes,
                       anc1: NameToNodes, desc1: NameToNodes, anc: NameToNodes, desc: NameToNodes,
                       n: nat, found: set<nat>)
    requires n < |nodes| && ClosureEntered(nodes, anc0, desc0, anc1, desc1, n)
    requires Entered(nodes, anc1, desc1, anc, desc, n, found)
    requires forall b: nat :: b in found <==> Ancestor(nodes, n, b)
    ensures ClosureEntered(nodes, anc0, desc0, anc, desc, n + 1)
  {
    var count := n + 1;
    forall a: nat, b: nat | a < |nodes| && b < |nodes|
      ensures PairEntered(nodes, anc0, desc0, anc, desc, count, a, b)
    {
      assert PairEntered(nodes, anc0, desc0, anc1, desc1, n, a, b);
    }
  }

  /** One inheritance edge from cur to b handled. */
  lemma BaseDone(nodes: seq<CHNode>, n: nat, cur: nat, i: nat, visited: set<nat>, worklist: seq<nat>, found: set<nat>)
    requires WellFormed(nodes) && cur < |nodes| && i < |nodes[cur].outEdges|
    requires BasesDone(nodes, cur, i, visited, worklist, found)
    requires Searching(nodes, n, visited, worklist + [cur], found)
    ensures var e := nodes[cur].outEdges[i];
            && (e.edgeType.Inheritance? ==>
                  && e.dst < |nodes|
                  && BasesDone(nodes, cur, i + 1, visited, Push(worklist, e.dst), found + {e.dst})
                  && Searching(nodes, n, visited, Push(worklist, e.dst) + [cur], found + {e.dst}))
            && (!e.edgeType.Inheritance? ==> BasesDone(nodes, cur, i + 1, visited, worklist, found))
  {
    var e := nodes[cur].outEdges[i];
    assert cur in worklist + [cur];
    if e.edgeType.Inheritance? {
      FoundBase(nodes, n, cur, e.dst);
      var more := Push(worklist, e.dst);
      forall v: nat | v in worklist + [cur] || v in more + [cur]
        ensures v in more + [cur] && (v in worklist + [cur] || v == e.dst)
      {
      }
    }
  }

  /** Entering one pair in both maps. */
  lemma EnterPair(nodes: seq<CHNode>, anc0: NameToNodes, desc0: NameToNodes,
                  anc: NameToNodes, desc: NameToNodes, n: nat, found: set<nat>, b: nat)
    requires WellFormed(nodes) && n < |nodes| && b < |nodes|
    requires Entered(nodes, anc0, desc0, anc, desc, n, found)
    ensures Entered(nodes, anc0, desc0,
                    anc[nodes[n].name := Get(anc, nodes[n].name) + {b}],
                    desc[nodes[b].name := Get(desc, nodes[b].name) + {n}], n, found + {b})
  {
  }
}
