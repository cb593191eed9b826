/** The class hierarchy over canonical DWARF types and its memoised `cha` (svf-llvm/lib/DCHG.cpp). */
module DchgHierarchy {
  import opened DchgTypes
  import opened Reachability

  datatype EdgeKind = Inheritance | Instance | FirstField | StdDef

  /** An incoming edge, stored at its destination; `src` is a node number. */
  datatype DCHEdge = DCHEdge(kind: EdgeKind, src: nat)

  datatype DCHNode = DCHNode(diType: DIType, inEdges: seq<DCHEdge>)

  /** The test with which cha skips edges: nothing but inheritance, first-field and standard-definition
      edges matters, and first-field edges only with the flag on. */
  predicate Followed(e: DCHEdge, firstField: bool) {
    && !(e.kind != Inheritance && e.kind != FirstField && e.kind != StdDef)
    && !(!firstField && e.kind == FirstField)
  }

  // ---------------------------------------------------------------- descendants by paths

  /** m is a child of n: it inherits from n or is a standard definition of it, or, with the flag on, has it
      as its first field. */
  predicate Link(nodes: seq<DCHNode>, firstField: bool, n: nat, m: nat) {
    n < |nodes| &&
    (|| DCHEdge(Inheritance, m) in nodes[n].inEdges
     || DCHEdge(StdDef, m) in nodes[n].inEdges
     || (firstField && DCHEdge(FirstField, m) in nodes[n].inEdges))
  }

  /** The test lets exactly the edges to children through. */
  lemma FollowedEdgesLink(nodes: seq<DCHNode>, firstField: bool, n: nat, m: nat)
    requires n < |nodes|
    ensures Link(nodes, firstField, n, m) <==>
            exists e | e in nodes[n].inEdges :: Followed(e, firstField) && e.src == m
  {
    if e :| e in nodes[n].inEdges && Followed(e, firstField) && e.src == m {
      assert e == DCHEdge(e.kind, m);
    }
  }

  ghost function Links(nodes: seq<DCHNode>, firstField: bool): (nat, nat) -> bool {
    (n: nat, m: nat) => Link(nodes, firstField, n, m)
  }

  /** m is n or one of its direct or indirect children. */
  ghost predicate Descends(nodes: seq<DCHNode>, firstField: bool, n: nat, m: nat) {
    n < |nodes| && Reaches(Links(nodes, firstField), n, m)
  }

  lemma DescendsReflexive(nodes: seq<DCHNode>, firstField: bool, n: nat)
    requires n < |nodes|
    ensures Descends(nodes, firstField, n, n)
  {
    ReachesItself(Links(nodes, firstField), n);
  }

  lemma DescendsBy(nodes: seq<DCHNode>, firstField: bool, n: nat, k: nat, m: nat)
    requires Link(nodes, firstField, n, k) && Descends(nodes, firstField, k, m)
    ensures Descends(nodes, firstField, n, m)
  {
    ReachesBy(Links(nodes, firstField), n, k, m);
  }

  lemma DescendsFirst(nodes: seq<DCHNode>, firstField: bool, n: nat, m: nat) returns (k: nat)
    requires Descends(nodes, firstField, n, m) && n != m && EdgesInRange(nodes)
    ensures Link(nodes, firstField, n, k) && Descends(nodes, firstField, k, m)
  {
    k := ReachesFirst(Links(nodes, firstField), n, m);
  }

  predicate EdgesInRange(nodes: seq<DCHNode>) {
    forall n: nat, e | n < |nodes| && e in nodes[n].inEdges :: e.src < |nodes|
  }

  /** isBase is transitive. */
  lemma DescendsTransitive(nodes: seq<DCHNode>, firstField: bool, a: nat, b: nat, c: nat)
    requires Descends(nodes, firstField, a, b) && Descends(nodes, firstField, b, c)
    ensures Descends(nodes, firstField, a, c)
  {
    ReachesTransitive(Links(nodes, firstField), a, b, c);
  }

  /** The first-field answer contains the plain one. */
  lemma PlainDescendsByFirstFields(nodes: seq<DCHNode>, n: nat, m: nat)
    requires Descends(nodes, false, n, m)
    ensures Descends(nodes, true, n, m)
  {
    ReachesMore(Links(nodes, false), Links(nodes, true), n, m);
  }

  /** No type is its own proper descendant, along the edges cha follows for the flag. */
  ghost predicate Acyclic(nodes: seq<DCHNode>, firstField: bool, rank: nat -> nat) {
    forall n: nat, m: nat | Link(nodes, firstField, n, m) :: rank(m) < rank(n)
  }

  /** What an edge of each kind makes of its two ends. */
  ghost predicate MakesBase(nodes: seq<DCHNode>, base: nat, derived: nat, kind: EdgeKind) {
    match kind
    case Inheritance => Descends(nodes, false, base, derived) && Descends(nodes, true, base, derived)
    case StdDef => Descends(nodes, false, base, derived) && Descends(nodes, true, base, derived)
    case FirstField => Descends(nodes, true, base, derived)
    case Instance => true
  }

  lemma EdgeMakesBase(nodes: seq<DCHNode>, base: nat, derived: nat, kind: EdgeKind)
    requires base < |nodes| && derived < |nodes| && DCHEdge(kind, derived) in nodes[base].inEdges
    ensures MakesBase(nodes, base, derived, kind)
  {
    DescendsReflexive(nodes, false, derived);
    DescendsReflexive(nodes, true, derived);
    if Link(nodes, false, base, derived) {
      DescendsBy(nodes, false, base, derived, derived);
    }
    if Link(nodes, true, base, derived) {
      DescendsBy(nodes, true, base, derived, derived);
    }
  }

  /** Template instances are no children; first fields are none with the flag off. */
  lemma OtherEdgesMakeNoBase(nodes: seq<DCHNode>, firstField: bool, n: nat, m: nat)
    requires n < |nodes|
    requires forall k: nat, e | k < |nodes| && e in nodes[k].inEdges ::
               e.kind == Instance || (e.kind == FirstField && !firstField)
    ensures Descends(nodes, firstField, n, m) <==> n == m
  {
    DescendsReflexive(nodes, firstField, n);
    if Descends(nodes, firstField, n, m) && n != m {
      var k := ReachesFirst(Links(nodes, firstField), n, m);
    }
  }

  // ---------------------------------------------------------------- growing the graph

  lemma GrownStaysAcyclic(nodes: seq<DCHNode>, more: seq<DCHNode>, t: DIType, firstField: bool, rank: nat -> nat)
    requires Acyclic(nodes, firstField, rank) && Grown(nodes, more, t)
    ensures Acyclic(more, firstField, rank)
  {
    forall n: nat, m: nat | Link(more, firstField, n, m) ensures rank(m) < rank(n) {
      assert Link(nodes, firstField, n, m);
    }
  }

  /** A new node has no edges yet, so it changes nothing for the others. */
  lemma NewNodeKeepsDescendants(nodes: seq<DCHNode>, t: DIType, firstField: bool, n: nat, m: nat)
    requires EdgesInRange(nodes) && n < |nodes|
    ensures Descends(nodes + [DCHNode(t, [])], firstField, n, m) <==> Descends(nodes, firstField, n, m)
  {
    var more := nodes + [DCHNode(t, [])];
    forall x: nat, y: nat ensures Link(more, firstField, x, y) <==> Link(nodes, firstField, x, y) {}
    if Descends(nodes, firstField, n, m) {
      ReachesMore(Links(nodes, firstField), Links(more, firstField), n, m);
    }
    if Descends(more, firstField, n, m) {
      ReachesMore(Links(more, firstField), Links(nodes, firstField), n, m);
    }
  }

  function WithEdge(nodes: seq<DCHNode>, dst: nat, e: DCHEdge): seq<DCHNode>
    requires dst < |nodes|
  {
    nodes[dst := DCHNode(nodes[dst].diType, nodes[dst].inEdges + [e])]
  }

  lemma WithEdgeLinks(nodes: seq<DCHNode>, dst: nat, e: DCHEdge, firstField: bool, n: nat, m: nat)
    requires dst < |nodes|
    ensures Link(WithEdge(nodes, dst, e), firstField, n, m) <==>
            Link(nodes, firstField, n, m) || (n == dst && m == e.src && Followed(e, firstField))
  {
    var more := WithEdge(nodes, dst, e);
    if n == dst {
      assert more[n].inEdges == nodes[n].inEdges + [e];
      assert e in more[n].inEdges;
      forall x ensures x in more[n].inEdges <==> x in nodes[n].inEdges || x == e {}
    }
  }

  /** One more edge adds, for those above it, everything below it. */
  lemma DescendantsWithEdge(nodes: seq<DCHNode>, dst: nat, e: DCHEdge, firstField: bool, n: nat, m: nat)
    requires EdgesInRange(nodes) && n < |nodes| && dst < |nodes| && e.src < |nodes| && Followed(e, firstField)
    ensures Descends(WithEdge(nodes, dst, e), firstField, n, m) <==>
            Descends(nodes, firstField, n, m)
            || (Descends(nodes, firstField, n, dst) && Descends(nodes, firstField, e.src, m))
  {
    var more := WithEdge(nodes, dst, e);
    if Descends(more, firstField, n, m) {
      var p :| IsPath(Links(more, firstField), p, n, m);
      PathWithEdge(nodes, dst, e, firstField, p, n, m);
    }
    if Descends(nodes, firstField, n, m) {
      KeptByEdge(nodes, dst, e, firstField, n, m);
    }
    if Descends(nodes, firstField, n, dst) && Descends(nodes, firstField, e.src, m) {
      KeptByEdge(nodes, dst, e, firstField, n, dst);
      KeptByEdge(nodes, dst, e, firstField, e.src, m);
      WithEdgeLinks(nodes, dst, e, firstField, dst, e.src);
      DescendsBy(more, firstField, dst, e.src, m);
      DescendsTransitive(more, firstField, n, dst, m);
    }
  }

  lemma KeptByEdge(nodes: seq<DCHNode>, dst: nat, e: DCHEdge, firstField: bool, n: nat, m: nat)
    requires dst < |nodes| && Descends(nodes, firstField, n, m)
    ensures Descends(WithEdge(nodes, dst, e), firstField, n, m)
  {
    var more := WithEdge(nodes, dst, e);
    forall x: nat, y: nat | Link(nodes, firstField, x, y) ensures Link(more, firstField, x, y) {
      WithEdgeLinks(nodes, dst, e, firstField, x, y);
    }
    ReachesMore(Links(nodes, firstField), Links(more, firstField), n, m);
  }

  lemma {:induction false} PathWithEdge(
      nodes: seq<DCHNode>, dst: nat, e: DCHEdge, firstField: bool, p: seq<nat>, n: nat, m: nat)
    requires EdgesInRange(nodes) && n < |nodes| && dst < |nodes| && e.src < |nodes| && Followed(e, firstField)
    requires IsPath(Links(WithEdge(nodes, dst, e), firstField), p, n, m)
    ensures Descends(nodes, firstField, n, m)
            || (Descends(nodes, firstField, n, dst) && Descends(nodes, firstField, e.src, m))
    decreases |p|
  {
    var more := WithEdge(nodes, dst, e);
    if |p| == 1 {
      DescendsReflexive(nodes, firstField, n);
    } else {
      var k := p[1];
      assert Links(more, firstField)(p[0], p[0 + 1]);
      WithEdgeLinks(nodes, dst, e, firstField, n, k);
      assert IsPath(Links(more, firstField), p[1..], k, m);
      PathWithEdge(nodes, dst, e, firstField, p[1..], k, m);
      if Link(nodes, firstField, n, k) {
        if Descends(nodes, firstField, k, m) {
          DescendsBy(nodes, firstField, n, k, m);
        } else {
          DescendsBy(nodes, firstField, n, k, dst);
        }
      } else {
        DescendsReflexive(nodes, firstField, dst);
      }
    }
  }

  // ---------------------------------------------------------------- the graph and its caches

  /** The entry holds the descendants of n, no more and no less. */
  ghost predicate IsExact(nodes: seq<DCHNode>, firstField: bool, n: nat, entry: set<nat>) {
    forall m: nat :: m in entry <==> Descends(nodes, firstField, n, m)
  }

  /** MAIN RESULT: why the hierarchy has to be complete before the first query: an edge that arrives
      later leaves a cached entry exact if and only if the entry holds everything below the edge
      already, or the edge is not below the entry's type (or is not followed for this flag). */
  lemma EntryStaysExactExactlyWhen(nodes: seq<DCHNode>, dst: nat, e: DCHEdge, firstField: bool, n: nat, entry: set<nat>)
    requires EdgesInRange(nodes) && n < |nodes| && dst < |nodes| && e.src < |nodes|
    requires IsExact(nodes, firstField, n, entry)
    ensures IsExact(WithEdge(nodes, dst, e), firstField, n, entry) <==>
            (!Followed(e, firstField) || dst !in entry || e.src in entry)
  {
    var more := WithEdge(nodes, dst, e);
    if !Followed(e, firstField) {
      forall m: nat ensures Descends(more, firstField, n, m) <==> Descends(nodes, firstField, n, m) {
        UnfollowedEdgeChangesNothing(nodes, dst, e, firstField, n, m);
      }
    } else {
      forall m: nat
        ensures Descends(more, firstField, n, m) <==>
                m in entry || (dst in entry && Descends(nodes, firstField, e.src, m))
      {
        DescendantsWithEdge(nodes, dst, e, firstField, n, m);
      }
      DescendsReflexive(nodes, firstField, e.src);
      if e.src in entry {
        forall m: nat | Descends(nodes, firstField, e.src, m) ensures m in entry {
          DescendsTransitive(nodes, firstField, n, e.src, m);
        }
      }
    }
  }

  lemma UnfollowedEdgeChangesNothing(nodes: seq<DCHNode>, dst: nat, e: DCHEdge, firstField: bool, n: nat, m: nat)
    requires dst < |nodes| && !Followed(e, firstField)
    ensures Descends(WithEdge(nodes, dst, e), firstField, n, m) <==> Descends(nodes, firstField, n, m)
  {
    var more := WithEdge(nodes, dst, e);
    forall x: nat, y: nat ensures Link(more, firstField, x, y) <==> Link(nodes, firstField, x, y) {
      WithEdgeLinks(nodes, dst, e, firstField, x, y);
    }
    if Descends(nodes, firstField, n, m) {
      ReachesMore(Links(nodes, firstField), Links(more, firstField), n, m);
    }
    if Descends(more, firstField, n, m) {
      ReachesMore(Links(more, firstField), Links(nodes, firstField), n, m);
    }
  }

  ghost predicate ExactCache(nodes: seq<DCHNode>, nodeOf: map<DIType, nat>, firstField: bool,
                             cache: map<DIType, set<nat>>) {
    forall t | t in cache :: t in nodeOf && IsExact(nodes, firstField, nodeOf[t], cache[t])
  }

  ghost predicate Numbered(nodes: seq<DCHNode>, nodeOf: map<DIType, nat>) {
    && (forall t | t in nodeOf :: nodeOf[t] < |nodes| && nodes[nodeOf[t]].diType == t)
    && (forall n: nat | n < |nodes| :: nodes[n].diType in nodeOf && nodeOf[nodes[n].diType] == n)
  }

  /** The union of the child sets of the first i edges, each exact. */
  ghost predicate Gathered(nodes: seq<DCHNode>, firstField: bool, n: nat, i: nat, children: set<nat>)
    requires n < |nodes| && i <= |nodes[n].inEdges|
  {
    && n in children
    && (forall m | m in children :: Descends(nodes, firstField, n, m))
    && (forall j: nat, m: nat | j < i && Followed(nodes[n].inEdges[j], firstField)
          && Descends(nodes, firstField, nodes[n].inEdges[j].src, m) :: m in children)
  }

  lemma GatheredAllIsExact(nodes: seq<DCHNode>, firstField: bool, n: nat, children: set<nat>)
    requires EdgesInRange(nodes) && n < |nodes|
    requires Gathered(nodes, firstField, n, |nodes[n].inEdges|, children)
    ensures IsExact(nodes, firstField, n, children)
  {
    forall m: nat | Descends(nodes, firstField, n, m) ensures m in children {
      if m != n {
        var k := DescendsFirst(nodes, firstField, n, m);
        var e :| e in nodes[n].inEdges && Followed(e, firstField) && e.src == k;
        var j: nat :| j < |nodes[n].inEdges| && nodes[n].inEdges[j] == e;
      }
    }
  }

  lemma GatheredMore(nodes: seq<DCHNode>, firstField: bool, n: nat, i: nat, children: set<nat>, more: set<nat>)
    requires n < |nodes| && i < |nodes[n].inEdges|
    requires Gathered(nodes, firstField, n, i, children)
    requires Followed(nodes[n].inEdges[i], firstField) && IsExact(nodes, firstField, nodes[n].inEdges[i].src, more)
    ensures Gathered(nodes, firstField, n, i + 1, children + more)
  {
    var e := nodes[n].inEdges[i];
    assert Link(nodes, firstField, n, e.src);
    forall m | m in more ensures Descends(nodes, firstField, n, m) {
      DescendsBy(nodes, firstField, n, e.src, m);
    }
  }

  /** At most an edgeless node for t has been added. */
  predicate Grown(was: seq<DCHNode>, now: seq<DCHNode>, t: DIType) {
    now == was || now == was + [DCHNode(t, [])]
  }

  /** The old nodes keep their edges, further nodes have none. */
  predicate EdgesOf(was: seq<DCHNode>, now: seq<DCHNode>) {
    |was| <= |now| && forall n: nat | n < |now| :: now[n].inEdges == if n < |was| then was[n].inEdges else []
  }

  /** d has received e, unless it was there; all other edges are the old ones. */
  predicate EdgeAdded(was: seq<DCHNode>, now: seq<DCHNode>, d: nat, e: DCHEdge) {
    && |was| <= |now| && d < |now|
    && forall n: nat | n < |now| ::
         var before := if n < |was| then was[n].inEdges else [];
         now[n].inEdges == if n == d && e !in before then before + [e] else before
  }

  lemma GrownTwice(was: seq<DCHNode>, nodes: seq<DCHNode>, now: seq<DCHNode>, t: DIType, u: DIType)
    requires Grown(was, nodes, t) && Grown(nodes, now, u)
    ensures EdgesOf(was, now)
  {
  }

  lemma WithEdgeKeeps(was: seq<DCHNode>, nodes: seq<DCHNode>, nodeOf: map<DIType, nat>, d: nat, e: DCHEdge)
    requires Numbered(nodes, nodeOf) && EdgesInRange(nodes) && EdgesOf(was, nodes)
    requires d < |nodes| && e.src < |nodes| && e !in nodes[d].inEdges
    ensures Numbered(WithEdge(nodes, d, e), nodeOf) && EdgesInRange(WithEdge(nodes, d, e))
    ensures EdgeAdded(was, WithEdge(nodes, d, e), d, e)
  {
    var now := WithEdge(nodes, d, e);
    forall n: nat | n < |now| ensures now[n].diType == nodes[n].diType {}
    forall n: nat, x | n < |now| && x in now[n].inEdges ensures x.src < |now| {
      assert x in nodes[n].inEdges || x == e;
    }
  }

  /** n is the node of the types equal to t. */
  predicate IsNodeOf(nodes: seq<DCHNode>, t: DIType, n: nat) {
    n < |nodes| && Teq(t, nodes[n].diType)
  }

  class DCHGraph {
    const types: CanonicalTypes
    var nodes: seq<DCHNode>
    var nodeOf: map<DIType, nat>
    var chaMap: map<DIType, set<nat>>
    var chaFFMap: map<DIType, set<nat>>

    ghost predicate ValidNodes()
      reads this
    {
      Numbered(nodes, nodeOf) && EdgesInRange(nodes)
    }

    /** Every entry of both caches is exact, in any order of plain and first-field queries. */
    ghost predicate ValidCaches()
      reads this
    {
      ExactCache(nodes, nodeOf, false, chaMap) && ExactCache(nodes, nodeOf, true, chaFFMap)
    }

    /** Nodes stand for canonical types only. */
    ghost predicate ValidTypes()
      reads this, types
    {
      types.Valid() && nodeOf.Keys <= types.canonicalTypes
    }

    constructor ()
      ensures ValidTypes() && ValidNodes() && ValidCaches()
      ensures fresh(types) && nodes == [] && chaMap == map[] && chaFFMap == map[]
    {
      types := new CanonicalTypes();
      nodes, nodeOf, chaMap, chaFFMap := [], map[], map[], map[];
    }

    // -------------------------------------------------------------- on canonical types

    /** getOrCreateNode, after its argument has been made canonical */
    method NodeOfCanonical(canon: DIType) returns (n: nat)
      requires ValidNodes()
      modifies this`nodes, this`nodeOf
      ensures ValidNodes() && canon in nodeOf && n == nodeOf[canon]
      ensures Grown(old(nodes), nodes, canon)
      ensures nodeOf == old(nodeOf)[canon := n]
      ensures canon in old(nodeOf) ==> nodes == old(nodes) && nodeOf == old(nodeOf)
      ensures old(ValidCaches()) ==> ValidCaches()
    {
      if canon in nodeOf {
        return nodeOf[canon];
      }
      n := |nodes|;
      nodes := nodes + [DCHNode(canon, [])];
      nodeOf := nodeOf[canon := n];
      if old(ValidCaches()) {
        NewNodeKeepsCache(old(nodes), canon, old(nodeOf), nodeOf, false, chaMap);
        NewNodeKeepsCache(old(nodes), canon, old(nodeOf), nodeOf, true, chaFFMap);
      }
    }

    /** cha, after its argument has been made canonical. The types of nodes are canonical, so the
        recursive calls find them unchanged in the map of canonical types. */
    method ChaOfCanonical(canon: DIType, firstField: bool, ghost rank: nat -> nat) returns (children: set<nat>)
      requires ValidNodes() && ValidCaches() && Acyclic(nodes, firstField, rank)
      modifies this
      ensures ValidNodes() && ValidCaches() && Acyclic(nodes, firstField, rank)
      ensures canon in nodeOf && IsExact(nodes, firstField, nodeOf[canon], children)
      ensures Grown(old(nodes), nodes, canon) && nodeOf == old(nodeOf)[canon := nodeOf[canon]]
      ensures canon in old(nodeOf) ==> nodes == old(nodes) && nodeOf == old(nodeOf)
      decreases canon !in nodeOf, if canon in nodeOf then rank(nodeOf[canon]) else 0, 1
    {
      if firstField && canon in chaFFMap {
        return chaFFMap[canon];
      }
      if !firstField && canon in chaMap {
        return chaMap[canon];
      }
      ghost var g := nodes;
      var node := NodeOfCanonical(canon);
      GrownStaysAcyclic(g, nodes, canon, firstField, rank);
      children := ChildrenOf(node, firstField, rank);
      Remember(canon, firstField, children);
    }

    /** Caches one answer. */
    method Remember(canon: DIType, firstField: bool, children: set<nat>)
      requires ValidCaches() && canon in nodeOf && IsExact(nodes, firstField, nodeOf[canon], children)
      modifies this`chaMap, this`chaFFMap
      ensures ValidCaches()
      ensures chaMap == if firstField then old(chaMap) else old(chaMap)[canon := children]
      ensures chaFFMap == if firstField then old(chaFFMap)[canon := children] else old(chaFFMap)
    {
      if firstField {
        chaFFMap := chaFFMap[canon := children];
      } else {
        chaMap := chaMap[canon := children];
      }
    }

    /** The loop of cha over the incoming edges. */
    method ChildrenOf(node: nat, firstField: bool, ghost rank: nat -> nat) returns (children: set<nat>)
      requires ValidNodes() && ValidCaches() && Acyclic(nodes, firstField, rank) && node < |nodes|
      modifies this
      ensures ValidNodes() && ValidCaches() && nodes == old(nodes) && nodeOf == old(nodeOf)
      ensures IsExact(nodes, firstField, node, children)
      decreases false, rank(node), 0
    {
      ghost var g, o := nodes, nodeOf;
      children := {node};
      DescendsReflexive(nodes, firstField, node);
      var i := 0;
      while i < |nodes[node].inEdges|
        invariant ValidNodes() && ValidCaches() && nodes == g && nodeOf == o && i <= |g[node].inEdges|
        invariant Gathered(g, firstField, node, i, children)
      {
        var e := nodes[node].inEdges[i];
        if Followed(e, firstField) {
          var cchildren := ChaOfCanonical(nodes[e.src].diType, firstField, rank);
          GatheredMore(g, firstField, node, i, children, cchildren);
          children := children + cchildren;
        }
        i := i + 1;
      }
      GatheredAllIsExact(nodes, firstField, node, children);
    }

    // -------------------------------------------------------------- on all types

    /** The canonical type of t decides which node is t's. */
    lemma CanonicalNode(t: DIType, canon: DIType)
      requires ValidNodes() && ValidTypes() && canon in types.canonicalTypes && Teq(t, canon)
      ensures forall n: nat :: IsNodeOf(nodes, t, n) <==> canon in nodeOf && n == nodeOf[canon]
    {
      forall n: nat ensures IsNodeOf(nodes, t, n) <==> canon in nodeOf && n == nodeOf[canon] {
        if IsNodeOf(nodes, t, n) {
          RepresentativesDecide(types.canonicalTypes, t, canon, t, nodes[n].diType);
          TeqIsEquivalence(t, t, t);
        }
      }
    }

    /** addEdge: the edge from t1 to t2 is there afterwards, once, and nothing else has changed
        besides the nodes that had to be created. */
    method AddEdge(t1: DIType, t2: DIType, kind: EdgeKind)
      requires ValidNodes() && ValidTypes()
      modifies this`nodes, this`nodeOf, types
      ensures ValidNodes() && ValidTypes()
      ensures exists s: nat, d: nat ::
                && IsNodeOf(nodes, t1, s) && IsNodeOf(nodes, t2, d)
                && EdgeAdded(old(nodes), nodes, d, DCHEdge(kind, s)) && MakesBase(nodes, d, s, kind)
    {
      var c1 := types.GetCanonicalType(t1);
      var c2 := types.GetCanonicalType(t2);
      AddCanonicalEdge(c1, c2, kind);
      EdgeMakesBase(nodes, nodeOf[c2], nodeOf[c1], kind);
      assert IsNodeOf(nodes, t1, nodeOf[c1]) && IsNodeOf(nodes, t2, nodeOf[c2]);
    }

    method AddCanonicalEdge(c1: DIType, c2: DIType, kind: EdgeKind)
      requires ValidNodes()
      modifies this`nodes, this`nodeOf
      ensures ValidNodes() && c1 in nodeOf && c2 in nodeOf
      ensures nodeOf == old(nodeOf)[c1 := nodeOf[c1]][c2 := nodeOf[c2]]
      ensures EdgeAdded(old(nodes), nodes, nodeOf[c2], DCHEdge(kind, nodeOf[c1]))
    {
      var s := NodeOfCanonical(c1);
      ghost var was := nodes;
      var d := NodeOfCanonical(c2);
      GrownTwice(old(nodes), was, nodes, c1, c2);
      assert nodeOf[c1] == s;
      Connect(s, d, kind, old(nodes));
    }

    method Connect(s: nat, d: nat, kind: EdgeKind, ghost was: seq<DCHNode>)
      requires ValidNodes() && s < |nodes| && d < |nodes| && EdgesOf(was, nodes)
      modifies this`nodes
      ensures ValidNodes() && EdgeAdded(was, nodes, d, DCHEdge(kind, s))
    {
      var e := DCHEdge(kind, s);
      if e !in nodes[d].inEdges {
        WithEdgeKeeps(was, nodes, nodeOf, d, e);
        nodes := WithEdge(nodes, d, e);
      }
    }

    /** getCanonicalType, with what it says about the nodes. */
    method Canonical(t: DIType) returns (canon: DIType)
      requires ValidNodes() && ValidTypes()
      modifies types
      ensures ValidTypes() && IsCanonical(t, canon)
      ensures forall n: nat :: IsNodeOf(nodes, t, n) <==> canon in nodeOf && n == nodeOf[canon]
      ensures forall u, c :: old(IsCanonical(u, c)) ==> IsCanonical(u, c)
    {
      canon := types.GetCanonicalType(t);
      CanonicalNode(t, canon);
    }

    ghost predicate IsCanonical(t: DIType, canon: DIType)
      reads this, types
    {
      canon in types.canonicalTypes && Teq(t, canon)
    }

    /** cha: the numbers of all types below t, t included. */
    method Cha(t: DIType, firstField: bool, ghost rank: nat -> nat) returns (children: set<nat>, ghost canon: DIType)
      requires ValidNodes() && ValidCaches() && ValidTypes() && Acyclic(nodes, firstField, rank)
      modifies this, types
      ensures ValidNodes() && ValidCaches() && ValidTypes() && Acyclic(nodes, firstField, rank)
      ensures IsCanonical(t, canon) && canon in nodeOf && IsExact(nodes, firstField, nodeOf[canon], children)
      ensures Grown(old(nodes), nodes, canon)
    {
      var c := types.GetCanonicalType(t);
      canon := c;
      children := ChaOfCanonical(c, firstField, rank);
    }

    /** isBase: MAIN RESULT: after any queries, the answer is plain reachability between the nodes. */
    method IsBase(a: DIType, b: DIType, firstField: bool, ghost rank: nat -> nat) returns (base: bool)
      requires ValidNodes() && ValidCaches() && ValidTypes() && Acyclic(nodes, firstField, rank)
      requires (exists n: nat :: IsNodeOf(nodes, a, n)) && (exists n: nat :: IsNodeOf(nodes, b, n))
      modifies this, types
      ensures ValidNodes() && ValidCaches() && ValidTypes() && nodes == old(nodes)
      ensures forall na: nat, nb: nat | IsNodeOf(nodes, a, na) && IsNodeOf(nodes, b, nb) ::
                base <==> Descends(nodes, firstField, na, nb)
    {
      var ca := Canonical(a);
      var cb := Canonical(b);
      base := IsBaseCanonical(ca, cb, firstField, rank);
    }

    method IsBaseCanonical(ca: DIType, cb: DIType, firstField: bool, ghost rank: nat -> nat) returns (base: bool)
      requires ValidNodes() && ValidCaches() && Acyclic(nodes, firstField, rank) && ca in nodeOf && cb in nodeOf
      modifies this
      ensures ValidNodes() && ValidCaches() && nodes == old(nodes) && nodeOf == old(nodeOf)
      ensures base <==> Descends(nodes, firstField, nodeOf[ca], nodeOf[cb])
    {
      var bNode := nodeOf[cb];
      var aChildren := ChaOfCanonical(ca, firstField, rank);
      base := bNode in aChildren;
    }
  }

  lemma NewNodeKeepsCache(nodes: seq<DCHNode>, t: DIType, was: map<DIType, nat>, now: map<DIType, nat>,
                          firstField: bool, cache: map<DIType, set<nat>>)
    requires EdgesInRange(nodes) && Numbered(nodes, was) && ExactCache(nodes, was, firstField, cache)
    requires forall u | u in was :: u in now && now[u] == was[u]
    ensures ExactCache(nodes + [DCHNode(t, [])], now, firstField, cache)
  {
    var more := nodes + [DCHNode(t, [])];
    forall u | u in cache ensures IsExact(more, firstField, now[u], cache[u]) {
      forall m: nat ensures m in cache[u] <==> Descends(more, firstField, now[u], m) {
        NewNodeKeepsDescendants(nodes, t, firstField, now[u], m);
      }
    }
  }
}
