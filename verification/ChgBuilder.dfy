/** The class hierarchy graph while it is built: the passes of svf-llvm/lib/CHGBuilder.cpp that fill its maps. */
module ChgBuilder {
  import opened ChgClosure
  import opened ChgVirtualIds
  import opened Reachability

  class CHGraph {
    const nodes: seq<CHNode>
    var classNameToAncestorsMap: NameToNodes
    var classNameToDescendantsMap: NameToNodes
    var vfID: nat
    var virtualFunctionToIDMap: map<SVFFunction, nat>
    /** All functions in the order in which they got a number, and the group each was numbered for. */
    ghost var numbered: seq<SVFFunction>
    ghost var owner: seq<nat>

    ghost predicate Valid()
      reads this
    {
      vfID == |numbered| && IsNumbering(numbered, virtualFunctionToIDMap)
    }

    constructor (nodes: seq<CHNode>)
      ensures this.nodes == nodes && classNameToAncestorsMap == map[] && classNameToDescendantsMap == map[]
      ensures Valid() && numbered == [] && owner == []
    {
      this.nodes := nodes;
      classNameToAncestorsMap, classNameToDescendantsMap := map[], map[];
      vfID, virtualFunctionToIDMap := 0, map[];
      numbered, owner := [], [];
    }

    /** MAIN RESULT (buildClassNameToAncestorsDescendantsMap): on any graph, cyclic or not, the ancestors
        entered for a class are the classes one or more inheritance edges above it, and the descendants
        are the inverse. */
    method BuildClassNameToAncestorsDescendantsMap()
      requires WellFormed(nodes)
      modifies this`classNameToAncestorsMap, this`classNameToDescendantsMap
      ensures ClosureEntered(nodes, old(classNameToAncestorsMap), old(classNameToDescendantsMap),
                             classNameToAncestorsMap, classNameToDescendantsMap, |nodes|)
    {
      var n: nat := 0;
      while n < |nodes|
        invariant n <= |nodes|
        invariant ClosureEntered(nodes, old(classNameToAncestorsMap), old(classNameToDescendantsMap),
                                 classNameToAncestorsMap, classNameToDescendantsMap, n)
      {
        EnterClass(n, old(classNameToAncestorsMap), old(classNameToDescendantsMap));
        n := n + 1;
      }
    }

    /** One class more. */
    method EnterClass(n: nat, ghost anc0: NameToNodes, ghost desc0: NameToNodes)
      requires WellFormed(nodes) && n < |nodes|
      requires ClosureEntered(nodes, anc0, desc0, classNameToAncestorsMap, classNameToDescendantsMap, n)
      modifies this`classNameToAncestorsMap, this`classNameToDescendantsMap
      ensures ClosureEntered(nodes, anc0, desc0, classNameToAncestorsMap, classNameToDescendantsMap, n + 1)
    {
      ghost var found := AncestorsOf(n);
      OneMoreEntered(nodes, anc0, desc0, old(classNameToAncestorsMap), old(classNameToDescendantsMap),
                     classNameToAncestorsMap, classNameToDescendantsMap, n, found);
    }

    /** The search from one class. */
    method AncestorsOf(n: nat) returns (ghost found: set<nat>)
      requires WellFormed(nodes) && n < |nodes|
      modifies this`classNameToAncestorsMap, this`classNameToDescendantsMap
      ensures forall b: nat :: b in found <==> Ancestor(nodes, n, b)
      ensures Entered(nodes, old(classNameToAncestorsMap), old(classNameToDescendantsMap),
                      classNameToAncestorsMap, classNameToDescendantsMap, n, found)
    {
      var worklist: seq<nat>, visitedNodes: set<nat> := [n], {};
      found := {};
      ReachesItself(Inherits(nodes), n);
      ghost var all := Ids(|nodes|);
      while worklist != []
        invariant Searching(nodes, n, visitedNodes, worklist, found)
        invariant Entered(nodes, old(classNameToAncestorsMap), old(classNameToDescendantsMap),
                          classNameToAncestorsMap, classNameToDescendantsMap, n, found)
        decreases all - visitedNodes, |worklist|
      {
        var curnode := worklist[0];
        Rotated(nodes, n, visitedNodes, worklist, found);
        worklist := worklist[1..];
        if curnode !in visitedNodes {
          worklist, found := EnterBases(n, curnode, visitedNodes, worklist, found,
                                        old(classNameToAncestorsMap), old(classNameToDescendantsMap));
          VisitDone(nodes, n, curnode, visitedNodes, worklist, found);
          visitedNodes := visitedNodes + {curnode};
        }
      }
      SearchIsComplete(nodes, n, visitedNodes, found);
    }

    /** One base, entered in both maps. */
    method EnterBase(n: nat, succnode: nat, ghost found: set<nat>, ghost anc0: NameToNodes, ghost desc0: NameToNodes)
      requires WellFormed(nodes) && n < |nodes| && succnode < |nodes|
      requires Entered(nodes, anc0, desc0, classNameToAncestorsMap, classNameToDescendantsMap, n, found)
      modifies this`classNameToAncestorsMap, this`classNameToDescendantsMap
      ensures Entered(nodes, anc0, desc0, classNameToAncestorsMap, classNameToDescendantsMap, n, found + {succnode})
    {
      EnterPair(nodes, anc0, desc0, classNameToAncestorsMap, classNameToDescendantsMap, n, found, succnode);
      classNameToAncestorsMap := classNameToAncestorsMap[
        nodes[n].name := Get(classNameToAncestorsMap, nodes[n].name) + {succnode}];
      classNameToDescendantsMap := classNameToDescendantsMap[
        nodes[succnode].name := Get(classNameToDescendantsMap, nodes[succnode].name) + {n}];
    }

    /** The loop over the outgoing edges of one class. */
    method EnterBases(n: nat, curnode: nat, visited: set<nat>, worklist0: seq<nat>, ghost found0: set<nat>,
                      ghost anc0: NameToNodes, ghost desc0: NameToNodes)
      returns (worklist: seq<nat>, ghost found: set<nat>)
      requires WellFormed(nodes) && n < |nodes| && curnode < |nodes|
      requires Searching(nodes, n, visited, worklist0 + [curnode], found0)
      requires Entered(nodes, anc0, desc0, classNameToAncestorsMap, classNameToDescendantsMap, n, found0)
      modifies this`classNameToAncestorsMap, this`classNameToDescendantsMap
      ensures BasesDone(nodes, curnode, |nodes[curnode].outEdges|, visited, worklist, found)
      ensures Searching(nodes, n, visited, worklist + [curnode], found)
      ensures Entered(nodes, anc0, desc0, classNameToAncestorsMap, classNameToDescendantsMap, n, found)
    {
      worklist, found := worklist0, found0;
      var i: nat := 0;
      while i < |nodes[curnode].outEdges|
        invariant i <= |nodes[curnode].outEdges|
        invariant BasesDone(nodes, curnode, i, visited, worklist, found)
        invariant Searching(nodes, n, visited, worklist + [curnode], found)
        invariant Entered(nodes, anc0, desc0, classNameToAncestorsMap, classNameToDescendantsMap, n, found)
      {
        var e := nodes[curnode].outEdges[i];
        BaseDone(nodes, n, curnode, i, visited, worklist, found);
        if e.edgeType.Inheritance? {
          var succnode := e.dst;
          EnterBase(n, succnode, found, anc0, desc0);
          found := found + {succnode};
          worklist := Push(worklist, succnode);
        }
        i := i + 1;
      }
    }

    /** buildVirtualFunctionToIDMap: every group ends up as one block of IDs. */
    method BuildVirtualFunctionToIDMap()
      requires WellFormed(nodes) && Valid() && numbered == [] && owner == []
      modifies this`vfID, this`virtualFunctionToIDMap, this`numbered, this`owner
      ensures Valid() && Laid(nodes, Ids(|nodes|), numbered, owner) && InOrder(nodes, owner)
      ensures forall f :: f in virtualFunctionToIDMap <==> exists n: nat :: HasFunction(nodes, n, f)
    {
      NumberGroups();
      AllNumbered(nodes, numbered, owner, virtualFunctionToIDMap);
    }

    /** The loop over all classes. */
    method NumberGroups()
      requires WellFormed(nodes) && Valid() && numbered == [] && owner == []
      modifies this`vfID, this`virtualFunctionToIDMap, this`numbered, this`owner
      ensures Valid() && Laid(nodes, Ids(|nodes|), numbered, owner) && InOrder(nodes, owner)
    {
      var visitedNodes: set<nat> := {};
      ghost var all := Ids(|nodes|);
      var node: nat := 0;
      while node < |nodes|
        invariant node <= |nodes| && visitedNodes <= all && forall k: nat | k < node :: k in visitedNodes
        invariant Valid() && Laid(nodes, visitedNodes, numbered, owner)
        invariant Closed(Adjacent(nodes), visitedNodes)
        invariant InOrder(nodes, owner) && forall i: nat | i < |owner| :: owner[i] < node
      {
        if node !in visitedNodes {
          FirstUnvisitedLeads(nodes, visitedNodes, node);
          ghost var before := owner;
          visitedNodes := NumberGroup(node, visitedNodes);
          OrderExtended(nodes, before, owner, node);
        }
        node := node + 1;
      }
      assert visitedNodes == all;
    }

    /** The three steps for one group. */
    method NumberGroup(node: nat, visited0: set<nat>) returns (visitedNodes: set<nat>)
      requires WellFormed(nodes) && node < |nodes| && node !in visited0 && visited0 <= Ids(|nodes|)
      requires Valid() && Laid(nodes, visited0, numbered, owner) && Closed(Adjacent(nodes), visited0)
      modifies this`vfID, this`virtualFunctionToIDMap, this`numbered, this`owner
      ensures visited0 + {node} <= visitedNodes <= Ids(|nodes|)
      ensures Valid() && Laid(nodes, visitedNodes, numbered, owner) && Closed(Adjacent(nodes), visitedNodes)
      ensures old(owner) <= owner && forall i: nat | |old(owner)| <= i < |owner| :: owner[i] == node
    {
      var group;
      group, visitedNodes := GroupOf(node, visited0);
      ReachesItself(Adjacent(nodes), node);
      var virtualFunctions := FunctionsOf(group);
      NumberFunctions(virtualFunctions, node);
      BlockAdded(nodes, visited0, group, node, old(numbered), old(owner), numbered, owner, virtualFunctions);
    }

    /** Step 1: the depth-first search for all classes of a group. */
    method GroupOf(node: nat, visited0: set<nat>) returns (group: set<nat>, visitedNodes: set<nat>)
      requires WellFormed(nodes) && node < |nodes| && node !in visited0 && Closed(Adjacent(nodes), visited0)
      ensures forall m: nat :: m in group <==> Connected(nodes, node, m)
      ensures visitedNodes == visited0 + group && Closed(Adjacent(nodes), visitedNodes)
      ensures group <= Ids(|nodes|)
    {
      visitedNodes, group := visited0, {};
      var nodeStack := [node];
      ReachesItself(Adjacent(nodes), node);
      while nodeStack != []
        invariant Grouping(nodes, node, visited0, visitedNodes, nodeStack, group)
        decreases Ids(|nodes|) - visitedNodes, |nodeStack|
      {
        var curnode := nodeStack[|nodeStack| - 1];
        ghost var stack0 := nodeStack;
        nodeStack := nodeStack[..|nodeStack| - 1];
        assert stack0 == nodeStack + [curnode];
        group := group + {curnode};
        if curnode !in visitedNodes {
          ghost var popped := nodeStack;
          nodeStack, group := PushNeighbours(curnode, nodeStack, group);
          NeighboursPushed(nodes, node, visited0, visitedNodes, popped, nodeStack, curnode, group);
          visitedNodes := visitedNodes + {curnode};
        }
      }
      GroupIsComponent(nodes, node, visited0, visitedNodes, group);
    }

    method PushNeighbours(curnode: nat, stack0: seq<nat>, group0: set<nat>)
      returns (nodeStack: seq<nat>, group: set<nat>)
      requires WellFormed(nodes) && curnode < |nodes|
      ensures forall x: nat :: x in nodeStack <==> x in stack0 || Neighbours(nodes, curnode, x)
      ensures forall x: nat :: x in group <==> x in group0 || Neighbours(nodes, curnode, x)
    {
      nodeStack, group := PushSuccessors(nodes[curnode].outEdges, stack0, group0);
      nodeStack, group := PushPredecessors(nodes[curnode].inEdges, nodeStack, group);
    }

    static method PushSuccessors(edges: seq<CHEdge>, stack0: seq<nat>, group0: set<nat>)
      returns (nodeStack: seq<nat>, group: set<nat>)
      ensures forall x: nat :: x in nodeStack <==> x in stack0 || exists e | e in edges :: e.dst == x
      ensures forall x: nat :: x in group <==> x in group0 || exists e | e in edges :: e.dst == x
    {
      nodeStack, group := stack0, group0;
      for i := 0 to |edges|
        invariant forall x: nat :: x in nodeStack <==> x in stack0 || exists k: nat | k < i :: edges[k].dst == x
        invariant forall x: nat :: x in group <==> x in group0 || exists k: nat | k < i :: edges[k].dst == x
      {
        var tmpnode := edges[i].dst;
        nodeStack := nodeStack + [tmpnode];
        group := group + {tmpnode};
      }
    }

    static method PushPredecessors(edges: seq<CHEdge>, stack0: seq<nat>, group0: set<nat>)
      returns (nodeStack: seq<nat>, group: set<nat>)
      ensures forall x: nat :: x in nodeStack <==> x in stack0 || exists e | e in edges :: e.src == x
      ensures forall x: nat :: x in group <==> x in group0 || exists e | e in edges :: e.src == x
    {
      nodeStack, group := stack0, group0;
      for i := 0 to |edges|
        invariant forall x: nat :: x in nodeStack <==> x in stack0 || exists k: nat | k < i :: edges[k].src == x
        invariant forall x: nat :: x in group <==> x in group0 || exists k: nat | k < i :: edges[k].src == x
      {
        var tmpnode := edges[i].src;
        nodeStack := nodeStack + [tmpnode];
        group := group + {tmpnode};
      }
    }

    /** Step 2: all virtual functions of a group. */
    method FunctionsOf(group: set<nat>) returns (virtualFunctions: set<SVFFunction>)
      requires group <= Ids(|nodes|)
      ensures forall f :: f in virtualFunctions <==> exists n | n in group :: HasFunction(nodes, n, f)
    {
      virtualFunctions := {};
      var rest := group;
      while rest != {}
        invariant rest <= group
        invariant forall f :: f in virtualFunctions <==> exists n | n in group - rest :: HasFunction(nodes, n, f)
        decreases rest
      {
        var n :| n in rest;
        ghost var was, todo := virtualFunctions, rest;
        for i := 0 to |nodes[n].virtualFunctionVectors|
          invariant forall f :: f in virtualFunctions <==>
                      f in was || exists k: nat | k < i :: f in nodes[n].virtualFunctionVectors[k]
        {
          var vec := nodes[n].virtualFunctionVectors[i];
          ghost var before := virtualFunctions;
          for j := 0 to |vec|
            invariant forall f :: f in virtualFunctions <==> f in before || exists k: nat | k < j :: vec[k] == f
          {
            virtualFunctions := virtualFunctions + {vec[j]};
          }
        }
        rest := rest - {n};
        assert group - rest == (group - todo) + {n};
      }
    }

    /** Step 3: consecutive IDs in the order of names. */
    method NumberFunctions(virtualFunctions: set<SVFFunction>, ghost n: nat)
      requires Valid()
      modifies this`vfID, this`virtualFunctionToIDMap, this`numbered, this`owner
      ensures Valid() && Appended(old(numbered), old(owner), numbered, owner, n, virtualFunctions)
    {
      var fNameSet := virtualFunctions;
      while fNameSet != {}
        invariant Valid() && fNameSet <= virtualFunctions
        invariant Appended(old(numbered), old(owner), numbered, owner, n, virtualFunctions - fNameSet)
        invariant forall i: nat, g | |old(numbered)| <= i < |numbered| && g in fNameSet :: Before(numbered[i], g)
        decreases fNameSet
      {
        LeastExists(fNameSet);
        var f :| IsLeast(fNameSet, f);
        AppendedOne(old(numbered), old(owner), numbered, owner, n, virtualFunctions, fNameSet, f);
        NumberedOne(numbered, virtualFunctionToIDMap, f);
        virtualFunctionToIDMap := virtualFunctionToIDMap[f := vfID];
        vfID := vfID + 1;
        numbered := numbered + [f];
        owner := owner + [n];
        fNameSet := fNameSet - {f};
      }
      assert virtualFunctions - fNameSet == virtualFunctions;
    }
  }

  /** The numbers the two classes of SHARING end up with. */
  method NumberSharing() returns (chg: CHGraph)
    ensures chg.nodes == SHARING && chg.virtualFunctionToIDMap == SHARED_IDS
  {
    SharingIsWellFormed();
    chg := new CHGraph(SHARING);
    chg.BuildVirtualFunctionToIDMap();
    SharedFunctionsBreakRuns(chg.numbered, chg.owner, chg.virtualFunctionToIDMap);
  }
}
