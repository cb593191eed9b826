/** Numbering of virtual functions, group by group (svf-llvm/lib/CHGBuilder.cpp). */
module ChgVirtualIds {
  import opened ChgClosure
  import opened Reachability

  // ---------------------------------------------------------------- groups

  predicate Neighbours(nodes: seq<CHNode>, a: nat, b: nat) {
    a < |nodes| && b < |nodes| &&
    ((exists e | e in nodes[a].outEdges :: e.dst == b) || (exists e | e in nodes[a].inEdges :: e.src == b))
  }

  ghost function Adjacent(nodes: seq<CHNode>): (nat, nat) -> bool {
    (a: nat, b: nat) => Neighbours(nodes, a, b)
  }

  /** Weakly connected: along edges of either kind, in either direction. */
  ghost predicate Connected(nodes: seq<CHNode>, a: nat, b: nat) {
    Reaches(Adjacent(nodes), a, b)
  }

  lemma AdjacentIsSymmetric(nodes: seq<CHNode>)
    requires WellFormed(nodes)
    ensures Symmetric(Adjacent(nodes))
  {
    forall a: nat, b: nat | Neighbours(nodes, a, b) ensures Neighbours(nodes, b, a) {
      if e :| e in nodes[a].outEdges && e.dst == b {
        assert e in nodes[b].inEdges && e.src == a;
      } else {
        var e :| e in nodes[a].inEdges && e.src == b;
        assert e in nodes[b].outEdges && e.dst == a;
      }
    }
  }

  /** The group of a class and the group of any of its members are the same. */
  lemma ConnectedIsEquivalence(nodes: seq<CHNode>, a: nat, b: nat, c: nat)
    requires WellFormed(nodes)
    ensures Connected(nodes, a, a)
    ensures Connected(nodes, a, b) ==> Connected(nodes, b, a)
    ensures Connected(nodes, a, b) && Connected(nodes, b, c) ==> Connected(nodes, a, c)
  {
    AdjacentIsSymmetric(nodes);
    ReachesItself(Adjacent(nodes), a);
    if Connected(nodes, a, b) {
      ReachesBack(Adjacent(nodes), a, b);
      if Connected(nodes, b, c) {
        ReachesTransitive(Adjacent(nodes), a, b, c);
      }
    }
  }

  /** While the group of `node` is gathered. */
  ghost predicate Grouping(nodes: seq<CHNode>, node: nat, visited0: set<nat>, visited: set<nat>,
                           stack: seq<nat>, group: set<nat>) {
    && visited0 <= visited && visited - visited0 <= group
    && (node in visited || node in stack)
    && (forall v: nat | v in group || v in stack :: v < |nodes| && Connected(nodes, node, v))
    && (forall v: nat, w: nat | v in visited - visited0 && Neighbours(nodes, v, w) :: w in visited || w in stack)
  }

  lemma GroupIsComponent(nodes: seq<CHNode>, node: nat, visited0: set<nat>, visited: set<nat>, group: set<nat>)
    requires WellFormed(nodes) && Closed(Adjacent(nodes), visited0) && node !in visited0
    requires Grouping(nodes, node, visited0, visited, [], group)
    ensures forall m: nat :: m in group <==> Connected(nodes, node, m)
    ensures visited == visited0 + group && Closed(Adjacent(nodes), visited)
  {
    assert Closed(Adjacent(nodes), visited);
    AdjacentIsSymmetric(nodes);
    forall m: nat | Connected(nodes, node, m) ensures m in visited - visited0 {
      ClosedHoldsReachable(Adjacent(nodes), visited, node, m);
      if m in visited0 {
        ReachesBack(Adjacent(nodes), node, m);
        ClosedHoldsReachable(Adjacent(nodes), visited0, m, node);
      }
    }
  }

  // ---------------------------------------------------------------- the order of the numbers

  /** std::string comparison. */
  predicate Less(a: string, b: string) {
    b != [] && (a == [] || a[0] < b[0] || (a[0] == b[0] && Less(a[1..], b[1..])))
  }

  lemma {:induction false} LessIsTotal(a: string, b: string)
    ensures (a == b && !Less(a, b)) || (a != b && (Less(a, b) <==> !Less(b, a)))
  {
    if a != [] && b != [] && a[0] == b[0] {
      LessIsTotal(a[1..], b[1..]);
      assert a == [a[0]] + a[1..] && b == [b[0]] + b[1..];
    }
  }

  lemma {:induction false} LessIsTransitive(a: string, b: string, c: string)
    requires Less(a, b) && Less(b, c)
    ensures Less(a, c)
  {
    if a != [] && a[0] == b[0] && b[0] == c[0] {
      LessIsTransitive(a[1..], b[1..], c[1..]);
    }
  }

  /** Order of the pairs (demangled name, function) in a std::set. */
  predicate Before(f: SVFFunction, g: SVFFunction) {
    Less(f.funcName, g.funcName) || (f.funcName == g.funcName && f.addr < g.addr)
  }

  lemma BeforeIsTotalOrder(f: SVFFunction, g: SVFFunction, h: SVFFunction)
    ensures f == g || Before(f, g) || Before(g, f)
    ensures !(Before(f, g) && Before(g, f))
    ensures Before(f, g) && Before(g, h) ==> Before(f, h)
  {
    LessIsTotal(f.funcName, g.funcName);
    if Less(f.funcName, g.funcName) && Less(g.funcName, h.funcName) {
      LessIsTransitive(f.funcName, g.funcName, h.funcName);
    }
  }

  predicate IsLeast(s: set<SVFFunction>, f: SVFFunction) {
    f in s && forall g | g in s :: g == f || Before(f, g)
  }

  lemma {:induction false} LeastExists(s: set<SVFFunction>)
    requires s != {}
    ensures exists f :: IsLeast(s, f)
    decreases |s|
  {
    var f :| f in s;
    if s == {f} {
      assert IsLeast(s, f);
    } else {
      LeastExists(s - {f});
      var g :| IsLeast(s - {f}, g);
      BeforeIsTotalOrder(f, g, f);
      if Before(f, g) {
        forall h | h in s ensures h == f || Before(f, h) {
          BeforeIsTotalOrder(f, g, h);
        }
        assert IsLeast(s, f);
      } else {
        assert IsLeast(s, g);
      }
    }
  }

  // ---------------------------------------------------------------- what the numbers mean

  /** The ID of a function is the position at which it was numbered last. */
  ghost predicate IsNumbering(numbered: seq<SVFFunction>, ids: map<SVFFunction, nat>) {
    && (forall f :: f in ids <==> f in numbered)
    && (forall f | f in ids :: ids[f] < |numbered| && numbered[ids[f]] == f)
    && (forall i: nat | i < |numbered| :: i <= ids[numbered[i]])
  }

  predicate HasFunction(nodes: seq<CHNode>, n: nat, f: SVFFunction) {
    n < |nodes| && exists vec | vec in nodes[n].virtualFunctionVectors :: f in vec
  }

  /** f is a virtual function of some class in the group of n. */
  ghost predicate InGroup(nodes: seq<CHNode>, n: nat, f: SVFFunction) {
    exists m: nat :: Connected(nodes, n, m) && HasFunction(nodes, m, f)
  }

  /** Positions lo to hi - 1, and only they, were filled for the group of n: with exactly its functions,
      in strictly increasing order. `owner[i]` is the class whose group position i belongs to. */
  ghost predicate Block(nodes: seq<CHNode>, numbered: seq<SVFFunction>, owner: seq<nat>, n: nat, lo: nat, hi: nat) {
    && |owner| == |numbered| && lo <= hi <= |numbered|
    && (forall i: nat | i < |numbered| :: lo <= i < hi <==> Connected(nodes, n, owner[i]))
    && (forall i: nat | lo <= i < hi :: InGroup(nodes, n, numbered[i]))
    && (forall f | InGroup(nodes, n, f) :: exists i: nat | lo <= i < hi :: numbered[i] == f)
    && (forall i: nat, j: nat | lo <= i < j < hi :: Before(numbered[i], numbered[j]))
  }

  ghost predicate Laid(nodes: seq<CHNode>, visited: set<nat>, numbered: seq<SVFFunction>, owner: seq<nat>) {
    && |owner| == |numbered|
    && (forall i: nat | i < |numbered| :: owner[i] in visited && InGroup(nodes, owner[i], numbered[i]))
    && (forall n: nat | n in visited :: exists lo: nat, hi: nat :: Block(nodes, numbered, owner, n, lo, hi))
  }

  /** n comes first in its group. */
  ghost predicate Leads(nodes: seq<CHNode>, n: nat) {
    forall m: nat | Connected(nodes, n, m) :: n <= m
  }

  /** Groups are numbered in the order of their first classes. */
  ghost predicate InOrder(nodes: seq<CHNode>, owner: seq<nat>) {
    && (forall i: nat | i < |owner| :: Leads(nodes, owner[i]))
    && (forall i: nat, j: nat | i <= j < |owner| :: owner[i] <= owner[j])
  }

  /** Some class of the group of n comes before all classes of the group of m. */
  ghost predicate LaterGroup(nodes: seq<CHNode>, n: nat, m: nat) {
    exists a: nat :: Connected(nodes, n, a) && forall k: nat | Connected(nodes, m, k) :: a < k
  }

  /** f is in a class of a group that comes after that of n. */
  ghost predicate SharedLater(nodes: seq<CHNode>, n: nat, f: SVFFunction) {
    exists m: nat :: HasFunction(nodes, m, f) && LaterGroup(nodes, n, m)
  }

  /** MAIN RESULT: a function keeps the ID it got for its group if and only if no later group has it. */
  lemma KeepsIdExactlyWhen(nodes: seq<CHNode>, numbered: seq<SVFFunction>, owner: seq<nat>,
                   ids: map<SVFFunction, nat>, n: nat, f: SVFFunction, lo: nat, hi: nat)
    requires WellFormed(nodes) && Laid(nodes, Ids(|nodes|), numbered, owner) && InOrder(nodes, owner)
    requires IsNumbering(numbered, ids) && Block(nodes, numbered, owner, n, lo, hi) && InGroup(nodes, n, f)
    ensures f in ids && numbered[ids[f]] == f
    ensures lo <= ids[f] < hi <==> !SharedLater(nodes, n, f)
  {
    var i: nat :| lo <= i < hi && numbered[i] == f;
    if !(lo <= ids[f] < hi) {
      NumberedLater(nodes, numbered, owner, ids, n, f, lo, hi, i);
    }
    if SharedLater(nodes, n, f) {
      var m: nat :| HasFunction(nodes, m, f) && LaterGroup(nodes, n, m);
      RenumberedFor(nodes, numbered, owner, ids, n, f, lo, hi, m);
    }
  }

  /** A function whose ID lies outside the block was numbered again, for a later group. */
  lemma NumberedLater(nodes: seq<CHNode>, numbered: seq<SVFFunction>, owner: seq<nat>,
                   ids: map<SVFFunction, nat>, n: nat, f: SVFFunction, lo: nat, hi: nat, i: nat)
    requires WellFormed(nodes) && Laid(nodes, Ids(|nodes|), numbered, owner) && InOrder(nodes, owner)
    requires IsNumbering(numbered, ids) && Block(nodes, numbered, owner, n, lo, hi)
    requires lo <= i < hi && numbered[i] == f && !(lo <= ids[f] < hi)
    ensures SharedLater(nodes, n, f)
  {
    var j := ids[f];
    assert i <= ids[numbered[i]] == j;
    var m: nat :| Connected(nodes, owner[j], m) && HasFunction(nodes, m, f);
    forall k: nat | Connected(nodes, m, k) ensures owner[i] < k {
      ConnectedIsEquivalence(nodes, owner[j], m, k);
      assert owner[i] <= owner[j] && owner[i] != owner[j];
    }
    assert LaterGroup(nodes, n, m);
  }

  lemma PlaceInBlock(nodes: seq<CHNode>, numbered: seq<SVFFunction>, owner: seq<nat>, m: nat, f: SVFFunction)
    returns (i: nat)
    requires WellFormed(nodes) && Laid(nodes, Ids(|nodes|), numbered, owner) && m < |nodes| && InGroup(nodes, m, f)
    ensures i < |numbered| == |owner| && numbered[i] == f && Connected(nodes, m, owner[i])
  {
    assert m in Ids(|nodes|);
    var lo: nat, hi: nat :| Block(nodes, numbered, owner, m, lo, hi);
    i :| lo <= i < hi && numbered[i] == f;
  }

  /** Every group with f has numbered it, no later than it got its ID. */
  lemma NumberedFor(nodes: seq<CHNode>, numbered: seq<SVFFunction>, owner: seq<nat>,
                   ids: map<SVFFunction, nat>, m: nat, f: SVFFunction) returns (i: nat)
    requires WellFormed(nodes) && Laid(nodes, Ids(|nodes|), numbered, owner) && IsNumbering(numbered, ids)
    requires HasFunction(nodes, m, f)
    ensures f in ids && i <= ids[f] < |owner| && Connected(nodes, m, owner[i])
  {
    ReachesItself(Adjacent(nodes), m);
    assert InGroup(nodes, m, f);
    i := PlaceInBlock(nodes, numbered, owner, m, f);
    assert i <= ids[numbered[i]];
  }

  /** The block of a later group lies behind. */
  lemma RenumberedFor(nodes: seq<CHNode>, numbered: seq<SVFFunction>, owner: seq<nat>,
                   ids: map<SVFFunction, nat>, n: nat, f: SVFFunction, lo: nat, hi: nat, m: nat)
    requires WellFormed(nodes) && Laid(nodes, Ids(|nodes|), numbered, owner) && InOrder(nodes, owner)
    requires IsNumbering(numbered, ids) && Block(nodes, numbered, owner, n, lo, hi) && f in ids
    requires HasFunction(nodes, m, f) && LaterGroup(nodes, n, m)
    ensures !(lo <= ids[f] < hi)
  {
    var i := NumberedFor(nodes, numbered, owner, ids, m, f);
    if lo <= ids[f] < hi {
      BlocksAscend(nodes, owner, n, m, i, ids[f]);
    }
  }

  lemma BlocksAscend(nodes: seq<CHNode>, owner: seq<nat>, n: nat, m: nat, i: nat, j: nat)
    requires WellFormed(nodes) && InOrder(nodes, owner) && LaterGroup(nodes, n, m)
    requires i < |owner| && j < |owner| && Connected(nodes, m, owner[i]) && Connected(nodes, n, owner[j])
    ensures j < i
  {
    var a: nat :| Connected(nodes, n, a) && forall k: nat | Connected(nodes, m, k) :: a < k;
    ConnectedIsEquivalence(nodes, n, owner[j], n);
    ConnectedIsEquivalence(nodes, owner[j], n, a);
    assert owner[j] <= a < owner[i];
  }

  /** f is one of the functions of that name in the group of n. */
  ghost predicate Named(nodes: seq<CHNode>, n: nat, name: string, f: SVFFunction) {
    InGroup(nodes, n, f) && f.funcName == name
  }

  /** The functions of one name in the group of n have their IDs in the group's block, in their own order
      and without a gap: an ID between two of them is again the ID of one of them. */
  ghost predicate ConsecutiveRun(nodes: seq<CHNode>, ids: map<SVFFunction, nat>, n: nat, name: string, lo: nat,
                                 hi: nat) {
    && InBlock(nodes, ids, n, name, lo, hi)
    && (forall f, g | Named(nodes, n, name, f) && Named(nodes, n, name, g) && Before(f, g) :: ids[f] < ids[g])
    && (forall f, g, id: nat | Named(nodes, n, name, f) && Named(nodes, n, name, g) && ids[f] <= id <= ids[g] ::
          IsIdOf(nodes, ids, n, name, id))
  }

  ghost predicate IsIdOf(nodes: seq<CHNode>, ids: map<SVFFunction, nat>, n: nat, name: string, id: nat) {
    exists h :: h in ids && ids[h] == id && Named(nodes, n, name, h)
  }

  /** Between two functions of one name that kept their IDs lie only functions of that name. */
  lemma IdInRun(nodes: seq<CHNode>, numbered: seq<SVFFunction>, owner: seq<nat>, ids: map<SVFFunction, nat>,
                n: nat, lo: nat, hi: nat, f: SVFFunction, g: SVFFunction, id: nat)
    requires WellFormed(nodes) && Laid(nodes, Ids(|nodes|), numbered, owner) && InOrder(nodes, owner)
    requires IsNumbering(numbered, ids) && Block(nodes, numbered, owner, n, lo, hi)
    requires f in ids && g in ids && lo <= ids[f] <= id <= ids[g] < hi && f.funcName == g.funcName
    requires Unshared(nodes, n, f.funcName)
    ensures IsIdOf(nodes, ids, n, f.funcName, id)
  {
    SortedRun(numbered, lo, hi, ids[f], id, ids[g]);
    var h := numbered[id];
    assert Named(nodes, n, f.funcName, h);
    KeepsIdExactlyWhen(nodes, numbered, owner, ids, n, h, lo, hi);
    SortedRun(numbered, lo, hi, id, id, ids[h]);
    SortedRun(numbered, lo, hi, ids[h], id, id);
  }

  /** No function of the group of n with that name occurs in a later group. */
  ghost predicate Unshared(nodes: seq<CHNode>, n: nat, name: string) {
    forall h | Named(nodes, n, name, h) :: !SharedLater(nodes, n, h)
  }

  ghost predicate InBlock(nodes: seq<CHNode>, ids: map<SVFFunction, nat>, n: nat, name: string, lo: nat, hi: nat) {
    forall h | Named(nodes, n, name, h) :: h in ids && lo <= ids[h] < hi
  }

  lemma InBlockExactlyWhen(nodes: seq<CHNode>, numbered: seq<SVFFunction>, owner: seq<nat>, ids: map<SVFFunction, nat>,
                           n: nat, name: string, lo: nat, hi: nat)
    requires WellFormed(nodes) && Laid(nodes, Ids(|nodes|), numbered, owner) && InOrder(nodes, owner)
    requires IsNumbering(numbered, ids) && Block(nodes, numbered, owner, n, lo, hi)
    ensures InBlock(nodes, ids, n, name, lo, hi) <==> Unshared(nodes, n, name)
  {
    forall h | Named(nodes, n, name, h)
      ensures h in ids && (lo <= ids[h] < hi <==> !SharedLater(nodes, n, h))
    {
      KeepsIdExactlyWhen(nodes, numbered, owner, ids, n, h, lo, hi);
    }
  }

  /** MAIN RESULT: the functions of one name get consecutive IDs in the block of their group if and only if
      none of them occurs in a later group. */
  lemma SameNamesGetConsecutiveIdsExactlyWhen(
      nodes: seq<CHNode>, numbered: seq<SVFFunction>, owner: seq<nat>, ids: map<SVFFunction, nat>,
      n: nat, name: string, lo: nat, hi: nat)
    requires WellFormed(nodes) && Laid(nodes, Ids(|nodes|), numbered, owner) && InOrder(nodes, owner)
    requires IsNumbering(numbered, ids) && Block(nodes, numbered, owner, n, lo, hi)
    ensures ConsecutiveRun(nodes, ids, n, name, lo, hi) <==> Unshared(nodes, n, name)
  {
    InBlockExactlyWhen(nodes, numbered, owner, ids, n, name, lo, hi);
    if Unshared(nodes, n, name) {
      RunInBlock(nodes, numbered, owner, ids, n, name, lo, hi);
    }
  }

  lemma RunInBlock(nodes: seq<CHNode>, numbered: seq<SVFFunction>, owner: seq<nat>, ids: map<SVFFunction, nat>,
                   n: nat, name: string, lo: nat, hi: nat)
    requires WellFormed(nodes) && Laid(nodes, Ids(|nodes|), numbered, owner) && InOrder(nodes, owner)
    requires IsNumbering(numbered, ids) && Block(nodes, numbered, owner, n, lo, hi)
    requires InBlock(nodes, ids, n, name, lo, hi) && Unshared(nodes, n, name)
    ensures ConsecutiveRun(nodes, ids, n, name, lo, hi)
  {
    forall f, g | Named(nodes, n, name, f) && Named(nodes, n, name, g) && Before(f, g) ensures ids[f] < ids[g] {
      SortedRun(numbered, lo, hi, ids[g], ids[g], ids[f]);
    }
    forall f, g, id: nat | Named(nodes, n, name, f) && Named(nodes, n, name, g) && ids[f] <= id <= ids[g]
      ensures IsIdOf(nodes, ids, n, name, id)
    {
      IdInRun(nodes, numbered, owner, ids, n, lo, hi, f, g, id);
    }
  }

  /** Names that enclose another in a sorted stretch enclose an equal one, and nothing occurs twice. */
  lemma SortedRun(numbered: seq<SVFFunction>, lo: nat, hi: nat, i: nat, k: nat, j: nat)
    requires hi <= |numbered| && forall a: nat, b: nat | lo <= a < b < hi :: Before(numbered[a], numbered[b])
    requires lo <= i < hi && lo <= j < hi && lo <= k < hi
    ensures i <= k <= j && numbered[i].funcName == numbered[j].funcName ==> numbered[k].funcName == numbered[i].funcName
    ensures numbered[i] == numbered[j] ==> i == j
    ensures Before(numbered[j], numbered[i]) ==> j < i
  {
    var f, h, g := numbered[i], numbered[k], numbered[j];
    BeforeIsTotalOrder(f, g, f);
    LessIsTotal(f.funcName, h.funcName);
    LessIsTotal(h.funcName, g.funcName);
  }

  lemma NumberedOne(numbered: seq<SVFFunction>, ids: map<SVFFunction, nat>, f: SVFFunction)
    requires IsNumbering(numbered, ids)
    ensures IsNumbering(numbered + [f], ids[f := |numbered|])
  {
  }

  /** IDs are unique, shared functions or not. */
  lemma IdsAreInjective(numbered: seq<SVFFunction>, ids: map<SVFFunction, nat>, f: SVFFunction, g: SVFFunction)
    requires IsNumbering(numbered, ids) && f in ids && g in ids && ids[f] == ids[g]
    ensures f == g
  {
    assert numbered[ids[f]] == f;
  }

  lemma NeighboursPushed(nodes: seq<CHNode>, node: nat, visited0: set<nat>, visited: set<nat>,
                         stack: seq<nat>, pushed: seq<nat>, cur: nat, group: set<nat>)
    requires cur < |nodes| && visited0 <= visited && visited - visited0 <= group && cur in group
    requires Connected(nodes, node, cur) && (node in visited || node in stack + [cur])
    requires forall v: nat | v in stack :: v < |nodes| && Connected(nodes, node, v)
    requires forall v: nat | v in group :: (v < |nodes| && Connected(nodes, node, v)) || Neighbours(nodes, cur, v)
    requires forall v: nat, w: nat | v in visited - visited0 && Neighbours(nodes, v, w) ::
               w in visited || w in stack + [cur]
    requires forall x: nat :: x in pushed <==> x in stack || Neighbours(nodes, cur, x)
    ensures Grouping(nodes, node, visited0, visited + {cur}, pushed, group)
  {
    forall v: nat | Neighbours(nodes, cur, v) ensures v < |nodes| && Connected(nodes, node, v) {
      ReachesFurther(Adjacent(nodes), node, cur, v);
    }
  }

  lemma OrderExtended(nodes: seq<CHNode>, owner0: seq<nat>, owner: seq<nat>, node: nat)
    requires InOrder(nodes, owner0) && owner0 <= owner && Leads(nodes, node)
    requires forall i: nat | i < |owner0| :: owner0[i] < node
    requires forall i: nat | |owner0| <= i < |owner| :: owner[i] == node
    ensures InOrder(nodes, owner) && forall i: nat | i < |owner| :: owner[i] <= node
  {
    forall i: nat | i < |owner0| ensures owner[i] == owner0[i] {}
  }

  /** Classes met again later were visited with the first class of their group. */
  lemma FirstUnvisitedLeads(nodes: seq<CHNode>, visited: set<nat>, node: nat)
    requires WellFormed(nodes) && Closed(Adjacent(nodes), visited) && node !in visited
    requires forall k: nat | k < node :: k in visited
    ensures Leads(nodes, node)
  {
    AdjacentIsSymmetric(nodes);
    forall m: nat | Connected(nodes, node, m) ensures node <= m {
      if m < node {
        ReachesBack(Adjacent(nodes), node, m);
        ClosedHoldsReachable(Adjacent(nodes), visited, m, node);
      }
    }
  }

  /** `fs`, sorted, has been numbered for the group of n. */
  ghost predicate Appended(numbered0: seq<SVFFunction>, owner0: seq<nat>, numbered: seq<SVFFunction>, owner: seq<nat>,
                           n: nat, fs: set<SVFFunction>) {
    && numbered0 <= numbered && owner0 <= owner && |numbered| - |numbered0| == |owner| - |owner0|
    && (forall i: nat | |owner0| <= i < |owner| :: owner[i] == n)
    && (forall i: nat | |numbered0| <= i < |numbered| :: numbered[i] in fs)
    && (forall f | f in fs :: exists i: nat | |numbered0| <= i < |numbered| :: numbered[i] == f)
    && (forall i: nat, j: nat | |numbered0| <= i < j < |numbered| :: Before(numbered[i], numbered[j]))
  }

  lemma AppendedOne(numbered0: seq<SVFFunction>, owner0: seq<nat>, numbered: seq<SVFFunction>, owner: seq<nat>,
                    n: nat, all: set<SVFFunction>, rest: set<SVFFunction>, f: SVFFunction)
    requires Appended(numbered0, owner0, numbered, owner, n, all - rest)
    requires rest <= all && f in rest
    requires forall i: nat, g | |numbered0| <= i < |numbered| && g in rest :: Before(numbered[i], g)
    ensures Appended(numbered0, owner0, numbered + [f], owner + [n], n, all - (rest - {f}))
  {
    forall g | g in all - (rest - {f})
      ensures exists i: nat | |numbered0| <= i < |numbered + [f]| :: (numbered + [f])[i] == g
    {
      if g == f {
        assert (numbered + [f])[|numbered|] == f;
      } else {
        assert g in all - rest;
        var i: nat :| |numbered0| <= i < |numbered| && numbered[i] == g;
        assert (numbered + [f])[i] == g;
      }
    }
  }

  /** Numbering one more group leaves the blocks of the others and adds its own. */
  lemma BlockAdded(nodes: seq<CHNode>, visited0: set<nat>, group: set<nat>, node: nat,
                   numbered0: seq<SVFFunction>, owner0: seq<nat>, numbered: seq<SVFFunction>, owner: seq<nat>,
                   fs: set<SVFFunction>)
    requires WellFormed(nodes) && Laid(nodes, visited0, numbered0, owner0)
    requires Closed(Adjacent(nodes), visited0) && node !in visited0
    requires forall m: nat :: m in group <==> Connected(nodes, node, m)
    requires forall f :: f in fs <==> exists n | n in group :: HasFunction(nodes, n, f)
    requires Appended(numbered0, owner0, numbered, owner, node, fs)
    ensures Laid(nodes, visited0 + group, numbered, owner)
  {
    forall f ensures f in fs <==> InGroup(nodes, node, f) {}
    ConnectedIsEquivalence(nodes, node, node, node);
    forall n: nat | n in visited0 + group
      ensures exists lo: nat, hi: nat :: Block(nodes, numbered, owner, n, lo, hi)
    {
      if n in visited0 {
        var lo: nat, hi: nat :| Block(nodes, numbered0, owner0, n, lo, hi);
        OldBlockStays(nodes, visited0, node, numbered0, owner0, numbered, owner, fs, n, lo, hi);
      } else {
        NewBlock(nodes, visited0, node, numbered0, owner0, numbered, owner, fs, n);
      }
    }
    forall i: nat | i < |numbered| ensures owner[i] in visited0 + group && InGroup(nodes, owner[i], numbered[i]) {
      if i < |numbered0| {
        assert numbered[i] == numbered0[i] && owner[i] == owner0[i];
      }
    }
  }

  lemma OldBlockStays(nodes: seq<CHNode>, visited0: set<nat>, node: nat,
                      numbered0: seq<SVFFunction>, owner0: seq<nat>, numbered: seq<SVFFunction>, owner: seq<nat>,
                      fs: set<SVFFunction>, n: nat, lo: nat, hi: nat)
    requires Closed(Adjacent(nodes), visited0) && node !in visited0 && n in visited0
    requires Appended(numbered0, owner0, numbered, owner, node, fs)
    requires Block(nodes, numbered0, owner0, n, lo, hi)
    ensures Block(nodes, numbered, owner, n, lo, hi)
  {
    if Connected(nodes, n, node) {
      ClosedHoldsReachable(Adjacent(nodes), visited0, n, node);
    }
    forall i: nat | i < |numbered| ensures lo <= i < hi <==> Connected(nodes, n, owner[i]) {
      if i < |numbered0| {
        assert owner[i] == owner0[i];
      }
    }
    forall f | InGroup(nodes, n, f) ensures exists i: nat | lo <= i < hi :: numbered[i] == f {
      var i: nat :| lo <= i < hi && numbered0[i] == f;
      assert numbered[i] == f;
    }
  }

  lemma NewBlock(nodes: seq<CHNode>, visited0: set<nat>, node: nat,
                 numbered0: seq<SVFFunction>, owner0: seq<nat>, numbered: seq<SVFFunction>, owner: seq<nat>,
                 fs: set<SVFFunction>, n: nat)
    requires WellFormed(nodes) && Laid(nodes, visited0, numbered0, owner0)
    requires Closed(Adjacent(nodes), visited0) && n !in visited0 && Connected(nodes, node, n)
    requires forall f :: f in fs <==> InGroup(nodes, node, f)
    requires Appended(numbered0, owner0, numbered, owner, node, fs)
    ensures Block(nodes, numbered, owner, n, |numbered0|, |numbered|)
  {
    ConnectedIsEquivalence(nodes, node, n, node);
    forall i: nat | i < |numbered| ensures |numbered0| <= i < |numbered| <==> Connected(nodes, n, owner[i]) {
      if i < |numbered0| && Connected(nodes, n, owner[i]) {
        assert owner[i] == owner0[i];
        ConnectedIsEquivalence(nodes, n, owner[i], n);
        ClosedHoldsReachable(Adjacent(nodes), visited0, owner[i], n);
      }
    }
    forall f ensures InGroup(nodes, n, f) <==> InGroup(nodes, node, f) {
      if InGroup(nodes, n, f) {
        GroupIsShared(nodes, n, node, f);
      }
      if InGroup(nodes, node, f) {
        GroupIsShared(nodes, node, n, f);
      }
    }
  }

  lemma GroupIsShared(nodes: seq<CHNode>, n: nat, m: nat, f: SVFFunction)
    requires WellFormed(nodes) && Connected(nodes, n, m) && InGroup(nodes, n, f)
    ensures InGroup(nodes, m, f)
  {
    var k: nat :| Connected(nodes, n, k) && HasFunction(nodes, k, f);
    ConnectedIsEquivalence(nodes, n, m, n);
    ConnectedIsEquivalence(nodes, m, n, k);
  }

  lemma AllNumbered(nodes: seq<CHNode>, numbered: seq<SVFFunction>, owner: seq<nat>, ids: map<SVFFunction, nat>)
    requires WellFormed(nodes) && Laid(nodes, Ids(|nodes|), numbered, owner) && IsNumbering(numbered, ids)
    ensures forall f :: f in ids <==> exists n: nat :: HasFunction(nodes, n, f)
  {
    forall f | f in ids ensures exists n: nat :: HasFunction(nodes, n, f) {
      assert InGroup(nodes, owner[ids[f]], numbered[ids[f]]);
    }
    forall f, n: nat | HasFunction(nodes, n, f) ensures f in ids {
      FunctionIsNumbered(nodes, numbered, owner, n, f);
    }
  }

  lemma FunctionIsNumbered(nodes: seq<CHNode>, numbered: seq<SVFFunction>, owner: seq<nat>, n: nat, f: SVFFunction)
    requires WellFormed(nodes) && Laid(nodes, Ids(|nodes|), numbered, owner) && HasFunction(nodes, n, f)
    ensures f in numbered
  {
    ReachesItself(Adjacent(nodes), n);
    assert InGroup(nodes, n, f);
    var i := PlaceInBlock(nodes, numbered, owner, n, f);
  }

  // ---------------------------------------------------------------- there is only one numbering

  /** The order in which pairs of a group and a function are numbered. */
  predicate PairBefore(a: (nat, SVFFunction), b: (nat, SVFFunction)) {
    a.0 < b.0 || (a.0 == b.0 && Before(a.1, b.1))
  }

  predicate Sorted(s: seq<(nat, SVFFunction)>) {
    forall i, j | 0 <= i < j < |s| :: PairBefore(s[i], s[j])
  }

  lemma NotInTail(s: seq<(nat, SVFFunction)>)
    requires s != [] && Sorted(s)
    ensures s[0] !in s[1..]
  {
    BeforeIsTotalOrder(s[0].1, s[0].1, s[0].1);
    assert forall k | 0 < k < |s| :: PairBefore(s[0], s[k]);
  }

  lemma {:induction false} SortedIsUnique(s: seq<(nat, SVFFunction)>, t: seq<(nat, SVFFunction)>)
    requires Sorted(s) && Sorted(t) && forall x :: x in s <==> x in t
    ensures s == t
  {
    assert s == [] ==> t == [] by {
      if t != [] {
        assert t[0] in t;
      }
    }
    if s != [] {
      assert s[0] in t && t[0] in s;
      BeforeIsTotalOrder(s[0].1, t[0].1, s[0].1);
      assert s[0] == t[0];
      NotInTail(s);
      NotInTail(t);
      assert s == [s[0]] + s[1..] && t == [t[0]] + t[1..];
      assert forall x :: x in s[1..] <==> x in s && x != s[0];
      assert forall x :: x in t[1..] <==> x in t && x != t[0];
      SortedIsUnique(s[1..], t[1..]);
    }
  }

  function Pairs(numbered: seq<SVFFunction>, owner: seq<nat>): seq<(nat, SVFFunction)>
    requires |numbered| == |owner|
  {
    seq(|numbered|, i requires 0 <= i < |numbered| => (owner[i], numbered[i]))
  }

  /** A layout enumerates, in order, the functions of each group under the first class of the group. */
  lemma LayoutIsSorted(nodes: seq<CHNode>, numbered: seq<SVFFunction>, owner: seq<nat>)
    requires WellFormed(nodes) && Laid(nodes, Ids(|nodes|), numbered, owner) && InOrder(nodes, owner)
    ensures Sorted(Pairs(numbered, owner))
  {
    forall i: nat, j: nat | i < j < |numbered| ensures PairBefore((owner[i], numbered[i]), (owner[j], numbered[j])) {
      if owner[i] == owner[j] {
        ConnectedIsEquivalence(nodes, owner[i], owner[i], owner[i]);
        var lo: nat, hi: nat :| Block(nodes, numbered, owner, owner[i], lo, hi);
      }
    }
  }

  lemma LayoutHoldsAll(nodes: seq<CHNode>, numbered: seq<SVFFunction>, owner: seq<nat>, x: (nat, SVFFunction))
    requires WellFormed(nodes) && Laid(nodes, Ids(|nodes|), numbered, owner) && InOrder(nodes, owner)
    ensures x in Pairs(numbered, owner) <==> x.0 < |nodes| && Leads(nodes, x.0) && InGroup(nodes, x.0, x.1)
  {
    var pairs := Pairs(numbered, owner);
    if x in pairs {
      var i: nat :| i < |pairs| && pairs[i] == x;
    }
    if x.0 < |nodes| && Leads(nodes, x.0) && InGroup(nodes, x.0, x.1) {
      var i := PlaceInBlock(nodes, numbered, owner, x.0, x.1);
      ConnectedIsEquivalence(nodes, x.0, owner[i], x.0);
      assert pairs[i] == x;
    }
  }

  /** What the method promises fixes the order of numbering, and with it every ID. */
  lemma NumberingIsUnique(nodes: seq<CHNode>, numbered: seq<SVFFunction>, owner: seq<nat>, ids: map<SVFFunction, nat>,
                          numbered': seq<SVFFunction>, owner': seq<nat>, ids': map<SVFFunction, nat>)
    requires WellFormed(nodes)
    requires Laid(nodes, Ids(|nodes|), numbered, owner) && InOrder(nodes, owner) && IsNumbering(numbered, ids)
    requires Laid(nodes, Ids(|nodes|), numbered', owner') && InOrder(nodes, owner') && IsNumbering(numbered', ids')
    ensures numbered == numbered' && owner == owner' && ids == ids'
  {
    LayoutIsSorted(nodes, numbered, owner);
    LayoutIsSorted(nodes, numbered', owner');
    forall x ensures x in Pairs(numbered, owner) <==> x in Pairs(numbered', owner') {
      LayoutHoldsAll(nodes, numbered, owner, x);
      LayoutHoldsAll(nodes, numbered', owner', x);
    }
    SortedIsUnique(Pairs(numbered, owner), Pairs(numbered', owner'));
    forall i | 0 <= i < |numbered| ensures i < |numbered'| && numbered[i] == numbered'[i] && owner[i] == owner'[i] {
      assert Pairs(numbered, owner)[i] == Pairs(numbered', owner')[i];
    }
    assert |Pairs(numbered, owner)| == |Pairs(numbered', owner')|;
    IdsAreUnique(numbered, ids, ids');
  }

  lemma IdsAreUnique(numbered: seq<SVFFunction>, ids: map<SVFFunction, nat>, ids': map<SVFFunction, nat>)
    requires IsNumbering(numbered, ids) && IsNumbering(numbered, ids')
    ensures ids == ids'
  {
    forall f ensures f in ids <==> f in ids' {}
    forall f | f in ids ensures ids[f] == ids'[f] {
      assert ids[f] <= ids'[numbered[ids[f]]] && ids'[f] <= ids[numbered[ids'[f]]];
    }
  }

  // ---------------------------------------------------------------- a run that is broken

  // Two unrelated classes that share the function "f" at address 2.
  const F1 := SVFFunction(1, "f")
  const F2 := SVFFunction(2, "f")
  const A3 := SVFFunction(3, "a")
  const SHARING := [CHNode("A", [[F1, F2]], [], []), CHNode("B", [[F2, A3]], [], [])]
  const SHARED_ORDER := [F1, F2, A3, F2]
  const SHARED_OWNER: seq<nat> := [0, 0, 1, 1]
  const SHARED_IDS := map[F1 := 0, A3 := 2, F2 := 3]

  lemma SharingConnected(n: nat, m: nat)
    ensures Connected(SHARING, n, m) <==> n == m
  {
    if Connected(SHARING, n, m) {
      assert Closed(Adjacent(SHARING), {n});
      ClosedHoldsReachable(Adjacent(SHARING), {n}, n, m);
    }
    ReachesItself(Adjacent(SHARING), n);
  }

  lemma SharingGroups(n: nat, f: SVFFunction)
    ensures InGroup(SHARING, n, f) <==> (n == 0 && (f == F1 || f == F2)) || (n == 1 && (f == F2 || f == A3))
  {
    SharingConnected(n, n);
    forall m: nat ensures Connected(SHARING, n, m) <==> n == m { SharingConnected(n, m); }
    if n < 2 {
      assert HasFunction(SHARING, n, f) <==> f in SHARING[n].virtualFunctionVectors[0];
    }
  }

  lemma SharingIsWellFormed()
    ensures WellFormed(SHARING)
  {
  }

  lemma SharingBlocks(order: seq<SVFFunction>)
    requires order == [F1, F2, A3, F2]
    ensures Block(SHARING, order, SHARED_OWNER, 0, 0, 2) && Block(SHARING, order, SHARED_OWNER, 1, 2, 4)
  {
    forall n: nat, m: nat ensures Connected(SHARING, n, m) <==> n == m { SharingConnected(n, m); }
    forall n: nat, f ensures InGroup(SHARING, n, f) <==>
                               (n == 0 && (f == F1 || f == F2)) || (n == 1 && (f == F2 || f == A3))
    {
      SharingGroups(n, f);
    }
    assert order[0] == F1 && order[1] == F2 && order[2] == A3 && order[3] == F2;
    assert Less("a", "f");
  }

  /** How the two groups are laid out. */
  lemma SharingIsLaid()
    ensures Laid(SHARING, Ids(|SHARING|), SHARED_ORDER, SHARED_OWNER) && InOrder(SHARING, SHARED_OWNER)
  {
    forall n: nat, m: nat ensures Connected(SHARING, n, m) <==> n == m { SharingConnected(n, m); }
    forall n: nat, f ensures InGroup(SHARING, n, f) <==>
                               (n == 0 && (f == F1 || f == F2)) || (n == 1 && (f == F2 || f == A3))
    {
      SharingGroups(n, f);
    }
    SharingBlocks(SHARED_ORDER);
    assert Block(SHARING, SHARED_ORDER, SHARED_OWNER, 0, 0, 2);
    assert Block(SHARING, SHARED_ORDER, SHARED_OWNER, 1, 2, 4);
  }

  lemma SharingNumbered(order: seq<SVFFunction>, ids: map<SVFFunction, nat>)
    requires order == [F1, F2, A3, F2] && ids == map[F1 := 0, A3 := 2, F2 := 3]
    ensures IsNumbering(order, ids)
  {
    assert order[0] == F1 && order[1] == F2 && order[2] == A3 && order[3] == F2;
  }

  lemma SharingIds(numbered: seq<SVFFunction>, owner: seq<nat>, ids: map<SVFFunction, nat>)
    requires WellFormed(SHARING) && Laid(SHARING, Ids(|SHARING|), numbered, owner) && InOrder(SHARING, owner)
    requires IsNumbering(numbered, ids)
    ensures ids == SHARED_IDS
  {
    SharingIsLaid();
    SharingNumbered(SHARED_ORDER, SHARED_IDS);
    NumberingIsUnique(SHARING, numbered, owner, ids, SHARED_ORDER, SHARED_OWNER, SHARED_IDS);
  }

  /** A function shared with a later group can lose its place: "f" at address 2 is numbered again
      behind "a", so the IDs 0 and 3 of the two functions named "f" of the first group enclose one that
      is no ID at all and one of the function "a". */
  lemma SharedFunctionsBreakRuns(numbered: seq<SVFFunction>, owner: seq<nat>, ids: map<SVFFunction, nat>)
    requires WellFormed(SHARING) && Laid(SHARING, Ids(|SHARING|), numbered, owner) && InOrder(SHARING, owner)
    requires IsNumbering(numbered, ids)
    ensures InGroup(SHARING, 0, F1) && InGroup(SHARING, 0, F2) && !InGroup(SHARING, 0, A3)
    ensures F1.funcName == F2.funcName != A3.funcName
    ensures ids == SHARED_IDS && (forall f | f in ids :: ids[f] != 1) && ids[F1] == 0 && ids[A3] == 2 && ids[F2] == 3
  {
    SharingIds(numbered, owner, ids);
    SharingGroups(0, F1);
    SharingGroups(0, F2);
    SharingGroups(0, A3);
  }
}
