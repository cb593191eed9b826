/** Object type inference (svf-llvm/lib/ObjTypeInference.cpp): backward search for allocations, forward
    search for the instructions that reveal a type, and the selection of the largest type. */
module ObjTypeInference {
  import Reachability
  import opened SearchEntries
  import opened TwoPhaseSearch
  import opened ValueFlow
  import opened Words
  import opened Wrappers

  function KindOf(m: Module, v: nat): Kind {
    if v < |m.values| then m.values[v].kind else Other
  }

  function IsAlloc(m: Module, v: nat): bool {
    v < |m.values| && m.values[v].isAlloc
  }

  function Uses(m: Module, v: nat): seq<nat> {
    if v < |m.uses| then m.uses[v] else []
  }

  function SiteType(m: Module, v: nat): nat {
    if v < |m.values| then m.values[v].siteType else m.ptrType
  }

  /** getCalledFunction: null for indirect calls. */
  function CalledFunction(m: Module, call: Kind): Option<nat>
    requires call.Call?
  {
    if KindOf(m, call.called).Function? then Some(call.called) else None
  }

  function FlatMap(f: nat -> seq<nat>, xs: seq<nat>): seq<nat> {
    if xs == [] then [] else f(xs[0]) + FlatMap(f, xs[1..])
  }

  lemma {:induction false} FlatMapInRange(m: Module, f: nat -> seq<nat>, xs: seq<nat>)
    requires forall u :: InRange(m, f(u))
    ensures InRange(m, FlatMap(f, xs))
  {
    if xs != [] {
      FlatMapInRange(m, f, xs[1..]);
      assert InRange(m, f(xs[0]));
    }
  }

  // ------------------------------------------------------------- backward edges

  /** A value stored through the pointer a load reads. */
  function StoredThrough(m: Module, ptr: nat, user: nat): seq<nat> {
    var k := KindOf(m, user);
    if k.Store? && k.ptr == ptr then [k.val] else []
  }

  /** The operand a direct call passes for parameter `pos`. */
  function PassedBy(m: Module, fn: nat, pos: nat, user: nat): seq<nat> {
    var k := KindOf(m, user);
    if k.Call? && CalledFunction(m, k) == Some(fn) && pos < |k.args| then [k.args[pos]] else []
  }

  /** The values bwfindAllocOfVar hands to insertAllocsOrPushWorklist, in order. */
  function BackwardSources(m: Module, v: nat): seq<nat> {
    if IsAlloc(m, v) then []
    else
      match KindOf(m, v)
      case BitCast(x) => [x]
      case Phi(ops) => ops
      case Load(ptr) => FlatMap(u => StoredThrough(m, ptr, u), Uses(m, ptr))
      case Argument(fn, argNo) =>
        var f := KindOf(m, fn);
        var pos := if f.Function? && f.isVarArg then 0 else argNo;
        FlatMap(u => PassedBy(m, fn, pos, u), Uses(m, fn))
      case Call(_, _) =>
        var callee := CalledFunction(m, KindOf(m, v));
        if callee.Some? then
          var f := KindOf(m, callee.value);
          if !f.isDeclaration && f.returned.Some? then [f.returned.value] else []
        else []
      case _ => []
  }

  function OwnAllocs(m: Module, v: nat): set<nat> {
    if IsAlloc(m, v) then {v} else {}
  }

  function BackwardGraph(m: Module): Graph {
    Graph(seq(|m.values|, v requires 0 <= v => BackwardSources(m, v)),
          seq(|m.values|, v requires 0 <= v => OwnAllocs(m, v)))
  }

  lemma KindInRange(m: Module, v: nat)
    requires ValidModule(m)
    ensures InRange(m, Operands(KindOf(m, v)))
  {
    if v < |m.values| {
      assert InRange(m, Operands(m.values[v].kind));
    }
  }

  lemma StoredInRange(m: Module, ptr: nat, u: nat)
    requires ValidModule(m)
    ensures InRange(m, StoredThrough(m, ptr, u))
  {
    KindInRange(m, u);
    var k := KindOf(m, u);
    assert k.Store? ==> Operands(k)[0] == k.val;
  }

  lemma PassedInRange(m: Module, fn: nat, pos: nat, u: nat)
    requires ValidModule(m)
    ensures InRange(m, PassedBy(m, fn, pos, u))
  {
    KindInRange(m, u);
    var k := KindOf(m, u);
    assert k.Call? && pos < |k.args| ==> Operands(k)[pos + 1] == k.args[pos];
  }

  lemma BackwardInRange(m: Module, v: nat)
    requires ValidModule(m)
    ensures InRange(m, BackwardSources(m, v))
  {
    KindInRange(m, v);
    match KindOf(m, v)
    case Load(ptr) =>
      forall u: nat ensures InRange(m, StoredThrough(m, ptr, u)) {
        StoredInRange(m, ptr, u);
      }
      FlatMapInRange(m, u => StoredThrough(m, ptr, u), Uses(m, ptr));
    case Argument(fn, argNo) =>
      var f := KindOf(m, fn);
      var pos := if f.Function? && f.isVarArg then 0 else argNo;
      forall u: nat ensures InRange(m, PassedBy(m, fn, pos, u)) {
        PassedInRange(m, fn, pos, u);
      }
      FlatMapInRange(m, u => PassedBy(m, fn, pos, u), Uses(m, fn));
    case Call(called, args) =>
      KindInRange(m, called);
      var f := KindOf(m, called);
      assert f.Function? && f.returned.Some? ==> Operands(f)[|f.params|] == f.returned.value;
    case BitCast(x) => assert Operands(KindOf(m, v)) == [x];
    case _ =>
  }

  lemma BackwardGraphValid(m: Module)
    requires ValidModule(m)
    ensures ValidGraph(BackwardGraph(m))
  {
    forall v | 0 <= v < |m.values| ensures InRange(m, BackwardGraph(m).succ[v]) {
      BackwardInRange(m, v);
    }
  }

  // -------------------------------------------------------------- forward edges

  function LoadsOf(m: Module, ptr: nat): seq<nat> {
    FlatMap(u => if KindOf(m, u).Load? then [u] else [], Uses(m, ptr))
  }

  /** The loads of the fields addressed through a load. */
  function FieldLoadsOf(m: Module, load: nat): seq<nat> {
    FlatMap(use => if KindOf(m, use).Gep? then LoadsOf(m, use) else [], Uses(m, load))
  }

  /** Loads of the same field: other loads of the base pointer, their field addresses, their loads. */
  function LoadsOfSameField(m: Module, gep: nat): seq<nat> {
    var g := KindOf(m, gep);
    if g.Gep? && KindOf(m, g.ptr).Load? then
      FlatMap(load => if load == g.ptr || !KindOf(m, load).Load? then [] else FieldLoadsOf(m, load),
              Uses(m, KindOf(m, g.ptr).ptr))
    else []
  }

  function CallsOf(m: Module, fn: nat): seq<nat> {
    FlatMap(u => if KindOf(m, u).Call? && CalledFunction(m, KindOf(m, u)) == Some(fn) then [u] else [], Uses(m, fn))
  }

  /** The position of the first argument that is `v`. */
  function ArgPosInCall(args: seq<nat>, v: nat): (pos: nat)
    requires v in args
    ensures pos < |args| && args[pos] == v && v !in args[..pos]
  {
    if args[0] == v then 0 else 1 + ArgPosInCall(args[1..], v)
  }

  /** What fwInferObjType hands to insertInferSitesOrPushWorklist for one user of v. */
  function ForwardVia(m: Module, v: nat, user: nat): seq<nat> {
    match KindOf(m, user)
    case Store(_, ptr) => if ptr == v then [] else LoadsOf(m, ptr) + LoadsOfSameField(m, ptr)
    case BitCast(_) => [user]
    case Phi(_) => [user]
    case Return(fn) => CallsOf(m, fn)
    case Call(_, args) =>
      var callee := CalledFunction(m, KindOf(m, user));
      if callee == Some(v) || v !in args || callee.None? then []
      else
        var f := KindOf(m, callee.value);
        var pos := if f.isVarArg then 0 else ArgPosInCall(args, v);
        if !f.isDeclaration && pos < |f.params| then [f.params[pos]] else []
    case _ => []
  }

  function ForwardTargets(m: Module, v: nat): seq<nat> {
    FlatMap(u => ForwardVia(m, v, u), Uses(m, v))
  }

  /** Users that reveal the type of the object v points to. */
  predicate IsSite(m: Module, v: nat, user: nat) {
    match KindOf(m, user)
    case Load(_) => true
    case Store(_, ptr) => ptr == v
    case Gep(ptr) => ptr == v
    case _ => false
  }

  function OwnSites(m: Module, v: nat): set<nat> {
    (if KindOf(m, v).Gep? then {v} else {}) + set u | u in Uses(m, v) && IsSite(m, v, u)
  }

  function ForwardGraph(m: Module): Graph {
    Graph(seq(|m.values|, v requires 0 <= v => ForwardTargets(m, v)),
          seq(|m.values|, v requires 0 <= v => OwnSites(m, v)))
  }

  lemma {:induction false} FilteredUsesInRange(m: Module, f: nat -> seq<nat>, xs: seq<nat>)
    requires InRange(m, xs) && forall u: nat | u < |m.values| :: InRange(m, f(u))
    ensures InRange(m, FlatMap(f, xs))
  {
    if xs != [] {
      FilteredUsesInRange(m, f, xs[1..]);
      assert InRange(m, f(xs[0]));
    }
  }

  lemma UsesInRange(m: Module, v: nat)
    requires ValidModule(m)
    ensures InRange(m, Uses(m, v))
  {
  }

  lemma LoadsInRange(m: Module, ptr: nat)
    requires ValidModule(m)
    ensures InRange(m, LoadsOf(m, ptr)) && InRange(m, CallsOf(m, ptr))
  {
    UsesInRange(m, ptr);
    FilteredUsesInRange(m, u => if KindOf(m, u).Load? then [u] else [], Uses(m, ptr));
    FilteredUsesInRange(m, u => if KindOf(m, u).Call? && CalledFunction(m, KindOf(m, u)) == Some(ptr) then [u] else [],
                        Uses(m, ptr));
  }

  lemma FieldLoadsInRange(m: Module, load: nat)
    requires ValidModule(m)
    ensures InRange(m, FieldLoadsOf(m, load))
  {
    var f := (use: nat) => if KindOf(m, use).Gep? then LoadsOf(m, use) else [];
    forall use: nat ensures InRange(m, f(use)) {
      LoadsInRange(m, use);
    }
    FlatMapInRange(m, f, Uses(m, load));
  }

  lemma SameFieldInRange(m: Module, gep: nat)
    requires ValidModule(m)
    ensures InRange(m, LoadsOfSameField(m, gep))
  {
    var g := KindOf(m, gep);
    if g.Gep? && KindOf(m, g.ptr).Load? {
      var f := (load: nat) => if load == g.ptr || !KindOf(m, load).Load? then [] else FieldLoadsOf(m, load);
      forall load: nat ensures InRange(m, f(load)) {
        FieldLoadsInRange(m, load);
      }
      FlatMapInRange(m, f, Uses(m, KindOf(m, g.ptr).ptr));
    }
  }

  lemma ForwardViaInRange(m: Module, v: nat, user: nat)
    requires ValidModule(m) && user < |m.values|
    ensures InRange(m, ForwardVia(m, v, user))
  {
    match KindOf(m, user)
    case Store(_, ptr) =>
      LoadsInRange(m, ptr);
      SameFieldInRange(m, ptr);
    case Return(fn) => LoadsInRange(m, fn);
    case Call(called, args) =>
      KindInRange(m, called);
      var f := KindOf(m, called);
      if f.Function? {
        assert forall k | 0 <= k < |f.params| :: Operands(f)[k] == f.params[k];
      }
    case _ =>
  }

  lemma ForwardGraphValid(m: Module)
    requires ValidModule(m)
    ensures ValidGraph(ForwardGraph(m))
  {
    forall v | 0 <= v < |m.values| ensures InRange(m, ForwardGraph(m).succ[v]) {
      forall u: nat | u < |m.values| ensures InRange(m, ForwardVia(m, v, u)) {
        ForwardViaInRange(m, v, u);
      }
      UsesInRange(m, v);
      FilteredUsesInRange(m, u => ForwardVia(m, v, u), Uses(m, v));
    }
  }

  // ------------------------------------------------------------- the graphs are the flow

  lemma {:induction false} InFlatMap(f: nat -> seq<nat>, xs: seq<nat>, y: nat)
    ensures y in FlatMap(f, xs) <==> exists u | u in xs :: y in f(u)
  {
    if xs != [] {
      InFlatMap(f, xs[1..], y);
      assert forall u :: u in xs <==> u == xs[0] || u in xs[1..];
    }
  }

  lemma StoredExactly(m: Module, ptr: nat, x: nat)
    requires ValidModule(m)
    ensures x in FlatMap(u => StoredThrough(m, ptr, u), Uses(m, ptr)) <==>
            exists u: nat :: UsedBy(m, ptr, u) && m.values[u].kind == Store(x, ptr)
  {
    InFlatMap(u => StoredThrough(m, ptr, u), Uses(m, ptr), x);
    UsesInRange(m, ptr);
    if u: nat :| UsedBy(m, ptr, u) && m.values[u].kind == Store(x, ptr) {
      assert u in Uses(m, ptr) && x in StoredThrough(m, ptr, u);
    }
    if u :| u in Uses(m, ptr) && x in StoredThrough(m, ptr, u) {
      assert UsedBy(m, ptr, u);
    }
  }

  lemma PassedExactly(m: Module, fn: nat, pos: nat, x: nat)
    requires ValidModule(m)
    ensures x in FlatMap(u => PassedBy(m, fn, pos, u), Uses(m, fn)) <==>
            exists u: nat :: UsedBy(m, fn, u) && Passes(m, u, fn, pos, x)
  {
    InFlatMap(u => PassedBy(m, fn, pos, u), Uses(m, fn), x);
    UsesInRange(m, fn);
    if u: nat :| UsedBy(m, fn, u) && Passes(m, u, fn, pos, x) {
      assert u in Uses(m, fn) && x in PassedBy(m, fn, pos, u);
    }
    if u :| u in Uses(m, fn) && x in PassedBy(m, fn, pos, u) {
      assert UsedBy(m, fn, u);
    }
  }

  /** MAIN RESULT: the backward search goes on with exactly the values that what v points to may come from. */
  lemma BackwardSourcesExactly(m: Module, v: nat, x: nat)
    requires ValidModule(m)
    ensures x in BackwardSources(m, v) <==> ComesFrom(m, v, x)
  {
    match KindOf(m, v)
    case Load(ptr) => StoredExactly(m, ptr, x);
    case Argument(fn, argNo) =>
      var f := KindOf(m, fn);
      PassedExactly(m, fn, if f.Function? && f.isVarArg then 0 else argNo, x);
    case _ =>
  }

  lemma LoadsExactly(m: Module, ptr: nat, x: nat)
    requires ValidModule(m)
    ensures x in LoadsOf(m, ptr) <==> LoadsFrom(m, ptr, x)
  {
    InFlatMap(u => if KindOf(m, u).Load? then [u] else [], Uses(m, ptr), x);
  }

  lemma CallsExactly(m: Module, fn: nat, x: nat)
    requires ValidModule(m)
    ensures x in CallsOf(m, fn) <==> UsedBy(m, fn, x) && CallsDirectly(m, x, fn)
  {
    InFlatMap(u => if KindOf(m, u).Call? && CalledFunction(m, KindOf(m, u)) == Some(fn) then [u] else [],
              Uses(m, fn), x);
  }

  lemma FieldLoadsExactly(m: Module, load: nat, x: nat)
    requires ValidModule(m)
    ensures x in FieldLoadsOf(m, load) <==> LoadsFieldThrough(m, load, x)
  {
    InFlatMap(use => if KindOf(m, use).Gep? then LoadsOf(m, use) else [], Uses(m, load), x);
    UsesInRange(m, load);
    if field: nat :| UsedBy(m, load, field) && m.values[field].kind.Gep? && LoadsFrom(m, field, x) {
      LoadsExactly(m, field, x);
      assert field in Uses(m, load);
    }
    if use :| use in Uses(m, load) && KindOf(m, use).Gep? && x in LoadsOf(m, use) {
      LoadsExactly(m, use, x);
      assert UsedBy(m, load, use);
    }
  }

  lemma SameFieldExactly(m: Module, gep: nat, x: nat)
    requires ValidModule(m)
    ensures x in LoadsOfSameField(m, gep) <==> LoadsField(m, gep, x)
  {
    var g := KindOf(m, gep);
    if g.Gep? && KindOf(m, g.ptr).Load? {
      var ptr := KindOf(m, g.ptr).ptr;
      InFlatMap(load => if load == g.ptr || !KindOf(m, load).Load? then [] else FieldLoadsOf(m, load),
                Uses(m, ptr), x);
      UsesInRange(m, ptr);
      if again: nat :| LoadsFrom(m, ptr, again) && again != g.ptr && LoadsFieldThrough(m, again, x) {
        FieldLoadsExactly(m, again, x);
        assert again in Uses(m, ptr);
      }
      if load :| load in Uses(m, ptr) && load != g.ptr && KindOf(m, load).Load? && x in FieldLoadsOf(m, load) {
        FieldLoadsExactly(m, load, x);
        assert LoadsFrom(m, ptr, load);
      }
    }
  }

  lemma BindsExactly(m: Module, v: nat, user: nat, x: nat)
    requires ValidModule(m) && user < |m.values| && m.values[user].kind.Call?
    ensures x in ForwardVia(m, v, user) <==> Binds(m, user, v, x)
  {
    var args := m.values[user].kind.args;
    if v in args {
      var first := ArgPosInCall(args, v);
      assert args[..first] == args[..first];
      assert forall j | 0 <= j < first :: args[..first][j] == args[j];
      assert IsFirstArgument(args, v, first);
      assert forall pos | IsFirstArgument(args, v, pos) :: pos == first;
    }
  }

  lemma ForwardViaExactly(m: Module, v: nat, user: nat, x: nat)
    requires ValidModule(m) && user < |m.values|
    ensures x in ForwardVia(m, v, user) <==> GoesOnBy(m, v, user, x)
  {
    match m.values[user].kind
    case Store(_, ptr) =>
      LoadsExactly(m, ptr, x);
      SameFieldExactly(m, ptr, x);
    case Return(fn) => CallsExactly(m, fn, x);
    case Call(_, _) => BindsExactly(m, v, user, x);
    case _ =>
  }

  /** MAIN RESULT: the forward search goes on with exactly the values that point to what v points to because
      of some use of v. */
  lemma ForwardTargetsExactly(m: Module, v: nat, x: nat)
    requires ValidModule(m)
    ensures x in ForwardTargets(m, v) <==> GoesTo(m, v, x)
  {
    InFlatMap(u => ForwardVia(m, v, u), Uses(m, v), x);
    UsesInRange(m, v);
    forall u: nat | u < |m.values| ensures x in ForwardVia(m, v, u) <==> GoesOnBy(m, v, u, x) {
      ForwardViaExactly(m, v, u, x);
    }
  }

  lemma OwnSitesExactly(m: Module, v: nat, s: nat)
    requires ValidModule(m)
    ensures s in OwnSites(m, v) <==> Site(m, v, s)
  {
    UsesInRange(m, v);
  }

  // ------------------------------------------------------------- largest type

  /** objTyToNumFields, a u32. Classes with a vtable count like any other type. */
  function NumFields(m: Module, ty: nat): (n: nat)
    ensures n < 0x1_0000_0000
  {
    if ty < |m.types| then
      match m.types[ty]
      case ArrayType(n) => U32(n)
      case StructType(n, hasVTable) => U32(if hasVTable then m.maxFieldLimit else n)
      case OtherType => U32(m.maxFieldLimit)
    else U32(m.maxFieldLimit)
  }

  /** How the numbers are ordered: std::greater<int> takes them for signed. */
  function AsInt(n: nat): int {
    if n < 0x8000_0000 then n else n - 0x1_0000_0000
  }

  /** Null without candidates; otherwise the first of the types whose number of fields comes first. */
  ghost predicate IsLargest(m: Module, types: set<nat>, r: Option<nat>) {
    match r
    case None => types == {}
    case Some(t) =>
      && t in types
      && (forall u | u in types :: AsInt(NumFields(m, u)) <= AsInt(NumFields(m, t)))
      && (forall u | u in types && NumFields(m, u) == NumFields(m, t) :: t <= u)
  }

  lemma LargestIsUnique(m: Module, types: set<nat>, r: Option<nat>, r': Option<nat>)
    requires IsLargest(m, types, r) && IsLargest(m, types, r')
    ensures r == r'
  {
  }

  lemma SignedIsCongruent(k: nat, n: int)
    ensures n == AsInt(U32(k)) <==> -0x8000_0000 <= n < 0x8000_0000 && (k - n) % 0x1_0000_0000 == 0
  {
    var q := k / 0x1_0000_0000;
    assert k == q * 0x1_0000_0000 + U32(k);
  }

  lemma ElementsExactly(m: Module, ty: nat)
    ensures exists k: nat :: HasElements(m, ty, k)
    ensures forall k: nat | HasElements(m, ty, k) :: NumFields(m, ty) == U32(k)
  {
    if ty < |m.types| && m.types[ty].StructType? && m.types[ty].hasVTable {
      assert m.types[ty] == StructType(m.types[ty].elements, true);
    }
    if ty < |m.types| && m.types[ty] != OtherType && !(m.types[ty].StructType? && m.types[ty].hasVTable) {
      assert HasElements(m, ty, m.types[ty].elements);
    } else {
      assert HasElements(m, ty, m.maxFieldLimit);
    }
  }

  lemma CountsAsExactly(m: Module, ty: nat, n: int)
    ensures CountsAs(m, ty, n) <==> n == AsInt(NumFields(m, ty))
  {
    ElementsExactly(m, ty);
    var k: nat :| HasElements(m, ty, k);
    forall k: nat | HasElements(m, ty, k)
      ensures n == AsInt(NumFields(m, ty)) <==>
              -0x8000_0000 <= n < 0x8000_0000 && (k - n) % 0x1_0000_0000 == 0
    {
      SignedIsCongruent(k, n);
    }
  }

  /** MAIN RESULT: the type selected is the candidate that comes before all others. */
  lemma LargestComesFirst(m: Module, types: set<nat>, t: nat)
    ensures IsLargest(m, types, Some(t)) <==> t in types && forall u: nat | u in types :: ComesBefore(m, t, u)
  {
    CountsAsExactly(m, t, AsInt(NumFields(m, t)));
    forall u: nat | u in types
      ensures ComesBefore(m, t, u) <==>
              AsInt(NumFields(m, u)) <= AsInt(NumFields(m, t)) &&
              (NumFields(m, u) == NumFields(m, t) ==> t <= u)
    {
      CountsAsExactly(m, u, AsInt(NumFields(m, u)));
      if a, b :| CountsAs(m, t, a) && CountsAs(m, u, b) && (b < a || (b == a && t <= u)) {
        CountsAsExactly(m, t, a);
        CountsAsExactly(m, u, b);
      }
    }
  }

  /** The type selected has the most fields if and only if the signed order is right for the candidates:
      none of them has 2^31 fields or more, or all have. */
  lemma LargestHasMostFieldsExactlyWhen(m: Module, types: set<nat>, t: nat)
    requires IsLargest(m, types, Some(t))
    ensures (forall u | u in types :: NumFields(m, u) <= NumFields(m, t)) <==>
            (forall u | u in types :: NumFields(m, u) < 0x8000_0000) ||
            (forall u | u in types :: NumFields(m, u) >= 0x8000_0000)
  {
    if u, w :| u in types && w in types && NumFields(m, u) < 0x8000_0000 <= NumFields(m, w) {
      assert AsInt(NumFields(m, u)) <= AsInt(NumFields(m, t));
    }
  }

  /** An array of 2^31 elements loses against one of a single element. */
  lemma HugeArrayIsNotLargest(m: Module)
    requires m.types == [ArrayType(0x8000_0000), ArrayType(1)]
    ensures NumFields(m, 0) > NumFields(m, 1) && IsLargest(m, {0, 1}, Some(1))
  {
    assert m.types[0] == ArrayType(0x8000_0000) && m.types[1] == ArrayType(1);
  }

  ghost predicate IsMaximum(s: set<nat>, x: nat) { x in s && forall y | y in s :: AsInt(y) <= AsInt(x) }

  ghost predicate IsMinimum(s: set<nat>, x: nat) { x in s && forall y | y in s :: x <= y }

  lemma {:induction false} MaximumExists(s: set<nat>)
    requires s != {}
    ensures exists x :: IsMaximum(s, x)
  {
    var z :| z in s;
    if s == {z} {
      assert IsMaximum(s, z);
    } else {
      MaximumExists(s - {z});
      var hi :| IsMaximum(s - {z}, hi);
      assert forall y | y in s :: y == z || y in s - {z};
      assert IsMaximum(s, if AsInt(hi) < AsInt(z) then z else hi);
    }
  }

  lemma {:induction false} MinimumExists(s: set<nat>)
    requires s != {}
    ensures exists x :: IsMinimum(s, x)
  {
    var z :| z in s;
    if s == {z} {
      assert IsMinimum(s, z);
    } else {
      MinimumExists(s - {z});
      var lo :| IsMinimum(s - {z}, lo);
      assert forall y | y in s :: y == z || y in s - {z};
      assert IsMinimum(s, if z < lo then z else lo);
    }
  }

  /** Types grouped by their number of fields. */
  ghost predicate GroupedBySize(m: Module, types: set<nat>, bySize: map<nat, set<nat>>) {
    && (forall n, t | n in bySize && t in bySize[n] :: t in types && NumFields(m, t) == n)
    && (forall n | n in bySize :: bySize[n] != {})
    && (forall t | t in types :: NumFields(m, t) in bySize && t in bySize[NumFields(m, t)])
  }

  /** selectLargestSizedType: the first type of the largest group. */
  method SelectLargestSizedType(m: Module, types: set<nat>) returns (r: Option<nat>)
    ensures IsLargest(m, types, r)
  {
    if types == {} {
      return None;
    }
    var bySize: map<nat, set<nat>> := map[];
    var rest := types;
    while rest != {}
      invariant rest <= types && GroupedBySize(m, types - rest, bySize)
      decreases rest
    {
      var t :| t in rest;
      ghost var done := types - rest;
      rest := rest - {t};
      assert types - rest == done + {t};
      var n := NumFields(m, t);
      bySize := bySize[n := (if n in bySize then bySize[n] else {}) + {t}];
    }
    assert types - rest == types;
    var t0 :| t0 in types;
    assert NumFields(m, t0) in bySize.Keys;
    MaximumExists(bySize.Keys);
    ghost var hi :| IsMaximum(bySize.Keys, hi);
    var largest :| largest in bySize.Keys && forall k | k in bySize.Keys :: AsInt(k) <= AsInt(largest);
    var group := bySize[largest];
    MinimumExists(group);
    ghost var lo :| IsMinimum(group, lo);
    var first :| first in group && forall t | t in group :: first <= t;
    r := Some(first);
  }

  function SiteTypes(m: Module, sites: set<nat>): set<nat> {
    set s | s in sites :: SiteType(m, s)
  }

  function DefaultType(m: Module, v: nat): nat {
    if v < |m.values| && m.values[v].isHeapAlloc then m.int8Type else m.ptrType
  }

  // ---------------------------------------------------------------- the inference object

  /** On an empty cache the answer is reachability in the value graph. */
  lemma AnswerIsReachability(m: Module, v: nat, a: nat)
    requires ValidModule(m)
    ensures ValidGraph(BackwardGraph(m))
    ensures InAnswer(BackwardGraph(m), map[], v, a) <==> FindsAlloc(m, v, a)
  {
    BackwardGraphValid(m);
    var g, e: Cache := BackwardGraph(m), map[];
    if InAnswer(g, e, v, a) {
      var u: nat :| Reaches(g, e, v, u) && u < |g.succ| && a in Collect(g.own[u], g.succ[u], e);
      assert u == a;
      var p :| Path(g, e, p, v, u);
      forall i: nat | i + 1 < |p| ensures ComesFrom(m, p[i], p[i + 1]) {
        BackwardSourcesExactly(m, p[i], p[i + 1]);
      }
      assert Reachability.IsPath(Backwards(m), p, v, a);
    }
    if FindsAlloc(m, v, a) {
      var p :| Reachability.IsPath(Backwards(m), p, v, a);
      forall i: nat | i + 1 < |p| ensures p[i] < |m.values| && p[i + 1] in g.succ[p[i]] {
        assert Backwards(m)(p[i], p[i + 1]);
        BackwardSourcesExactly(m, p[i], p[i + 1]);
      }
      assert Path(g, e, p, v, a);
      assert Reaches(g, e, v, a);
      assert a in Collect(g.own[a], g.succ[a], e);
    }
  }

  /** The same for infer sites. */
  lemma SitesAreReachability(m: Module, v: nat, s: nat)
    requires ValidModule(m)
    ensures ValidGraph(ForwardGraph(m))
    ensures InAnswer(ForwardGraph(m), map[], v, s) <==> FindsSite(m, v, s)
  {
    ForwardGraphValid(m);
    var g, e: Cache := ForwardGraph(m), map[];
    if InAnswer(g, e, v, s) {
      var u: nat :| Reaches(g, e, v, u) && u < |g.succ| && s in Collect(g.own[u], g.succ[u], e);
      OwnSitesExactly(m, u, s);
      var p :| Path(g, e, p, v, u);
      forall i: nat | i + 1 < |p| ensures GoesTo(m, p[i], p[i + 1]) {
        ForwardTargetsExactly(m, p[i], p[i + 1]);
      }
      assert Reachability.IsPath(Forwards(m), p, v, u);
    }
    if FindsSite(m, v, s) {
      var w: nat :| Reachability.Reaches(Forwards(m), v, w) && Site(m, w, s);
      var p :| Reachability.IsPath(Forwards(m), p, v, w);
      assert |p| > 1 ==> Forwards(m)(p[0], p[0 + 1]);
      ForwardPathInside(m, p);
      assert Path(g, e, p, v, w);
      assert Reaches(g, e, v, w);
      OwnSitesExactly(m, w, s);
      assert s in Collect(g.own[w], g.succ[w], e);
    }
  }

  lemma GoesToInside(m: Module, v: nat, x: nat)
    requires ValidModule(m) && v < |m.values| && GoesTo(m, v, x)
    ensures x < |m.values| && x in ForwardGraph(m).succ[v]
  {
    ForwardTargetsExactly(m, v, x);
    ForwardGraphValid(m);
    var k :| 0 <= k < |ForwardTargets(m, v)| && ForwardTargets(m, v)[k] == x;
    assert ForwardGraph(m).succ[v][k] < |m.values|;
  }

  lemma ForwardPathInside(m: Module, p: seq<nat>)
    requires ValidModule(m) && |p| > 0 && p[0] < |m.values|
    requires forall i: nat | i + 1 < |p| :: Forwards(m)(p[i], p[i + 1])
    ensures forall i: nat | i < |p| :: p[i] < |m.values|
    ensures forall i: nat | i + 1 < |p| :: p[i + 1] in ForwardGraph(m).succ[p[i]]
  {
    for n := 1 to |p|
      invariant forall i: nat | i < n :: p[i] < |m.values|
      invariant forall i: nat | i + 1 < n :: p[i + 1] in ForwardGraph(m).succ[p[i]]
    {
      assert Forwards(m)(p[n - 1], p[n - 1 + 1]);
      GoesToInside(m, p[n - 1], p[n]);
    }
  }

  /** Every entry holds all the allocations its value leads back to, and no others. */
  ghost predicate AllocsComplete(m: Module, cache: Cache) {
    forall v: nat, a | v in cache :: a in cache[v] <==> FindsAlloc(m, v, a)
  }

  lemma AllocsCompleteIsComplete(m: Module, cache: Cache)
    requires ValidModule(m)
    ensures ValidGraph(BackwardGraph(m)) && (AllocsComplete(m, cache) <==> Complete(BackwardGraph(m), cache))
  {
    BackwardGraphValid(m);
    forall v: nat, a ensures InAnswer(BackwardGraph(m), map[], v, a) <==> FindsAlloc(m, v, a) {
      AnswerIsReachability(m, v, a);
    }
  }

  /** What a query makes of a complete cache. */
  lemma CompleteAllocs(m: Module, c0: Cache, v: nat, cache: Cache)
    requires ValidModule(m) && ValidGraph(BackwardGraph(m)) && v < |m.values|
    requires Answered(BackwardGraph(m), c0, v, cache) && v in cache
    ensures AllocsComplete(m, c0) ==> forall a :: a in cache[v] <==> FindsAlloc(m, v, a)
    ensures AllocsComplete(m, c0) && (v in c0 || Orderly(BackwardGraph(m), map[], v)) ==> AllocsComplete(m, cache)
  {
    var g := BackwardGraph(m);
    AllocsCompleteIsComplete(m, c0);
    AllocsCompleteIsComplete(m, cache);
    if AllocsComplete(m, c0) {
      CompleteCacheAnswers(g, c0, v, cache);
      forall a ensures a in cache[v] <==> FindsAlloc(m, v, a) {
        AnswerIsReachability(m, v, a);
      }
      if v in c0 {
        StaysComplete(g, c0, v, cache);
      } else if Orderly(g, map[], v) {
        OrderlyWithAnyCache(g, c0, v);
        StaysComplete(g, c0, v, cache);
      }
    }
  }

  ghost predicate SitesComplete(m: Module, cache: Cache) {
    forall v: nat, s | v in cache :: s in cache[v] <==> FindsSite(m, v, s)
  }

  lemma SitesCompleteIsComplete(m: Module, cache: Cache)
    requires ValidModule(m)
    ensures ValidGraph(ForwardGraph(m)) && (SitesComplete(m, cache) <==> Complete(ForwardGraph(m), cache))
  {
    ForwardGraphValid(m);
    forall v: nat, s ensures InAnswer(ForwardGraph(m), map[], v, s) <==> FindsSite(m, v, s) {
      SitesAreReachability(m, v, s);
    }
  }

  /** The same for infer sites. */
  lemma CompleteSites(m: Module, c0: Cache, v: nat, cache: Cache)
    requires ValidModule(m) && ValidGraph(ForwardGraph(m)) && v < |m.values|
    requires Answered(ForwardGraph(m), c0, v, cache) && v in cache
    ensures SitesComplete(m, c0) ==> forall s :: s in cache[v] <==> FindsSite(m, v, s)
    ensures SitesComplete(m, c0) && (v in c0 || Orderly(ForwardGraph(m), map[], v)) ==> SitesComplete(m, cache)
  {
    var g := ForwardGraph(m);
    SitesCompleteIsComplete(m, c0);
    SitesCompleteIsComplete(m, cache);
    if SitesComplete(m, c0) {
      CompleteCacheAnswers(g, c0, v, cache);
      forall s ensures s in cache[v] <==> FindsSite(m, v, s) {
        SitesAreReachability(m, v, s);
      }
      if v in c0 {
        StaysComplete(g, c0, v, cache);
      } else if Orderly(g, map[], v) {
        OrderlyWithAnyCache(g, c0, v);
        StaysComplete(g, c0, v, cache);
      }
    }
  }

  ghost predicate TypesMatchSites(m: Module, sites: Cache, types: map<nat, Option<nat>>) {
    && types.Keys == sites.Keys
    && forall v | v in sites :: IsLargest(m, SiteTypes(m, sites[v]), types[v])
  }

  /** The work list after the first phase of `value`. */
  function Expanded(todo: seq<Item>, value: nat, next: seq<nat>, cache: Cache): seq<Item> {
    PushAll(if value in cache then todo else Push(todo, (value, true)), next, cache)
  }

  /** One pair of the work list: the first phase pushes, the second gathers. Both searches use the same
      pair of local functions for this, the one over allocations, the other over infer sites. */
  method Expand(value: nat, canUpdate: bool, own: set<nat>, next: seq<nat>, cache: Cache, todo: seq<Item>)
    returns (workList: seq<Item>, found: set<nat>)
    ensures canUpdate ==> workList == todo && found == Collect(own, next, cache)
    ensures !canUpdate ==> workList == Expanded(todo, value, next, cache)
  {
    workList := todo;
    if !canUpdate && value !in cache {
      workList := Push(workList, (value, true));
    }
    found := {};
    if canUpdate {
      found := own;
    }
    ghost var below := workList;
    var i := 0;
    while i < |next|
      invariant 0 <= i <= |next|
      invariant canUpdate ==> found == Collect(own, next[..i], cache) && workList == todo
      invariant !canUpdate ==> workList == PushAll(below, next[..i], cache)
    {
      var u := next[i];
      assert next[..i + 1][..i] == next[..i] && next[..i + 1] == next[..i] + [u];
      if canUpdate {
        if u in cache {
          found := found + cache[u];
        }
      } else if u !in cache {
        workList := Push(workList, (u, false));
      }
      i := i + 1;
    }
    assert next[..i] == next;
  }

  /** A null type stands for the default type. */
  function TypeIn(m: Module, valueToType: map<nat, Option<nat>>, v: nat): nat
    requires v in valueToType
  {
    if valueToType[v].Some? then valueToType[v].value else DefaultType(m, v)
  }

  ghost predicate TypesAre(m: Module, valueToType: map<nat, Option<nat>>, sources: set<nat>, types: set<nat>) {
    && (forall a | a in sources :: a in valueToType && TypeIn(m, valueToType, a) in types)
    && (forall t | t in types :: exists a :: a in sources && a in valueToType && t == TypeIn(m, valueToType, a))
  }

  lemma OneMoreSource(m: Module, before: map<nat, Option<nat>>, after: map<nat, Option<nat>>,
                      done: set<nat>, types: set<nat>, source: nat)
    requires TypesAre(m, before, done, types) && source in after
    requires forall u | u in before :: u in after && after[u] == before[u]
    ensures TypesAre(m, after, done + {source}, types + {TypeIn(m, after, source)})
  {
    forall t | t in types + {TypeIn(m, after, source)}
      ensures exists a :: a in done + {source} && a in after && t == TypeIn(m, after, a)
    {
      if t in types {
        var a :| a in done && a in before && t == TypeIn(m, before, a);
        assert a in done + {source} && a in after && t == TypeIn(m, after, a);
      } else {
        assert source in done + {source};
      }
    }
  }

  /** `ty` is the type of one of the sources, and comes before the types of all of them. */
  ghost predicate IsLargestOf(m: Module, valueToType: map<nat, Option<nat>>, sources: set<nat>, ty: nat) {
    && (forall a: nat | a in sources :: a in valueToType && ComesBefore(m, ty, TypeIn(m, valueToType, a)))
    && (exists a: nat :: a in sources && a in valueToType && ty == TypeIn(m, valueToType, a))
  }

  lemma LargestOfTypes(m: Module, valueToType: map<nat, Option<nat>>, sources: set<nat>, types: set<nat>, ty: nat)
    requires TypesAre(m, valueToType, sources, types) && IsLargest(m, types, Some(ty))
    ensures IsLargestOf(m, valueToType, sources, ty)
  {
    LargestComesFirst(m, types, ty);
  }

  /** The type cached beside the sites is the one that they reveal. */
  lemma CachedTypeIsRevealed(m: Module, sites: Cache, types: map<nat, Option<nat>>, v: nat)
    requires TypesMatchSites(m, sites, types) && v in sites && forall s | s in sites[v] :: s < |m.values|
    ensures Reveals(m, sites[v], v, TypeIn(m, types, v))
  {
    assert IsLargest(m, SiteTypes(m, sites[v]), types[v]);
    if s :| s in sites[v] {
      assert SiteType(m, s) in SiteTypes(m, sites[v]);
      var ty := types[v].value;
      LargestComesFirst(m, SiteTypes(m, sites[v]), ty);
      forall s: nat | s in sites[v] ensures ComesBefore(m, ty, m.values[s].siteType) {
        assert SiteType(m, s) in SiteTypes(m, sites[v]);
      }
    }
  }

  lemma LargestIsRevealed(m: Module, sites: Cache, types: map<nat, Option<nat>>, sources: set<nat>, ty: nat)
    requires TypesMatchSites(m, sites, types) && IsLargestOf(m, types, sources, ty)
    requires forall v: nat, s | v in sites && s in sites[v] :: s < |m.values|
    ensures RevealsFirst(m, sites, sources, ty)
  {
    forall a: nat | a in sources
      ensures a in sites && Reveals(m, sites[a], a, TypeIn(m, types, a)) && ComesBefore(m, ty, TypeIn(m, types, a))
    {
      CachedTypeIsRevealed(m, sites, types, a);
    }
  }

  lemma OneSource(m: Module, sites: Cache, v: nat, ty: nat)
    requires v in sites && Reveals(m, sites[v], v, ty)
    ensures RevealsFirst(m, sites, {v}, ty)
  {
    CountsAsExactly(m, ty, AsInt(NumFields(m, ty)));
    assert ComesBefore(m, ty, ty);
  }

  class ObjTypeInference {
    const m: Module
    var valueToAllocs: Cache
    var valueToInferSites: Cache
    var valueToType: map<nat, Option<nat>>

    /** Holds in every state reachable by queries. */
    ghost predicate Valid()
      reads this
    {
      && ValidModule(m) && ValidGraph(BackwardGraph(m)) && ValidGraph(ForwardGraph(m))
      && Sound(BackwardGraph(m), valueToAllocs) && Sound(ForwardGraph(m), valueToInferSites)
      && TypesMatchSites(m, valueToInferSites, valueToType)
    }

    constructor (module_: Module)
      requires ValidModule(module_)
      ensures Valid() && m == module_
      ensures valueToAllocs == map[] && valueToInferSites == map[] && valueToType == map[]
    {
      m := module_;
      valueToAllocs, valueToInferSites, valueToType := map[], map[], map[];
      new;
      BackwardGraphValid(m);
      ForwardGraphValid(m);
    }

    /** The type handed out for a cached value. */
    function TypeOf(v: nat): nat
      requires v in valueToType
      reads this
    {
      TypeIn(m, valueToType, v)
    }

    /** One iteration of bwfindAllocOfVar. */
    method StepBackward(ghost v: nat, ghost c0: Cache, list: seq<Item>, seen: set<Item>, ghost tree0: Tree)
      returns (workList: seq<Item>, visited: set<Item>, ghost tree: Tree)
      requires ValidGraph(BackwardGraph(m)) && list != []
      requires Inv(BackwardGraph(m), c0, v, Search(list, seen, valueToAllocs), tree0)
      modifies this`valueToAllocs
      ensures Inv(BackwardGraph(m), c0, v, Search(workList, visited, valueToAllocs), tree)
      ensures list[|list| - 1] in Universe(BackwardGraph(m)) && list[|list| - 1].0 < |m.values|
      ensures Search(workList, visited, valueToAllocs) ==
              Step(BackwardGraph(m), Search(list, seen, old(valueToAllocs)))
      ensures if list[|list| - 1] in seen then visited == seen && |workList| < |list|
              else visited == seen + {list[|list| - 1]}
    {
      ghost var s := Search(list, seen, valueToAllocs);
      tree := Iteration(BackwardGraph(m), c0, v, s, tree0);
      var cur := list[|list| - 1];
      workList, visited := list[..|list| - 1], seen;
      if cur !in visited {
        visited := visited + {cur};
        var value, canUpdate := cur.0, cur.1;
        var sources;
        workList, sources :=
          Expand(value, canUpdate, OwnAllocs(m, value), BackwardSources(m, value), valueToAllocs, workList);
        if canUpdate {
          valueToAllocs := valueToAllocs[value := sources];
        }
      }
      assert Search(workList, visited, valueToAllocs) == Step(BackwardGraph(m), s);
    }

    /** The work list of bwfindAllocOfVar, for a value without a cached answer. */
    method SearchBackward(v: nat)
      requires ValidGraph(BackwardGraph(m)) && v < |m.values| && v !in valueToAllocs
      modifies this`valueToAllocs
      ensures v in valueToAllocs && Answered(BackwardGraph(m), old(valueToAllocs), v, valueToAllocs)
      ensures forall a :: a in valueToAllocs[v] <==> InAnswer(BackwardGraph(m), old(valueToAllocs), v, a)
      ensures forall u, a | u in valueToAllocs && u !in old(valueToAllocs) && a in valueToAllocs[u] ::
                InAnswer(BackwardGraph(m), old(valueToAllocs), u, a)
      ensures forall u | u in old(valueToAllocs) :: u in valueToAllocs && valueToAllocs[u] == old(valueToAllocs)[u]
    {
      ghost var g, c0, n := BackwardGraph(m), valueToAllocs, 0;
      ghost var tree := Tree(map[], map[], 0);
      StartInv(g, c0, v);
      var workList: seq<Item> := [(v, false)];
      var visited: set<Item> := {};
      while workList != []
        invariant Inv(g, c0, v, Search(workList, visited, valueToAllocs), tree)
        invariant IsAfter(g, c0, v, n, Search(workList, visited, valueToAllocs))
        decreases Universe(g) - visited, |workList|
      {
        ghost var s := Search(workList, visited, valueToAllocs);
        workList, visited, tree := StepBackward(v, c0, workList, visited, tree);
        IsAfterNext(g, c0, v, n, s);
        n := n + 1;
      }
      SearchIsExact(g, c0, v, Search(workList, visited, valueToAllocs), tree);
      EndAnswers(g, c0, v, n, Search(workList, visited, valueToAllocs));
    }

    /** bwfindAllocOfVar */
    method BwFindAllocOfVar(v: nat) returns (allocs: set<nat>)
      requires Valid() && v < |m.values|
      modifies this`valueToAllocs
      ensures Valid()
      ensures v in valueToAllocs && allocs == valueToAllocs[v]
      ensures forall u | u in old(valueToAllocs) :: u in valueToAllocs && valueToAllocs[u] == old(valueToAllocs)[u]
      ensures v in old(valueToAllocs) ==> valueToAllocs == old(valueToAllocs)
      ensures v !in old(valueToAllocs) ==>
                forall a :: a in allocs <==> InAnswer(BackwardGraph(m), old(valueToAllocs), v, a)
      ensures forall a | a in allocs :: FindsAlloc(m, v, a)
      ensures Answered(BackwardGraph(m), old(valueToAllocs), v, valueToAllocs)
      ensures AllocsComplete(m, old(valueToAllocs)) ==> forall a :: a in allocs <==> FindsAlloc(m, v, a)
      ensures AllocsComplete(m, old(valueToAllocs)) &&
              (v in old(valueToAllocs) || Orderly(BackwardGraph(m), map[], v)) ==>
                AllocsComplete(m, valueToAllocs)
    {
      if v in valueToAllocs {
        allocs := valueToAllocs[v];
        SoundMeansReachable(v, allocs);
        return;
      }
      ghost var c0 := valueToAllocs;
      SearchBackward(v);
      StaysSound(BackwardGraph(m), c0, valueToAllocs);
      allocs := valueToAllocs[v];
      SoundMeansReachable(v, allocs);
      CompleteAllocs(m, c0, v, valueToAllocs);
    }

    lemma SoundMeansReachable(v: nat, allocs: set<nat>)
      requires Valid() && v in valueToAllocs && allocs == valueToAllocs[v]
      ensures forall a | a in allocs :: FindsAlloc(m, v, a)
    {
      forall a | a in allocs ensures FindsAlloc(m, v, a) {
        AnswerIsReachability(m, v, a);
      }
    }

    lemma SoundSites(v: nat)
      requires Valid() && v in valueToInferSites
      ensures forall s | s in valueToInferSites[v] :: s < |m.values| && FindsSite(m, v, s)
    {
      forall s | s in valueToInferSites[v] ensures s < |m.values| && FindsSite(m, v, s) {
        SitesAreReachability(m, v, s);
      }
    }

    /** The sites of a value, and the largest of their types. */
    method CacheSites(value: nat, infersites: set<nat>)
      requires TypesMatchSites(m, valueToInferSites, valueToType)
      modifies this`valueToInferSites, this`valueToType
      ensures valueToInferSites == old(valueToInferSites)[value := infersites]
      ensures TypesMatchSites(m, valueToInferSites, valueToType)
      ensures forall u | u in old(valueToType) && u != value :: valueToType[u] == old(valueToType)[u]
    {
      valueToInferSites := valueToInferSites[value := infersites];
      var largest := SelectLargestSizedType(m, SiteTypes(m, infersites));
      valueToType := valueToType[value := largest];
    }

    /** fwInferObjType: the infer sites found, and with them the largest of their types. */
    method FwInferObjType(v: nat) returns (ty: nat)
      requires Valid() && v < |m.values|
      modifies this`valueToInferSites, this`valueToType
      ensures Valid()
      ensures v in valueToType && ty == TypeOf(v)
      ensures KeepsTypes(old(valueToInferSites), old(valueToType), valueToInferSites, valueToType)
      ensures v in old(valueToType) ==> valueToInferSites == old(valueToInferSites)
      ensures v !in old(valueToType) ==>
                forall x :: x in valueToInferSites[v] <==> InAnswer(ForwardGraph(m), old(valueToInferSites), v, x)
      ensures Answered(ForwardGraph(m), old(valueToInferSites), v, valueToInferSites)
      ensures Reveals(m, valueToInferSites[v], v, ty)
      ensures forall s | s in valueToInferSites[v] :: FindsSite(m, v, s)
      ensures SitesComplete(m, old(valueToInferSites)) ==>
                forall s :: s in valueToInferSites[v] <==> FindsSite(m, v, s)
      ensures SitesComplete(m, old(valueToInferSites)) &&
              (v in old(valueToInferSites) || Orderly(ForwardGraph(m), map[], v)) ==>
                SitesComplete(m, valueToInferSites)
    {
      if v !in valueToType {
        ghost var c0 := valueToInferSites;
        SearchForward(v);
        StaysSound(ForwardGraph(m), c0, valueToInferSites);
        CompleteSites(m, c0, v, valueToInferSites);
      }
      SoundSites(v);
      CachedTypeIsRevealed(m, valueToInferSites, valueToType, v);
      ty := TypeOf(v);
    }

    /** One pair of fwInferObjType's work list. */
    method VisitForward(value: nat, canUpdate: bool, todo: seq<Item>) returns (workList: seq<Item>)
      requires TypesMatchSites(m, valueToInferSites, valueToType)
      modifies this`valueToInferSites, this`valueToType
      ensures TypesMatchSites(m, valueToInferSites, valueToType)
      ensures forall u | u in old(valueToType) && !(canUpdate && u == value) ::
                u in valueToType && valueToType[u] == old(valueToType)[u]
      ensures if canUpdate
              then workList == todo && valueToInferSites ==
                   old(valueToInferSites)[
                     value := Collect(OwnSites(m, value), ForwardTargets(m, value), old(valueToInferSites))]
              else workList == Expanded(todo, value, ForwardTargets(m, value), valueToInferSites)
                   && valueToInferSites == old(valueToInferSites)
    {
      var infersites;
      workList, infersites :=
        Expand(value, canUpdate, OwnSites(m, value), ForwardTargets(m, value), valueToInferSites, todo);
      if canUpdate {
        CacheSites(value, infersites);
      }
    }

    /** The work list of fwInferObjType, for a value without a cached type. */
    method SearchForward(v: nat)
      requires ValidGraph(ForwardGraph(m)) && TypesMatchSites(m, valueToInferSites, valueToType)
      requires v < |m.values| && v !in valueToInferSites
      modifies this`valueToInferSites, this`valueToType
      ensures TypesMatchSites(m, valueToInferSites, valueToType)
      ensures KeepsTypes(old(valueToInferSites), old(valueToType), valueToInferSites, valueToType)
      ensures v in valueToInferSites
      ensures forall x :: x in valueToInferSites[v] <==> InAnswer(ForwardGraph(m), old(valueToInferSites), v, x)
      ensures forall u, x | u in valueToInferSites && u !in old(valueToInferSites) && x in valueToInferSites[u] ::
                InAnswer(ForwardGraph(m), old(valueToInferSites), u, x)
      ensures Answered(ForwardGraph(m), old(valueToInferSites), v, valueToInferSites)
    {
      ghost var g, c0, n := ForwardGraph(m), valueToInferSites, 0;
      ghost var tree := Tree(map[], map[], 0);
      StartInv(g, c0, v);
      var workList: seq<Item> := [(v, false)];
      var visited: set<Item> := {};
      while workList != []
        invariant Inv(g, c0, v, Search(workList, visited, valueToInferSites), tree)
        invariant IsAfter(g, c0, v, n, Search(workList, visited, valueToInferSites))
        invariant TypesMatchSites(m, valueToInferSites, valueToType)
        invariant forall u | u in old(valueToType) :: u in valueToType && valueToType[u] == old(valueToType)[u]
        decreases Universe(g) - visited, |workList|
      {
        ghost var s := Search(workList, visited, valueToInferSites);
        workList, visited, tree := StepForward(v, c0, workList, visited, tree);
        IsAfterNext(g, c0, v, n, s);
        n := n + 1;
      }
      SearchIsExact(g, c0, v, Search(workList, visited, valueToInferSites), tree);
      EndAnswers(g, c0, v, n, Search(workList, visited, valueToInferSites));
    }

    /** One iteration; no entry is made twice. */
    method StepForward(ghost v: nat, ghost c0: Cache, list: seq<Item>, seen: set<Item>, ghost tree0: Tree)
      returns (workList: seq<Item>, visited: set<Item>, ghost tree: Tree)
      requires ValidGraph(ForwardGraph(m)) && TypesMatchSites(m, valueToInferSites, valueToType) && list != []
      requires Inv(ForwardGraph(m), c0, v, Search(list, seen, valueToInferSites), tree0)
      modifies this`valueToInferSites, this`valueToType
      ensures Inv(ForwardGraph(m), c0, v, Search(workList, visited, valueToInferSites), tree)
      ensures list[|list| - 1].0 < |m.values| &&
              Search(workList, visited, valueToInferSites) ==
              Step(ForwardGraph(m), Search(list, seen, old(valueToInferSites)))
      ensures TypesMatchSites(m, valueToInferSites, valueToType)
      ensures forall u | u in old(valueToType) :: u in valueToType && valueToType[u] == old(valueToType)[u]
      ensures list[|list| - 1] in Universe(ForwardGraph(m))
      ensures if list[|list| - 1] in seen then visited == seen && |workList| < |list|
              else visited == seen + {list[|list| - 1]}
    {
      ghost var s := Search(list, seen, valueToInferSites);
      tree := Iteration(ForwardGraph(m), c0, v, s, tree0);
      ghost var next := Step(ForwardGraph(m), s);
      var cur := list[|list| - 1];
      workList, visited := list[..|list| - 1], seen;
      if cur !in visited {
        visited := visited + {cur};
        workList := VisitForward(cur.0, cur.1, workList);
      }
      assert Search(workList, visited, valueToInferSites) == next;
    }

    /** The forward type of one more source. */
    method AddTypeOf(source: nat, types: set<nat>, ghost done: set<nat>) returns (types': set<nat>)
      requires Valid() && source < |m.values| && TypesAre(m, valueToType, done, types)
      modifies this`valueToInferSites, this`valueToType
      ensures Valid() && KeepsTypes(old(valueToInferSites), old(valueToType), valueToInferSites, valueToType)
      ensures TypesAre(m, valueToType, done + {source}, types')
    {
      ghost var before := valueToType;
      var t := FwInferObjType(source);
      types' := types + {t};
      OneMoreSource(m, before, valueToType, done, types, source);
    }

    /** The forward types of all sources. */
    method TypesOfSources(sources: set<nat>) returns (types: set<nat>)
      requires Valid() && forall a | a in sources :: a < |m.values|
      modifies this`valueToInferSites, this`valueToType
      ensures Valid() && KeepsTypes(old(valueToInferSites), old(valueToType), valueToInferSites, valueToType)
      ensures TypesAre(m, valueToType, sources, types)
    {
      types := {};
      var rest := sources;
      while rest != {}
        invariant rest <= sources && Valid() && TypesAre(m, valueToType, sources - rest, types)
        invariant KeepsTypes(old(valueToInferSites), old(valueToType), valueToInferSites, valueToType)
        decreases rest
      {
        var source :| source in rest;
        ghost var done := sources - rest;
        types := AddTypeOf(source, types, done);
        rest := rest - {source};
        assert sources - rest == done + {source};
      }
      assert sources - rest == sources;
    }

    lemma LargestOfSources(sources: set<nat>, ty: nat)
      requires Valid() && IsLargestOf(m, valueToType, sources, ty)
      ensures RevealsFirst(m, valueToInferSites, sources, ty)
    {
      forall v: nat | v in valueToInferSites ensures forall s | s in valueToInferSites[v] :: s < |m.values| {
        SoundSites(v);
      }
      LargestIsRevealed(m, valueToInferSites, valueToType, sources, ty);
    }

    /** The step of inferObjType from sources to a type. */
    method LargestTypeOf(sources: set<nat>) returns (ty: nat)
      requires Valid() && sources != {} && forall a | a in sources :: a < |m.values|
      modifies this`valueToInferSites, this`valueToType
      ensures Valid() && KeepsTypes(old(valueToInferSites), old(valueToType), valueToInferSites, valueToType)
      ensures RevealsFirst(m, valueToInferSites, sources, ty)
    {
      var types := TypesOfSources(sources);
      ghost var a :| a in sources;
      assert TypeIn(m, valueToType, a) in types;
      var largest := SelectLargestSizedType(m, types);
      ty := largest.value;
      LargestOfTypes(m, valueToType, sources, types, ty);
      LargestOfSources(sources, ty);
    }

    /** inferObjType: the type of one of the allocations the value may point to (of the value itself when
        it is one or none is found), and no smaller than that of any of them. */
    method InferObjType(v: nat) returns (ty: nat)
      requires Valid() && v < |m.values|
      modifies this`valueToAllocs, this`valueToInferSites, this`valueToType
      ensures Valid()
      ensures RevealsFirst(m, valueToInferSites, InferredFrom(v), ty)
      ensures KeepsTypes(old(valueToInferSites), old(valueToType), valueToInferSites, valueToType)
      ensures IsAlloc(m, v) ==> valueToAllocs == old(valueToAllocs)
      ensures !IsAlloc(m, v) ==> v in valueToAllocs
      ensures !IsAlloc(m, v) && v !in old(valueToAllocs) ==>
                forall a :: a in valueToAllocs[v] <==> InAnswer(BackwardGraph(m), old(valueToAllocs), v, a)
      ensures !IsAlloc(m, v) ==> forall a | a in valueToAllocs[v] :: FindsAlloc(m, v, a)
      ensures !IsAlloc(m, v) && AllocsComplete(m, old(valueToAllocs)) ==>
                forall a :: a in valueToAllocs[v] <==> FindsAlloc(m, v, a)
    {
      if IsAlloc(m, v) {
        ty := FwInferObjType(v);
        OneSource(m, valueToInferSites, v, ty);
        return;
      }
      var sources := BwFindAllocOfVar(v);
      if sources == {} {
        ty := LargestTypeOf({v});
      } else {
        ty := LargestTypeOf(sources);
      }
    }

    /** Where the type of `v` is taken from: itself, or the allocations found for it. */
    ghost function InferredFrom(v: nat): set<nat>
      reads this
    {
      if IsAlloc(m, v) || v !in valueToAllocs || valueToAllocs[v] == {} then {v} else valueToAllocs[v]
    }
  }

  /** Answers given once are given again. */
  ghost predicate KeepsTypes(sites: Cache, types: map<nat, Option<nat>>, sites': Cache, types': map<nat, Option<nat>>) {
    && (forall u | u in sites :: u in sites' && sites'[u] == sites[u])
    && (forall u | u in types :: u in types' && types'[u] == types[u])
  }

  /** New entries that answer relative to a sound cache are sound. */
  lemma StaysSound(g: Graph, c0: Cache, cache: Cache)
    requires ValidGraph(g) && Sound(g, c0)
    requires forall u, x | u in cache && u !in c0 && x in cache[u] :: InAnswer(g, c0, u, x)
    requires forall u | u in c0 :: u in cache && cache[u] == c0[u]
    ensures Sound(g, cache)
  {
    forall u: nat, x | u in cache && x in cache[u] ensures InAnswer(g, map[], u, x) {
      if u !in c0 {
        AnswerIsSound(g, c0, u, x);
      }
    }
  }

  // ---------------------------------------------------------------- a query that misses an allocation

  /** Value 0 is a PHI of the allocation 1 and of 2, a bitcast of 1. */
  const PHI := Module(
    [Value(Phi([1, 2]), false, false, 0), Value(Other, true, false, 0), Value(BitCast(1), false, false, 0)],
    [[], [0, 2], [0]], [OtherType], 0, 0, 0)

  lemma PhiGraph()
    ensures ValidModule(PHI) && BackwardGraph(PHI) == SHARED
  {
    assert PHI.values[0] == Value(Phi([1, 2]), false, false, 0);
    assert PHI.values[1] == Value(Other, true, false, 0);
    assert PHI.values[2] == Value(BitCast(1), false, false, 0);
    assert BackwardGraph(PHI).succ == SHARED.succ;
    assert BackwardGraph(PHI).own == SHARED.own;
  }

  /** Asking for the PHI first leaves an entry for the bitcast that misses the allocation, and the second
      query is answered with it. */
  method QueryPhiThenBitCast() returns (first: set<nat>, second: set<nat>)
    ensures first == {1} && FindsAlloc(PHI, 0, 1)
    ensures second == {} && FindsAlloc(PHI, 2, 1)
  {
    PhiGraph();
    var inference := new ObjTypeInference(PHI);
    first := inference.BwFindAllocOfVar(0);
    OtherEntriesMayBeIncomplete(inference.valueToAllocs);
    second := inference.BwFindAllocOfVar(2);
    AnswerIsReachability(PHI, 2, 1);
  }
}
