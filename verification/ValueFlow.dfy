/** The values of an LLVM module as object type inference sees them, and how facts flow between them: which
    values an allocation is carried through, and which uses reveal a type. */
module ValueFlow {
  import opened Reachability
  import opened Wrappers

  // --------------------------------------------------------------------- the IR

  /** Values are numbered; operands are numbers of other values. */
  datatype Kind =
    | Function(isDeclaration: bool, isVarArg: bool, params: seq<nat>, returned: Option<nat>)
    | Argument(fn: nat, argNo: nat)
    | BitCast(src: nat)
    | Phi(ops: seq<nat>)
    | Load(ptr: nat)
    | Store(val: nat, ptr: nat)
    | Gep(ptr: nat)
    | Return(inFn: nat)
    | Call(called: nat, args: seq<nat>)
    | Other

  /** `isAlloc` is LLVMUtil::isObject, `siteType` the result of infersiteToType. */
  datatype Value = Value(kind: Kind, isAlloc: bool, isHeapAlloc: bool, siteType: nat)

  datatype Type = ArrayType(elements: nat) | StructType(elements: nat, hasVTable: bool) | OtherType

  /** `uses[v]` lists the user of every use of v. */
  datatype Module = Module(values: seq<Value>, uses: seq<seq<nat>>, types: seq<Type>,
                           maxFieldLimit: nat, int8Type: nat, ptrType: nat)

  ghost predicate InRange(m: Module, xs: seq<nat>) {
    forall k | 0 <= k < |xs| :: xs[k] < |m.values|
  }

  function Operands(k: Kind): seq<nat> {
    match k
    case Function(_, _, params, r) => params + (if r.Some? then [r.value] else [])
    case Argument(fn, _) => [fn]
    case BitCast(x) => [x]
    case Phi(ops) => ops
    case Load(p) => [p]
    case Store(v, p) => [v, p]
    case Gep(p) => [p]
    case Return(fn) => [fn]
    case Call(f, args) => [f] + args
    case Other => []
  }

  ghost predicate ValidModule(m: Module) {
    && |m.uses| == |m.values|
    && (forall v | 0 <= v < |m.values| :: InRange(m, m.uses[v]) && InRange(m, Operands(m.values[v].kind)))
  }

  ghost predicate UsedBy(m: Module, v: nat, user: nat) {
    v < |m.uses| && user in m.uses[v] && user < |m.values|
  }

  /** The user is a call of fn itself, not of a pointer to it and not one that merely passes it on. */
  ghost predicate CallsDirectly(m: Module, user: nat, fn: nat) {
    && user < |m.values| && m.values[user].kind.Call? && m.values[user].kind.called == fn
    && fn < |m.values| && m.values[fn].kind.Function?
  }

  // ---------------------------------------------------------------- allocations

  /** The call passes x as operand `pos`. */
  ghost predicate Passes(m: Module, user: nat, fn: nat, pos: nat, x: nat) {
    CallsDirectly(m, user, fn) && pos < |m.values[user].kind.args| && m.values[user].kind.args[pos] == x
  }

  /** What v points to may have come from x: through a cast, a PHI, memory, a parameter or a return. An
      allocation comes from nowhere. */
  ghost predicate ComesFrom(m: Module, v: nat, x: nat) {
    && v < |m.values| && !m.values[v].isAlloc
    && match m.values[v].kind
       case BitCast(src) => x == src
       case Phi(ops) => x in ops
       case Load(ptr) => exists u: nat :: UsedBy(m, ptr, u) && m.values[u].kind == Store(x, ptr)
       case Argument(fn, argNo) =>
         exists u: nat :: UsedBy(m, fn, u) && CallsDirectly(m, u, fn) &&
                     Passes(m, u, fn, if m.values[fn].kind.isVarArg then 0 else argNo, x)
       case Call(called, _) =>
         && CallsDirectly(m, v, called)
         && !m.values[called].kind.isDeclaration && m.values[called].kind.returned == Some(x)
       case _ => false
  }

  ghost function Backwards(m: Module): (nat, nat) -> bool {
    (v: nat, x: nat) => ComesFrom(m, v, x)
  }

  /** `v` leads back to the allocation `a`. */
  ghost predicate FindsAlloc(m: Module, v: nat, a: nat) {
    a < |m.values| && m.values[a].isAlloc && Reaches(Backwards(m), v, a)
  }

  // ---------------------------------------------------------------- infer sites

  ghost predicate LoadsFrom(m: Module, ptr: nat, load: nat) {
    UsedBy(m, ptr, load) && m.values[load].kind.Load?
  }

  /** Some field of what `load` yields is addressed and loaded by x. */
  ghost predicate LoadsFieldThrough(m: Module, load: nat, x: nat) {
    exists field: nat :: UsedBy(m, load, field) && m.values[field].kind.Gep? && LoadsFrom(m, field, x)
  }

  /** The base of `gep` was loaded; through a pointer loaded once more from the same place a field is loaded. */
  ghost predicate LoadsField(m: Module, gep: nat, x: nat) {
    && gep < |m.values| && m.values[gep].kind.Gep?
    && var base := m.values[gep].kind.ptr;
       && base < |m.values| && m.values[base].kind.Load?
       && exists again: nat ::
            LoadsFrom(m, m.values[base].kind.ptr, again) && again != base && LoadsFieldThrough(m, again, x)
  }

  ghost predicate IsFirstArgument(args: seq<nat>, v: nat, pos: nat) {
    pos < |args| && args[pos] == v && forall j | 0 <= j < pos :: args[j] != v
  }

  /** The call binds v to the parameter x of a function with a body. */
  ghost predicate Binds(m: Module, call: nat, v: nat, x: nat) {
    && call < |m.values| && m.values[call].kind.Call?
    && var callee := m.values[call].kind.called;
       && CallsDirectly(m, call, callee) && callee != v && !m.values[callee].kind.isDeclaration
       && var f := m.values[callee].kind;
          exists first: nat, pos: nat ::
            && IsFirstArgument(m.values[call].kind.args, v, first)
            && pos == (if f.isVarArg then 0 else first) && 0 <= pos < |f.params| && f.params[pos] == x
  }

  /** x points to what v points to, because of that user of v. */
  ghost predicate GoesOnBy(m: Module, v: nat, user: nat, x: nat)
    requires user < |m.values|
  {
    match m.values[user].kind
    case BitCast(_) => x == user
    case Phi(_) => x == user
    case Store(_, ptr) => ptr != v && (LoadsFrom(m, ptr, x) || LoadsField(m, ptr, x))
    case Return(fn) => UsedBy(m, fn, x) && CallsDirectly(m, x, fn)
    case Call(_, _) => Binds(m, user, v, x)
    case _ => false
  }

  ghost predicate GoesTo(m: Module, v: nat, x: nat) {
    exists u: nat :: UsedBy(m, v, u) && GoesOnBy(m, v, u, x)
  }

  ghost function Forwards(m: Module): (nat, nat) -> bool {
    (v: nat, x: nat) => GoesTo(m, v, x)
  }

  /** An instruction that reveals the type of what v points to: a load by v, a store or field address
      through it, or v itself if it is a field address. */
  ghost predicate Site(m: Module, v: nat, s: nat) {
    || (s == v && v < |m.values| && m.values[v].kind.Gep?)
    || (UsedBy(m, v, s) && match m.values[s].kind
                           case Load(_) => true
                           case Store(_, ptr) => ptr == v
                           case Gep(ptr) => ptr == v
                           case _ => false)
  }

  ghost predicate FindsSite(m: Module, v: nat, s: nat) {
    exists w: nat :: Reaches(Forwards(m), v, w) && Site(m, w, s)
  }

  // ---------------------------------------------------------------- types

  /** The declared number of elements; classes with a vtable and everything else count as the limit. */
  ghost predicate HasElements(m: Module, ty: nat, n: nat) {
    || (ty < |m.types| && (m.types[ty] == ArrayType(n) || m.types[ty] == StructType(n, false)))
    || (n == m.maxFieldLimit &&
        (ty < |m.types| ==> m.types[ty] == OtherType || exists k: nat :: m.types[ty] == StructType(k, true)))
  }

  /** The number by which a type is ordered: its elements as a signed 32-bit number. */
  ghost predicate CountsAs(m: Module, ty: nat, n: int) {
    -0x8000_0000 <= n < 0x8000_0000 && exists k: nat :: HasElements(m, ty, k) && (k - n) % 0x1_0000_0000 == 0
  }

  /** t is selected rather than u: it counts as more or, if as many, is not listed after it. */
  ghost predicate ComesBefore(m: Module, t: nat, u: nat) {
    exists a: int, b: int :: CountsAs(m, t, a) && CountsAs(m, u, b) && (b < a || (b == a && t <= u))
  }

  /** The type that the sites found for v give: one of theirs that comes first, or the default. */
  ghost predicate Reveals(m: Module, sites: set<nat>, v: nat, ty: nat) {
    if sites == {} then
      ty == if v < |m.values| && m.values[v].isHeapAlloc then m.int8Type else m.ptrType
    else
      && (exists s: nat :: s in sites && s < |m.values| && m.values[s].siteType == ty)
      && (forall s: nat | s in sites :: s < |m.values| && ComesBefore(m, ty, m.values[s].siteType))
  }

  /** One of the sources reveals `ty`, and it comes before what any other reveals. */
  ghost predicate RevealsFirst(m: Module, sites: map<nat, set<nat>>, sources: set<nat>, ty: nat) {
    && (exists a: nat :: a in sources && a in sites && Reveals(m, sites[a], a, ty))
    && (forall a: nat | a in sources ::
          a in sites && exists t: nat :: Reveals(m, sites[a], a, t) && ComesBefore(m, ty, t))
  }
}
