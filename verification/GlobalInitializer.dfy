/** SVFIRBuilder::InitialGlobal (svf-llvm/lib/SVFIRBuilder.cpp): which field of a global every
    constant of its initialiser goes to. */
module GlobalInitializer {
  import opened TypeFlattening
  import opened GepOffset
  import opened Wrappers

  /** `DataSequence` is a ConstantDataSequential, `OtherData` a zero or undefined aggregate. */
  datatype Constant = SingleValue(v: nat) | Aggregate(ops: seq<Constant>) | DataSequence(elements: seq<nat>) | OtherData

  function ComponentCount(t: Type): nat {
    match t
    case Scalar(_) => 0
    case Array(n, _) => if Empty(t) then 0 else n
    case Struct(fs) => |fs|
  }

  /** The type of a constant: LLVM has no explicit constant of an array without elements. */
  predicate HasType(c: Constant, t: Type)
    decreases c
  {
    match c
    case SingleValue(_) => t.Scalar?
    case Aggregate(ops) =>
      && !t.Scalar? && (t.Array? ==> !Empty(t)) && |ops| == ComponentCount(t)
      && forall i | 0 <= i < |ops| :: HasType(ops[i], Component(t, i))
    case DataSequence(es) => t.Array? && !Empty(t) && t.elem.Scalar? && |es| == t.n
    case OtherData => !t.Scalar?
  }

  /** A field offset and the constant stored there. */
  type Store = (nat, nat)

  /** Options::ModelConsts and Options::ModelArrays. */
  datatype Modes = Modes(consts: bool, arrays: bool)

  /** The stores in the order they are added. */
  function Stores(t: Type, c: Constant, offset: nat, m: Modes): seq<Store>
    requires HasType(c, t)
    decreases c, 0
  {
    match c
    case SingleValue(v) => [(offset, v)]
    case Aggregate(ops) => StoresTo(t, ops, |ops|, offset, m)
    case DataSequence(es) => if m.consts then DataTo(t, es, |es|, offset, m) else []
    case OtherData => []
  }

  function StoresTo(t: Type, ops: seq<Constant>, i: nat, offset: nat, m: Modes): seq<Store>
    requires i <= |ops| == ComponentCount(t)
    requires forall j | 0 <= j < |ops| :: HasType(ops[j], Component(t, j))
    decreases ops, i
  {
    if i == 0 then []
    else
      StoresTo(t, ops, i - 1, offset, m) +
      Stores(Component(t, i - 1), ops[i - 1], offset + Start(t, i - 1, m.arrays), m)
  }

  function DataTo(t: Type, es: seq<nat>, i: nat, offset: nat, m: Modes): seq<Store>
    requires i <= |es| == ComponentCount(t)
  {
    if i == 0 then [] else DataTo(t, es, i - 1, offset, m) + [(offset + Start(t, i - 1, m.arrays), es[i - 1])]
  }

  class SVFIRBuilder {
    const symbols: LLVMModuleSet
    const modes: Modes
    var stores: seq<Store>

    constructor (s: LLVMModuleSet, m: Modes)
      ensures symbols == s && modes == m && stores == []
    {
      symbols, modes, stores := s, m, [];
    }

    /** getFlattenedElemIdx of a component. */
    method FlattenedElemIdx(t: Type, i: nat) returns (off: nat)
      requires symbols.Valid() && InBounds(t, i)
      modifies symbols
      ensures symbols.Valid() && off == Start(t, i, modes.arrays)
    {
      TablesHoldStarts(t, i);
      off := GetFlattenedElemIdx(symbols, t, i, modes.arrays);
    }

    method InitialGlobal(t: Type, c: Constant, offset: nat)
      requires symbols.Valid() && HasType(c, t)
      modifies this, symbols
      ensures symbols.Valid()
      ensures stores == old(stores) + Stores(t, c, offset, modes)
      decreases c, 1
    {
      match c {
        case SingleValue(v) => stores := stores + [(offset, v)];
        case Aggregate(_) => InitialAggregate(t, c, offset);
        case DataSequence(_) => InitialData(t, c, offset);
        case OtherData =>
      }
    }

    method InitialAggregate(t: Type, c: Constant, offset: nat)
      requires symbols.Valid() && c.Aggregate? && HasType(c, t)
      modifies this, symbols
      ensures symbols.Valid()
      ensures stores == old(stores) + Stores(t, c, offset, modes)
      decreases c, 0
    {
      var i := 0;
      while i < |c.ops|
        invariant 0 <= i <= |c.ops| && symbols.Valid()
        invariant stores == old(stores) + StoresTo(t, c.ops, i, offset, modes)
      {
        var off := FlattenedElemIdx(t, i);
        InitialGlobal(Component(t, i), c.ops[i], offset + off);
        i := i + 1;
      }
    }

    method InitialData(t: Type, c: Constant, offset: nat)
      requires symbols.Valid() && c.DataSequence? && HasType(c, t)
      modifies this, symbols
      ensures symbols.Valid()
      ensures stores == old(stores) + Stores(t, c, offset, modes)
    {
      if modes.consts {
        var i := 0;
        while i < |c.elements|
          invariant 0 <= i <= |c.elements| && symbols.Valid()
          invariant stores == old(stores) + DataTo(t, c.elements, i, offset, modes)
        {
          var off := FlattenedElemIdx(t, i);
          stores := stores + [(offset + off, c.elements[i])];
          i := i + 1;
        }
      }
    }
  }

  // ------------------------------------------------------------------- what ends up where

  /** No part of the initialiser is abbreviated (data sequences count only when they are modelled). */
  predicate Explicit(c: Constant, consts: bool) {
    match c
    case SingleValue(_) => true
    case Aggregate(ops) => forall i | 0 <= i < |ops| :: Explicit(ops[i], consts)
    case DataSequence(_) => consts
    case OtherData => false
  }

  ghost predicate PartOf(part: Constant, c: Constant) {
    part == c || (c.Aggregate? && exists i :: 0 <= i < |c.ops| && PartOf(part, c.ops[i]))
  }

  /** That is: none of its parts is a zero or undefined aggregate, or a data array that is not modelled. */
  lemma {:induction false} ExplicitMeans(c: Constant, consts: bool)
    ensures Explicit(c, consts) <==>
            forall part | PartOf(part, c) :: part != OtherData && (part.DataSequence? ==> consts)
  {
    assert PartOf(c, c);
    if c.Aggregate? {
      forall i | 0 <= i < |c.ops|
        ensures Explicit(c.ops[i], consts) <==>
                forall part | PartOf(part, c.ops[i]) :: part != OtherData && (part.DataSequence? ==> consts)
        ensures forall part | PartOf(part, c.ops[i]) :: PartOf(part, c)
      {
        ExplicitMeans(c.ops[i], consts);
      }
    }
  }

  /** The constant at a leaf path. */
  function ValueAt(t: Type, c: Constant, path: seq<nat>): nat
    requires HasType(c, t) && LeafPath(t, path)
    decreases c
  {
    match c
    case SingleValue(v) => v
    case Aggregate(ops) => ValueAt(Component(t, path[0]), ops[path[0]], path[1..])
    case DataSequence(es) => es[path[0]]
    case OtherData => 0
  }

  /** The stores `s` belong to the flat positions of `t` from the first on: each goes to the offset of the
      path to its position and holds the constant that belongs there. */
  ghost predicate Fills(t: Type, c: Constant, offset: nat, s: seq<Store>, n: nat, arrays: bool)
    requires HasType(c, t)
  {
    && |s| == n <= Width(t)
    && forall k: nat | k < n :: FillsAt(t, c, offset, s[k], k, arrays)
  }

  ghost predicate FillsAt(t: Type, c: Constant, offset: nat, st: Store, k: nat, arrays: bool)
    requires HasType(c, t) && k < Width(t)
  {
    && PathAt(t, k).Some? && LeafPath(t, PathAt(t, k).value)
    && st == (offset + Offset(t, PathAt(t, k).value, arrays), ValueAt(t, c, PathAt(t, k).value))
  }

  /** The start of component i, or the end of the layout for i one past the last. */
  function Border(t: Type, i: nat): nat
    requires i <= ComponentCount(t)
  {
    if t.Array? then Rows(i, Width(t.elem)) else if t.Struct? then |FlatTo(t.fields, i)| else 0
  }

  lemma BorderSteps(t: Type, i: nat)
    requires i < ComponentCount(t)
    ensures Border(t, i) == CompStart(t, i) && Border(t, i + 1) == CompStart(t, i) + Width(Component(t, i))
    ensures Border(t, 0) == 0 && Border(t, ComponentCount(t)) == Width(t)
  {
  }

  /** A position inside component i holds what the component's own initialiser puts there. */
  lemma ComponentFillsAt(t: Type, ops: seq<Constant>, offset: nat, i: nat, st: Store, k: nat, arrays: bool)
    requires HasType(Aggregate(ops), t) && i < |ops| && k < Width(Component(t, i))
    requires FillsAt(Component(t, i), ops[i], offset + Start(t, i, arrays), st, k, arrays)
    ensures CompStart(t, i) + k < Width(t) && FillsAt(t, Aggregate(ops), offset, st, CompStart(t, i) + k, arrays)
  {
    var p := PathAt(Component(t, i), k).value;
    FoundThrough(t, i, k, p);
    assert ([i] + p)[1..] == p;
  }

  /** All positions inside component i. */
  lemma ComponentFillsFrom(t: Type, ops: seq<Constant>, offset: nat, i: nat, s: seq<Store>, start: nat, arrays: bool)
    requires HasType(Aggregate(ops), t) && i < |ops| && start == CompStart(t, i)
    requires Fills(Component(t, i), ops[i], offset + Start(t, i, arrays), s, Width(Component(t, i)), arrays)
    ensures start + |s| <= Width(t)
    ensures forall k: nat | k < |s| :: FillsAt(t, Aggregate(ops), offset, s[k], start + k, arrays)
  {
    ComponentFits(t, i);
    forall k: nat | k < |s| ensures FillsAt(t, Aggregate(ops), offset, s[k], start + k, arrays) {
      ComponentFillsAt(t, ops, offset, i, s[k], k, arrays);
    }
  }

  /** Filling one more component. */
  lemma FillsNext(t: Type, ops: seq<Constant>, offset: nat, i: nat, s: seq<Store>, s': seq<Store>,
                  now: seq<Store>, arrays: bool)
    requires HasType(Aggregate(ops), t) && i < |ops| && now == s + s'
    requires Fills(t, Aggregate(ops), offset, s, Border(t, i), arrays)
    requires Fills(Component(t, i), ops[i], offset + Start(t, i, arrays), s', Width(Component(t, i)), arrays)
    ensures Fills(t, Aggregate(ops), offset, now, Border(t, i + 1), arrays)
  {
    BorderSteps(t, i);
    ComponentFillsFrom(t, ops, offset, i, s', |s|, arrays);
    FillsConcat(t, Aggregate(ops), offset, s, s', arrays);
  }

  lemma FillsConcat(t: Type, c: Constant, offset: nat, s: seq<Store>, s': seq<Store>, arrays: bool)
    requires HasType(c, t) && Fills(t, c, offset, s, |s|, arrays) && |s| + |s'| <= Width(t)
    requires forall k: nat | k < |s'| :: FillsAt(t, c, offset, s'[k], |s| + k, arrays)
    ensures Fills(t, c, offset, s + s', |s| + |s'|, arrays)
  {
    forall k: nat | k < |s + s'| ensures FillsAt(t, c, offset, (s + s')[k], k, arrays) {
      if k >= |s| {
        assert FillsAt(t, c, offset, s'[k - |s|], |s| + (k - |s|), arrays);
      }
    }
  }

  lemma StoresToNext(t: Type, ops: seq<Constant>, i: nat, offset: nat, m: Modes)
    requires HasType(Aggregate(ops), t) && i < |ops|
    ensures StoresTo(t, ops, i + 1, offset, m) ==
            StoresTo(t, ops, i, offset, m) + Stores(Component(t, i), ops[i], offset + Start(t, i, m.arrays), m)
  {
  }

  /** One more component, once its own stores are known to be right. */
  lemma AggregateFillsNext(t: Type, ops: seq<Constant>, i: nat, offset: nat, m: Modes)
    requires HasType(Aggregate(ops), t) && i < |ops|
    requires Fills(t, Aggregate(ops), offset, StoresTo(t, ops, i, offset, m), Border(t, i), m.arrays)
    requires var c, at := Component(t, i), offset + Start(t, i, m.arrays);
             Fills(c, ops[i], at, Stores(c, ops[i], at, m), Width(c), m.arrays)
    ensures Fills(t, Aggregate(ops), offset, StoresTo(t, ops, i + 1, offset, m), Border(t, i + 1), m.arrays)
  {
    var s := Stores(Component(t, i), ops[i], offset + Start(t, i, m.arrays), m);
    StoresToNext(t, ops, i, offset, m);
    FillsNext(t, ops, offset, i, StoresTo(t, ops, i, offset, m), s, StoresTo(t, ops, i + 1, offset, m), m.arrays);
  }

  lemma {:induction false} AggregateFills(t: Type, ops: seq<Constant>, i: nat, offset: nat, m: Modes)
    requires HasType(Aggregate(ops), t) && i <= |ops|
    requires forall j | 0 <= j < |ops| :: Explicit(ops[j], m.consts)
    ensures Fills(t, Aggregate(ops), offset, StoresTo(t, ops, i, offset, m), Border(t, i), m.arrays)
    decreases ops, i
  {
    if i > 0 {
      AggregateFills(t, ops, i - 1, offset, m);
      StoresFollowPositions(Component(t, i - 1), ops[i - 1], offset + Start(t, i - 1, m.arrays), m);
      AggregateFillsNext(t, ops, i - 1, offset, m);
    }
  }

  /** A scalar element of a data array. */
  lemma ElementFillsAt(t: Type, es: seq<nat>, offset: nat, i: nat, arrays: bool)
    requires HasType(DataSequence(es), t) && i < |es|
    ensures CompStart(t, i) < Width(t)
    ensures FillsAt(t, DataSequence(es), offset, (offset + Start(t, i, arrays), es[i]), CompStart(t, i), arrays)
  {
    FoundThrough(t, i, 0, []);
    assert [i] + [] == [i] && [i][1..] == [];
    assert PathAt(t, CompStart(t, i)) == Some([i]);
    FoundIsLeafPath(t, CompStart(t, i));
  }

  lemma DataFillsNext(t: Type, es: seq<nat>, offset: nat, i: nat, s: seq<Store>, arrays: bool)
    requires HasType(DataSequence(es), t) && i < |es|
    requires Fills(t, DataSequence(es), offset, s, Border(t, i), arrays)
    ensures Fills(t, DataSequence(es), offset, s + [(offset + Start(t, i, arrays), es[i])], Border(t, i + 1), arrays)
  {
    BorderSteps(t, i);
    ElementFillsAt(t, es, offset, i, arrays);
    var s' := [(offset + Start(t, i, arrays), es[i])];
    FillsConcat(t, DataSequence(es), offset, s, s', arrays);
  }

  lemma {:induction false} DataFills(t: Type, es: seq<nat>, i: nat, offset: nat, m: Modes)
    requires HasType(DataSequence(es), t) && i <= |es|
    ensures Fills(t, DataSequence(es), offset, DataTo(t, es, i, offset, m), Border(t, i), m.arrays)
  {
    if i > 0 {
      DataFills(t, es, i - 1, offset, m);
      DataFillsNext(t, es, offset, i - 1, DataTo(t, es, i - 1, offset, m), m.arrays);
    }
  }

  /** In either mode the k-th store of a fully explicit initialiser is the one for flat position k: it goes
      to the offset of the path there and holds the constant at that path. */
  lemma {:induction false} StoresFollowPositions(t: Type, c: Constant, offset: nat, m: Modes)
    requires HasType(c, t) && Explicit(c, m.consts)
    ensures Fills(t, c, offset, Stores(t, c, offset, m), Width(t), m.arrays)
    decreases c
  {
    match c
    case SingleValue(v) =>
    case Aggregate(ops) =>
      AggregateFills(t, ops, |ops|, offset, m);
      if |ops| > 0 {
        BorderSteps(t, |ops| - 1);
      }
    case DataSequence(es) =>
      DataFills(t, es, |es|, offset, m);
      if |es| > 0 {
        BorderSteps(t, |es| - 1);
      }
  }

  /** MAIN RESULT, with arrays modelled: the stores of a fully explicit initialiser reach every flat offset
      0..n-1 exactly once and in order, each with the constant at the path found there. */
  lemma InitializerFillsLayout(t: Type, c: Constant, offset: nat, m: Modes)
    requires HasType(c, t) && Explicit(c, m.consts) && m.arrays
    ensures |Stores(t, c, offset, m)| == Width(t)
    ensures forall k: nat | k < Width(t) ::
              PathAt(t, k).Some? && LeafPath(t, PathAt(t, k).value) &&
              Stores(t, c, offset, m)[k] == (offset + k, ValueAt(t, c, PathAt(t, k).value))
  {
    StoresFollowPositions(t, c, offset, m);
    var s := Stores(t, c, offset, m);
    forall k: nat | k < Width(t)
      ensures PathAt(t, k).Some? && LeafPath(t, PathAt(t, k).value) &&
              s[k] == (offset + k, ValueAt(t, c, PathAt(t, k).value))
    {
      assert FillsAt(t, c, offset, s[k], k, true);
      FoundIsLeafPath(t, k);
    }
  }

  /** MAIN RESULT: the constant at a leaf path is stored at the offset a GEP computes for that path, in
      either mode. */
  lemma InitializerAgreesWithGep(t: Type, c: Constant, m: Modes, path: seq<nat>)
    requires HasType(c, t) && Explicit(c, m.consts) && LeafPath(t, path) && Below32(path)
    ensures var s, k := Stores(t, c, 0, m), PathOffset(t, path);
            k < |s| && s[k] == (IndicesOffset(t, GepIndices(t, path, m.arrays), m.arrays), ValueAt(t, c, path))
  {
    StoresFollowPositions(t, c, 0, m);
    GepComputesPathOffset(t, path, m.arrays);
    LeafPathFound(t, path);
    assert FillsAt(t, c, 0, Stores(t, c, 0, m)[PathOffset(t, path)], PathOffset(t, path), m.arrays);
  }

  /** MAIN RESULT: what else is stored at that offset: nothing with arrays modelled, and otherwise exactly
      the constants at paths that differ in array indices. */
  lemma StoresMeetExactlyWhen(t: Type, c: Constant, m: Modes, p: seq<nat>, q: seq<nat>)
    requires HasType(c, t) && Explicit(c, m.consts) && LeafPath(t, p) && LeafPath(t, q)
    ensures PathOffset(t, p) < |Stores(t, c, 0, m)| && PathOffset(t, q) < |Stores(t, c, 0, m)|
    ensures Stores(t, c, 0, m)[PathOffset(t, p)].0 == Stores(t, c, 0, m)[PathOffset(t, q)].0 <==>
            if m.arrays then p == q else SameFields(t, p, q)
  {
    StoresFollowPositions(t, c, 0, m);
    LeafPathFound(t, p);
    LeafPathFound(t, q);
    var s := Stores(t, c, 0, m);
    assert FillsAt(t, c, 0, s[PathOffset(t, p)], PathOffset(t, p), m.arrays);
    assert FillsAt(t, c, 0, s[PathOffset(t, q)], PathOffset(t, q), m.arrays);
    FieldOffsetsAgreeExactlyWhen(t, p, q);
  }

  function GepIndices(t: Type, path: seq<nat>, arrays: bool): (ops: seq<Operand>)
    requires ValidPath(t, path) && Below32(path)
    ensures ValidIndices(t, ops, arrays)
  {
    GepComputesPathOffset(t, path, arrays);
    Indices(path)
  }

  // ------------------------------------------------------------------- abbreviated initialisers

  /** The initialiser spells out the constant at the path: it is in no zero or undefined aggregate, nor in a
      data array when constants are not modelled. */
  predicate Given(t: Type, c: Constant, path: seq<nat>, consts: bool)
    requires HasType(c, t) && ValidPath(t, path)
    decreases c
  {
    match c
    case SingleValue(_) => true
    case Aggregate(ops) => path != [] && Given(Component(t, path[0]), ops[path[0]], path[1..], consts)
    case DataSequence(_) => consts
    case OtherData => false
  }

  /** `st` is what the constant at the path calls for. */
  ghost predicate Places(t: Type, c: Constant, offset: nat, m: Modes, st: Store, path: seq<nat>)
    requires HasType(c, t)
  {
    && LeafPath(t, path) && Given(t, c, path, m.consts)
    && st == (offset + Offset(t, path, m.arrays), ValueAt(t, c, path))
  }

  ghost predicate CalledFor(t: Type, c: Constant, offset: nat, m: Modes, st: Store)
    requires HasType(c, t)
  {
    exists path :: Places(t, c, offset, m, st, path)
  }

  /** The same of component j of an aggregate. */
  ghost predicate ComponentCallsFor(t: Type, ops: seq<Constant>, j: nat, offset: nat, m: Modes, st: Store)
    requires HasType(Aggregate(ops), t) && j < |ops|
  {
    CalledFor(Component(t, j), ops[j], offset + Start(t, j, m.arrays), m, st)
  }

  ghost predicate ComponentStores(t: Type, ops: seq<Constant>, j: nat, offset: nat, m: Modes, st: Store)
    requires HasType(Aggregate(ops), t) && j < |ops|
  {
    st in Stores(Component(t, j), ops[j], offset + Start(t, j, m.arrays), m)
  }

  lemma {:induction false} InStoresTo(t: Type, ops: seq<Constant>, i: nat, offset: nat, m: Modes, st: Store)
    requires HasType(Aggregate(ops), t) && i <= |ops|
    ensures st in StoresTo(t, ops, i, offset, m) <==>
            exists j: nat :: j < i && ComponentStores(t, ops, j, offset, m, st)
    decreases i
  {
    if i > 0 {
      InStoresTo(t, ops, i - 1, offset, m, st);
      StoresToNext(t, ops, i - 1, offset, m);
      assert st in StoresTo(t, ops, i, offset, m) <==>
             st in StoresTo(t, ops, i - 1, offset, m) || ComponentStores(t, ops, i - 1, offset, m, st);
    }
  }

  lemma {:induction false} InDataTo(t: Type, es: seq<nat>, i: nat, offset: nat, m: Modes, st: Store)
    requires HasType(DataSequence(es), t) && i <= |es|
    ensures st in DataTo(t, es, i, offset, m) <==>
            exists j: nat :: j < i && st == (offset + Start(t, j, m.arrays), es[j])
    decreases i
  {
    if i > 0 {
      InDataTo(t, es, i - 1, offset, m, st);
    }
  }

  /** MAIN RESULT: what is stored for any initialiser, abbreviated or not, is exactly what the constants it
      spells out call for, each at the offset of its path. */
  lemma {:induction false} StoredExactly(t: Type, c: Constant, offset: nat, m: Modes, st: Store)
    requires HasType(c, t)
    ensures st in Stores(t, c, offset, m) <==> CalledFor(t, c, offset, m, st)
    decreases c
  {
    match c
    case SingleValue(v) =>
      if st == (offset, v) {
        assert Places(t, c, offset, m, st, []);
      }
    case Aggregate(ops) =>
      InStoresTo(t, ops, |ops|, offset, m, st);
      forall j: nat | j < |ops|
        ensures ComponentStores(t, ops, j, offset, m, st) <==> ComponentCallsFor(t, ops, j, offset, m, st)
      {
        StoredExactly(Component(t, j), ops[j], offset + Start(t, j, m.arrays), m, st);
      }
      AggregateCallsFor(t, ops, offset, m, st);
    case DataSequence(es) =>
      InDataTo(t, es, |es|, offset, m, st);
      DataCallsFor(t, es, offset, m, st);
    case OtherData =>
  }

  lemma AggregateCallsFor(t: Type, ops: seq<Constant>, offset: nat, m: Modes, st: Store)
    requires HasType(Aggregate(ops), t)
    ensures CalledFor(t, Aggregate(ops), offset, m, st) <==>
            exists j: nat :: j < |ops| && ComponentCallsFor(t, ops, j, offset, m, st)
  {
    if path :| Places(t, Aggregate(ops), offset, m, st, path) {
      PlacesInside(t, ops, offset, m, st, path);
    }
    if j: nat :| j < |ops| && ComponentCallsFor(t, ops, j, offset, m, st) {
      var rest :| Places(Component(t, j), ops[j], offset + Start(t, j, m.arrays), m, st, rest);
      PlacesBelow(t, ops, offset, m, st, j, rest);
    }
  }

  lemma PlacesInside(t: Type, ops: seq<Constant>, offset: nat, m: Modes, st: Store, path: seq<nat>)
    requires HasType(Aggregate(ops), t) && Places(t, Aggregate(ops), offset, m, st, path)
    ensures path != [] && path[0] < |ops| && ComponentCallsFor(t, ops, path[0], offset, m, st)
  {
    assert Places(Component(t, path[0]), ops[path[0]], offset + Start(t, path[0], m.arrays), m, st, path[1..]);
  }

  lemma PlacesBelow(t: Type, ops: seq<Constant>, offset: nat, m: Modes, st: Store, j: nat, rest: seq<nat>)
    requires HasType(Aggregate(ops), t) && j < |ops|
    requires Places(Component(t, j), ops[j], offset + Start(t, j, m.arrays), m, st, rest)
    ensures Places(t, Aggregate(ops), offset, m, st, [j] + rest)
  {
    assert ([j] + rest)[1..] == rest;
  }

  lemma DataCallsFor(t: Type, es: seq<nat>, offset: nat, m: Modes, st: Store)
    requires HasType(DataSequence(es), t)
    ensures CalledFor(t, DataSequence(es), offset, m, st) <==>
            m.consts && exists j: nat :: j < |es| && st == (offset + Start(t, j, m.arrays), es[j])
  {
    forall j: nat | j < |es| ensures LeafPath(t, [j]) && Offset(t, [j], m.arrays) == Start(t, j, m.arrays) {
      ElementPath(t, [j], m.arrays);
    }
    if path :| Places(t, DataSequence(es), offset, m, st, path) {
      ElementPath(t, path, m.arrays);
    }
    if j: nat :| m.consts && j < |es| && st == (offset + Start(t, j, m.arrays), es[j]) {
      assert Places(t, DataSequence(es), offset, m, st, [j]);
    }
  }

  /** The paths to the elements of an array of scalars. */
  lemma ElementPath(t: Type, path: seq<nat>, arrays: bool)
    requires t.Array? && t.elem.Scalar? && !Empty(t)
    ensures LeafPath(t, path) <==> |path| == 1 && path[0] < t.n
    ensures LeafPath(t, path) ==> Offset(t, path, arrays) == Start(t, path[0], arrays)
  {
    if path != [] {
      var rest := path[1..];
      assert ValidPath(t.elem, rest) <==> rest == [];
      assert rest == [] ==> SubType(t.elem, rest) == t.elem && Offset(t.elem, rest, arrays) == 0;
    }
  }
}
