/** GEP offsets and global initialisers (svf-llvm/lib/SVFIRBuilder.cpp) against the flattened layout. */
module GepOffset {
  import opened TypeFlattening
  import opened Words
  import opened Wrappers

  // -------------------------------------------------------------------- paths into a type

  /** Index `i` selects a component of `t` that has a place in the layout. */
  predicate InBounds(t: Type, i: nat) {
    match t
    case Scalar(_) => false
    case Array(n, _) => i < n && !Empty(t)
    case Struct(fs) => i < |fs|
  }

  function Component(t: Type, i: nat): (c: Type)
    requires InBounds(t, i)
    ensures c < t
  {
    if t.Array? then t.elem else t.fields[i]
  }

  predicate ValidPath(t: Type, path: seq<nat>)
    decreases t
  {
    path == [] || (InBounds(t, path[0]) && ValidPath(Component(t, path[0]), path[1..]))
  }

  function SubType(t: Type, path: seq<nat>): Type
    requires ValidPath(t, path)
    decreases t
  {
    if path == [] then t else SubType(Component(t, path[0]), path[1..])
  }

  /** Where component i starts among the flattened elements. */
  function CompStart(t: Type, i: nat): nat
    requires InBounds(t, i)
  {
    if t.Array? then Rows(i, Width(t.elem)) else |FlatTo(t.fields, i)|
  }

  /** Where it starts among the flattened fields: all elements of an array share one place. */
  function FieldStart(t: Type, i: nat): nat
    requires InBounds(t, i)
  {
    if t.Array? then 0 else |FieldsTo(t.fields, i)|
  }

  /** What getFlattenedElemIdx answers; `arrays` is Options::ModelArrays, off by default. */
  function Start(t: Type, i: nat, arrays: bool): nat
    requires InBounds(t, i)
  {
    if arrays then CompStart(t, i) else FieldStart(t, i)
  }

  lemma TablesHoldStarts(t: Type, i: nat)
    requires InBounds(t, i)
    ensures i < |ElemIdx(t)| && ElemIdx(t)[i] == CompStart(t, i)
    ensures t.Struct? ==> i < |FldIdx(t)| && FldIdx(t)[i] == FieldStart(t, i)
  {
  }

  /** The sum of the per-level answers along a path. */
  function Offset(t: Type, path: seq<nat>, arrays: bool): nat
    requires ValidPath(t, path)
    decreases t
  {
    if path == [] then 0 else Start(t, path[0], arrays) + Offset(Component(t, path[0]), path[1..], arrays)
  }

  function PathOffset(t: Type, path: seq<nat>): nat
    requires ValidPath(t, path)
  {
    Offset(t, path, true)
  }

  function FieldOffset(t: Type, path: seq<nat>): nat
    requires ValidPath(t, path)
  {
    Offset(t, path, false)
  }

  // -------------------------------------------------- offsets address contiguous slices

  lemma {:induction false} FlatToAt(fs: seq<Type>, n: nat, i: nat)
    requires i < n <= |fs|
    ensures |FlatTo(fs, i)| + Width(fs[i]) <= |FlatTo(fs, n)|
    ensures FlatTo(fs, n)[|FlatTo(fs, i)|..|FlatTo(fs, i)| + Width(fs[i])] == Flat(fs[i])
  {
    if i < n - 1 {
      FlatToAt(fs, n - 1, i);
      var a, w := |FlatTo(fs, i)|, Width(fs[i]);
      assert FlatTo(fs, n)[a..a + w] == FlatTo(fs, n - 1)[a..a + w];
    }
  }

  lemma {:induction false} RepeatAt<T>(s: seq<T>, n: nat, i: nat)
    requires i < n
    ensures Rows(i, |s|) + |s| <= |Repeat(s, n)|
    ensures Repeat(s, n)[Rows(i, |s|)..Rows(i, |s|) + |s|] == s
  {
    if i > 0 {
      RepeatAt(s, n - 1, i - 1);
      assert Repeat(s, n)[Rows(i, |s|)..Rows(i, |s|) + |s|] ==
             Repeat(s, n - 1)[Rows(i - 1, |s|)..Rows(i - 1, |s|) + |s|];
    }
  }

  lemma ComponentSlice(t: Type, i: nat)
    requires InBounds(t, i)
    ensures CompStart(t, i) + Width(Component(t, i)) <= Width(t)
    ensures Flat(t)[CompStart(t, i)..CompStart(t, i) + Width(Component(t, i))] == Flat(Component(t, i))
  {
    if t.Array? {
      RepeatAt(Flat(t.elem), t.n, i);
    } else {
      FlatToAt(t.fields, |t.fields|, i);
    }
  }

  lemma ComponentFits(t: Type, i: nat)
    requires InBounds(t, i)
    ensures CompStart(t, i) + Width(Component(t, i)) <= Width(t)
  {
    ComponentSlice(t, i);
  }

  lemma SliceOfSlice<T>(s: seq<T>, a: nat, c: nat, b: nat, w: nat)
    requires a + c <= |s| && b + w <= c
    ensures s[a + b..a + b + w] == s[a..a + c][b..b + w]
  {
    var l, r := s[a + b..a + b + w], s[a..a + c][b..b + w];
    assert |l| == |r| && forall k | 0 <= k < w :: l[k] == r[k];
  }

  /** MAIN RESULT: the sum of the per-level indices is where the addressed sub-type's flattened elements
      sit, as one contiguous slice. */
  lemma {:induction false} OffsetAddressesSlice(t: Type, path: seq<nat>)
    requires ValidPath(t, path)
    ensures PathOffset(t, path) + Width(SubType(t, path)) <= Width(t)
    ensures Flat(t)[PathOffset(t, path)..PathOffset(t, path) + Width(SubType(t, path))] == Flat(SubType(t, path))
    decreases t
  {
    if path != [] {
      var c, rest := Component(t, path[0]), path[1..];
      ComponentSlice(t, path[0]);
      OffsetAddressesSlice(c, rest);
      SliceOfSlice(Flat(t), CompStart(t, path[0]), Width(c), PathOffset(c, rest), Width(SubType(c, rest)));
    }
  }

  // ------------------------------------------------------ leaf paths and flat positions

  predicate LeafPath(t: Type, path: seq<nat>) {
    ValidPath(t, path) && SubType(t, path).Scalar?
  }

  /** The component of a struct that covers flat position k. */
  function FieldAt(fs: seq<Type>, n: nat, k: nat): (i: nat)
    requires n <= |fs| && k < |FlatTo(fs, n)|
    ensures i < n && |FlatTo(fs, i)| <= k < |FlatTo(fs, i)| + Width(fs[i])
  {
    if k >= |FlatTo(fs, n - 1)| then n - 1 else FieldAt(fs, n - 1, k)
  }

  /** Component i of `t` covers flat position k. */
  predicate Covers(t: Type, i: nat, k: nat)
    requires InBounds(t, i)
  {
    CompStart(t, i) <= k < CompStart(t, i) + Width(Component(t, i))
  }

  /** The component of `t` that covers flat position k; there is none for the dummy of an empty array. */
  function IndexAt(t: Type, k: nat): (i: nat)
    requires k < Width(t) && !t.Scalar? && (t.Array? ==> !Empty(t))
    ensures InBounds(t, i) && Covers(t, i, k)
  {
    match t
    case Struct(fs) => FieldAt(fs, |fs|, k)
    case Array(n, e) =>
      assert Width(t) == Rows(n, Width(e));
      RowBounds(k, Width(e), n);
      k / Width(e)
  }

  lemma RowBounds(k: nat, w: nat, n: nat)
    requires k < Rows(n, w)
    ensures w > 0 && k / w < n && Rows(k / w, w) <= k < Rows(k / w, w) + w
  {
    RowsIsProduct(n, w);
    assert w > 0;
    var q := k / w;
    assert k == w * q + k % w;
    RowsIsProduct(q, w);
    assert w * n == n * w && q * w == w * q;
    if q >= n {
      Grows(w, n, q);
    }
  }

  function Prefixed(i: nat, p: Option<seq<nat>>): Option<seq<nat>> {
    if p.Some? then Some([i] + p.value) else None
  }

  function PathAt(t: Type, k: nat): Option<seq<nat>>
    requires k < Width(t)
  {
    if t.Scalar? then Some([])
    else if t.Array? && Empty(t) then None
    else
      var i := IndexAt(t, k);
      Prefixed(i, PathAt(Component(t, i), k - CompStart(t, i)))
  }

  /** Components do not overlap. */
  lemma OneIndex(t: Type, i: nat, j: nat, k: nat)
    requires InBounds(t, i) && InBounds(t, j) && Covers(t, i, k) && Covers(t, j, k)
    ensures i == j
  {
    if i < j {
      ComponentsAscend(t, i, j);
    } else if j < i {
      ComponentsAscend(t, j, i);
    }
  }

  lemma ComponentsAscend(t: Type, i: nat, j: nat)
    requires InBounds(t, i) && InBounds(t, j) && i < j
    ensures CompStart(t, i) + Width(Component(t, i)) <= CompStart(t, j)
  {
    if t.Array? {
      RowsMonotone(i, j, Width(t.elem));
    } else {
      FlatToAt(t.fields, j, i);
    }
  }

  /** Looking up a position goes through whichever component covers it. */
  lemma PathAtThrough(t: Type, i: nat, k: nat)
    requires InBounds(t, i) && Covers(t, i, k) && k < Width(t)
    ensures PathAt(t, k) == Prefixed(i, PathAt(Component(t, i), k - CompStart(t, i)))
  {
    var j := IndexAt(t, k);
    PathAtUnfolds(t, k, j);
    OneIndex(t, i, j, k);
  }

  lemma PathAtUnfolds(t: Type, k: nat, j: nat)
    requires k < Width(t) && !t.Scalar? && (t.Array? ==> !Empty(t)) && j == IndexAt(t, k)
    ensures PathAt(t, k) == Prefixed(j, PathAt(Component(t, j), k - CompStart(t, j)))
  {
  }

  lemma FoundThrough(t: Type, i: nat, k: nat, rest: seq<nat>)
    requires InBounds(t, i) && k < Width(Component(t, i)) && PathAt(Component(t, i), k) == Some(rest)
    ensures CompStart(t, i) + k < Width(t) && PathAt(t, CompStart(t, i) + k) == Some([i] + rest)
  {
    ComponentFits(t, i);
    PathAtThrough(t, i, CompStart(t, i) + k);
  }

  /** A leaf path is found at its offset. */
  lemma {:induction false} LeafPathFound(t: Type, path: seq<nat>)
    requires LeafPath(t, path)
    ensures PathOffset(t, path) < Width(t) && PathAt(t, PathOffset(t, path)) == Some(path)
    decreases t
  {
    if path != [] {
      var i, c, rest := path[0], Component(t, path[0]), path[1..];
      LeafPathFound(c, rest);
      FoundThrough(t, i, PathOffset(c, rest), rest);
      HeadAndRest(path);
    }
  }

  lemma HeadAndRest(path: seq<nat>)
    requires path != []
    ensures path == [path[0]] + path[1..]
  {
  }

  /** What is found at a position is a leaf path with that offset. */
  lemma {:induction false} FoundIsLeafPath(t: Type, k: nat)
    requires k < Width(t) && PathAt(t, k).Some?
    ensures LeafPath(t, PathAt(t, k).value) && PathOffset(t, PathAt(t, k).value) == k
    decreases t
  {
    if !t.Scalar? {
      var i := IndexAt(t, k);
      var c, k' := Component(t, i), k - CompStart(t, i);
      FoundIsLeafPath(c, k');
      assert ([i] + PathAt(c, k').value)[1..] == PathAt(c, k').value;
    }
  }

  /** MAIN RESULT: leaf paths map one-to-one to flat positions, and PathAt is the inverse. */
  lemma LeafPathsAreInjective(t: Type, path: seq<nat>, k: nat)
    requires k < Width(t)
    ensures LeafPath(t, path) && PathOffset(t, path) == k <==> PathAt(t, k) == Some(path)
  {
    if LeafPath(t, path) {
      LeafPathFound(t, path);
    }
    if PathAt(t, k).Some? {
      FoundIsLeafPath(t, k);
    }
  }

  /** No array without elements anywhere inside (behind no zero-length array). */
  predicate NoEmptyArray(t: Type) {
    match t
    case Scalar(_) => true
    case Array(_, e) => !Empty(t) && NoEmptyArray(e)
    case Struct(fs) => forall i | 0 <= i < |fs| :: NoEmptyArray(fs[i])
  }

  ghost predicate AllPositionsAreLeaves(t: Type) {
    forall k: nat | k < Width(t) :: PathAt(t, k).Some?
  }

  /** The leaf paths cover every flat position exactly when no array inside is empty. */
  lemma {:induction false} LeafPathsCoverExactlyWhen(t: Type)
    ensures NoEmptyArray(t) <==> AllPositionsAreLeaves(t)
  {
    match t
    case Scalar(_) =>
    case Array(n, e) =>
      LeafPathsCoverExactlyWhen(e);
      if Empty(t) {
        assert Width(t) == 1 && PathAt(t, 0) == None;
      } else {
        CoverArray(t);
      }
    case Struct(fs) =>
      forall i | 0 <= i < |fs| ensures NoEmptyArray(fs[i]) <==> AllPositionsAreLeaves(fs[i]) {
        LeafPathsCoverExactlyWhen(fs[i]);
      }
      CoverStruct(t);
  }

  /** An array without elements: its dummy element takes a position that no path leads to. */
  lemma EmptyArrayHasNoLeaf(id: nat, path: seq<nat>)
    ensures var t := Array(0, Scalar(id)); Width(t) == 1 && PathAt(t, 0) == None && !LeafPath(t, path)
  {
  }

  lemma CoverArray(t: Type)
    requires t.Array? && !Empty(t)
    ensures AllPositionsAreLeaves(t) <==> AllPositionsAreLeaves(t.elem)
  {
    assert t.n > 0 && InBounds(t, 0);
    if AllPositionsAreLeaves(t) {
      CoveredComponent(t, 0);
    }
    if AllPositionsAreLeaves(t.elem) {
      CoveredBy(t);
    }
  }

  lemma CoverStruct(t: Type)
    requires t.Struct?
    ensures AllPositionsAreLeaves(t) <==> forall i | 0 <= i < |t.fields| :: AllPositionsAreLeaves(t.fields[i])
  {
    if AllPositionsAreLeaves(t) {
      forall i | 0 <= i < |t.fields| ensures AllPositionsAreLeaves(t.fields[i]) {
        assert InBounds(t, i);
        CoveredComponent(t, i);
      }
    }
    if forall i | 0 <= i < |t.fields| :: AllPositionsAreLeaves(t.fields[i]) {
      CoveredBy(t);
    }
  }

  lemma CoveredComponent(t: Type, i: nat)
    requires InBounds(t, i) && AllPositionsAreLeaves(t)
    ensures AllPositionsAreLeaves(Component(t, i))
  {
    ComponentFits(t, i);
    forall k: nat | k < Width(Component(t, i)) ensures PathAt(Component(t, i), k).Some? {
      PathAtThrough(t, i, CompStart(t, i) + k);
      assert PathAt(t, CompStart(t, i) + k).Some?;
    }
  }

  lemma CoveredBy(t: Type)
    requires !t.Scalar? && (t.Array? ==> !Empty(t))
    requires forall i: nat | InBounds(t, i) :: AllPositionsAreLeaves(Component(t, i))
    ensures AllPositionsAreLeaves(t)
  {
    forall k: nat | k < Width(t) ensures PathAt(t, k).Some? {
      var i := IndexAt(t, k);
      assert AllPositionsAreLeaves(Component(t, i));
    }
  }

  // ------------------------------------------------------------------ with arrays not modelled

  lemma {:induction false} FieldsToAt(fs: seq<Type>, n: nat, i: nat)
    requires i < n <= |fs|
    ensures |FieldsTo(fs, i)| + |Fields(fs[i])| <= |FieldsTo(fs, n)|
    ensures FieldsTo(fs, n)[|FieldsTo(fs, i)|..|FieldsTo(fs, i)| + |Fields(fs[i])|] == Fields(fs[i])
  {
    if i < n - 1 {
      FieldsToAt(fs, n - 1, i);
      var a, w := |FieldsTo(fs, i)|, |Fields(fs[i])|;
      assert FieldsTo(fs, n)[a..a + w] == FieldsTo(fs, n - 1)[a..a + w];
    }
  }

  lemma FieldSlice(t: Type, i: nat)
    requires InBounds(t, i)
    ensures FieldStart(t, i) + |Fields(Component(t, i))| <= |Fields(t)|
    ensures Fields(t)[FieldStart(t, i)..FieldStart(t, i) + |Fields(Component(t, i))|] == Fields(Component(t, i))
  {
    if t.Struct? {
      FieldsToAt(t.fields, |t.fields|, i);
    }
  }

  /** What the tables of a type mean: entry i is where component i sits, as one slice of the flattened
      elements, and for a struct as one slice of the flattened fields. */
  lemma TablesAddressComponents(t: Type, i: nat)
    requires InBounds(t, i)
    ensures i < |ElemIdx(t)| && ElemIdx(t)[i] + Width(Component(t, i)) <= Width(t)
    ensures Flat(t)[ElemIdx(t)[i]..ElemIdx(t)[i] + Width(Component(t, i))] == Flat(Component(t, i))
    ensures t.Struct? ==>
              && i < |FldIdx(t)| && FldIdx(t)[i] + |Fields(Component(t, i))| <= |Fields(t)|
              && Fields(t)[FldIdx(t)[i]..FldIdx(t)[i] + |Fields(Component(t, i))|] == Fields(Component(t, i))
  {
    TablesHoldStarts(t, i);
    ComponentSlice(t, i);
    FieldSlice(t, i);
  }

  /** MAIN RESULT for the default mode: the sum of the per-level indices is where the addressed sub-type's
      flattened fields sit, as one contiguous slice. */
  lemma {:induction false} FieldOffsetAddressesSlice(t: Type, path: seq<nat>)
    requires ValidPath(t, path)
    ensures FieldOffset(t, path) + |Fields(SubType(t, path))| <= |Fields(t)|
    ensures Fields(t)[FieldOffset(t, path)..FieldOffset(t, path) + |Fields(SubType(t, path))|] ==
            Fields(SubType(t, path))
    decreases t
  {
    if path != [] {
      var c, rest := Component(t, path[0]), path[1..];
      FieldSlice(t, path[0]);
      FieldOffsetAddressesSlice(c, rest);
      SliceOfSlice(Fields(t), FieldStart(t, path[0]), |Fields(c)|, FieldOffset(c, rest), |Fields(SubType(c, rest))|);
    }
  }

  /** The two paths go through the same struct fields; array indices may differ. */
  predicate SameFields(t: Type, p: seq<nat>, q: seq<nat>)
    requires ValidPath(t, p) && ValidPath(t, q)
    decreases t
  {
    if p == [] || q == [] then p == q
    else (t.Struct? ==> p[0] == q[0]) && Component(t, p[0]) == Component(t, q[0]) &&
         SameFields(Component(t, p[0]), p[1..], q[1..])
  }

  /** MAIN RESULT: without modelled arrays two paths to scalars share their offset if and only if they
      differ in array indices only. */
  lemma {:induction false} FieldOffsetsAgreeExactlyWhen(t: Type, p: seq<nat>, q: seq<nat>)
    requires LeafPath(t, p) && LeafPath(t, q)
    ensures FieldOffset(t, p) == FieldOffset(t, q) <==> SameFields(t, p, q)
    decreases t
  {
    if p != [] && q != [] {
      var i, j := p[0], q[0];
      if t.Array? || i == j {
        FieldOffsetsAgreeExactlyWhen(Component(t, i), p[1..], q[1..]);
      } else {
        LeafInField(t, p);
        LeafInField(t, q);
        if i < j {
          FieldsToAt(t.fields, j, i);
        } else {
          FieldsToAt(t.fields, i, j);
        }
      }
    }
  }

  /** The offset of a scalar lies in the range of the field it is reached through. */
  lemma LeafInField(t: Type, p: seq<nat>)
    requires LeafPath(t, p) && p != []
    ensures FieldStart(t, p[0]) <= FieldOffset(t, p) < FieldStart(t, p[0]) + |Fields(Component(t, p[0]))|
  {
    FieldOffsetAddressesSlice(Component(t, p[0]), p[1..]);
  }

  // ------------------------------------------------------------------ computeGepOffset

  datatype Operand = ConstantInt(v: int) | NonConstant

  /** The offset operand of an array level is dropped: not constant, or beyond the array. */
  predicate Dropped(t: Type, op: Operand)
    requires t.Array?
  {
    op.NonConstant? || t.n <= U32(op.v)
  }

  /** What LLVM guarantees for an operand behind the pointer, and the assertion on table bounds. */
  predicate ValidIndex(t: Type, op: Operand, arrays: bool) {
    match t
    case Scalar(_) => false
    case Array(_, _) => Dropped(t, op) || !arrays || U32(op.v) < |ElemIdx(t)|
    case Struct(fs) => op.ConstantInt? && 0 <= op.v < |fs|
  }

  /** What one level contributes. */
  function LevelOffset(t: Type, op: Operand, arrays: bool): nat
    requires ValidIndex(t, op, arrays)
  {
    if t.Array? then if Dropped(t, op) || !arrays then 0 else ElemIdx(t)[U32(op.v)]
    else if arrays then ElemIdx(t)[op.v] else FldIdx(t)[op.v]
  }

  function Indexed(t: Type, op: Operand): (c: Type)
    requires ValidIndex(t, op, false)
    ensures c < t
  {
    if t.Array? then t.elem else t.fields[op.v]
  }

  predicate ValidIndices(t: Type, ops: seq<Operand>, arrays: bool)
    decreases t
  {
    ops == [] || (ValidIndex(t, ops[0], arrays) && ValidIndices(Indexed(t, ops[0]), ops[1..], arrays))
  }

  /** The sum over all levels. */
  function IndicesOffset(t: Type, ops: seq<Operand>, arrays: bool): nat
    requires ValidIndices(t, ops, arrays)
    decreases t
  {
    if ops == [] then 0 else LevelOffset(t, ops[0], arrays) + IndicesOffset(Indexed(t, ops[0]), ops[1..], arrays)
  }

  /** getFlattenedElemIdx: looks into one of the two tables, whose bounds it asserts; any element of an
      array that is not modelled is its base. */
  method GetFlattenedElemIdx(symbols: LLVMModuleSet, t: Type, origId: nat, arrays: bool) returns (idx: nat)
    requires symbols.Valid() && !t.Scalar?
    requires arrays ==> origId < |ElemIdx(t)|
    requires t.Struct? ==> origId < |FldIdx(t)|
    modifies symbols
    ensures symbols.Valid()
    ensures idx == if arrays then ElemIdx(t)[origId] else if t.Struct? then FldIdx(t)[origId] else 0
  {
    var info := symbols.CollectTypeInfo(t);
    if arrays {
      idx := info.elemIdxVec[origId];
    } else if t.Struct? {
      idx := info.fldIdxVec[origId];
    } else {
      idx := 0;
    }
  }

  method ReadLevel(symbols: LLVMModuleSet, t: Type, op: Operand, arrays: bool) returns (off: nat)
    requires symbols.Valid() && ValidIndex(t, op, arrays)
    modifies symbols
    ensures symbols.Valid() && off == LevelOffset(t, op, arrays)
  {
    off := 0;
    if t.Array? {
      if !Dropped(t, op) {
        off := GetFlattenedElemIdx(symbols, t, U32(op.v), arrays);
      }
    } else {
      off := GetFlattenedElemIdx(symbols, t, op.v, arrays);
    }
  }

  lemma NextOperand(t: Type, ops: seq<Operand>, k: nat, arrays: bool)
    requires k < |ops| && ValidIndices(t, ops[k..], arrays)
    ensures ValidIndex(t, ops[k], arrays) && ValidIndices(Indexed(t, ops[k]), ops[k + 1..], arrays)
    ensures IndicesOffset(t, ops[k..], arrays) ==
            LevelOffset(t, ops[k], arrays) + IndicesOffset(Indexed(t, ops[k]), ops[k + 1..], arrays)
  {
    assert ops[k..] != [] && ops[k..][0] == ops[k] && ops[k..][1..] == ops[k + 1..];
  }

  /** The walk over (indexed type, operand) pairs. The first operand steps over the pointer and never
      contributes; it alone decides whether the offset counts as constant. */
  method ComputeGepOffset(symbols: LLVMModuleSet, source: Type, ops: seq<Operand>, arrays: bool)
    returns (fldIdx: nat, isConst: bool)
    requires symbols.Valid() && |ops| > 0 && ValidIndices(source, ops[1..], arrays)
    modifies symbols
    ensures symbols.Valid()
    ensures fldIdx == IndicesOffset(source, ops[1..], arrays)
    ensures isConst <==> !(ops[0].NonConstant? && source.Scalar?)
  {
    isConst := true;
    fldIdx := 0;
    if ops[0].NonConstant? && source.Scalar? {
      isConst := false;
    }
    var gepTy := source;
    var k := 1;
    while k < |ops|
      invariant 1 <= k <= |ops| && symbols.Valid() && ValidIndices(gepTy, ops[k..], arrays)
      invariant fldIdx + IndicesOffset(gepTy, ops[k..], arrays) == IndicesOffset(source, ops[1..], arrays)
    {
      NextOperand(gepTy, ops, k, arrays);
      var off := ReadLevel(symbols, gepTy, ops[k], arrays);
      fldIdx := fldIdx + off;
      gepTy := Indexed(gepTy, ops[k]);
      k := k + 1;
    }
    assert ops[k..] == [];
  }

  function Indices(path: seq<nat>): seq<Operand> {
    seq(|path|, i requires 0 <= i < |path| => ConstantInt(path[i]))
  }

  predicate Below32(path: seq<nat>) {
    forall k | 0 <= k < |path| :: path[k] < 0x1_0000_0000
  }

  /** MAIN RESULT: a GEP whose operands are constant and in range computes the offset of its path, in
      either mode. */
  lemma {:induction false} GepComputesPathOffset(t: Type, path: seq<nat>, arrays: bool)
    requires ValidPath(t, path) && Below32(path)
    ensures ValidIndices(t, Indices(path), arrays) && IndicesOffset(t, Indices(path), arrays) == Offset(t, path, arrays)
    decreases t
  {
    if path != [] {
      var c, rest := Component(t, path[0]), path[1..];
      assert Indices(path)[1..] == Indices(rest);
      TablesHoldStarts(t, path[0]);
      GepComputesPathOffset(c, rest, arrays);
    }
  }

  /** The component that an operand selects: its low 32 bits count an array's elements, and the first
      element stands for a variable or for a number that is none of theirs. */
  ghost predicate Selects(t: Type, op: Operand, i: nat) {
    match t
    case Scalar(_) => false
    case Struct(_) => op == ConstantInt(i)
    case Array(n, _) =>
      || (i < n && ElementNumber(op, i))
      || (i == 0 && forall k: nat | k < n :: !ElementNumber(op, k))
  }

  ghost predicate ElementNumber(op: Operand, k: nat) {
    op.ConstantInt? && k < 0x1_0000_0000 && (op.v - k) % 0x1_0000_0000 == 0
  }

  ghost predicate SelectsPath(t: Type, ops: seq<Operand>, path: seq<nat>)
    requires ValidPath(t, path)
    decreases t
  {
    if path == [] then ops == []
    else ops != [] && Selects(t, ops[0], path[0]) && SelectsPath(Component(t, path[0]), ops[1..], path[1..])
  }

  lemma LowBits(op: Operand, k: nat)
    requires op.ConstantInt?
    ensures ElementNumber(op, k) <==> k == U32(op.v)
  {
  }

  lemma SelectedLevel(t: Type, op: Operand, i: nat, arrays: bool)
    requires InBounds(t, i) && Selects(t, op, i)
    ensures ValidIndex(t, op, arrays) && LevelOffset(t, op, arrays) == Start(t, i, arrays)
    ensures Indexed(t, op) == Component(t, i)
  {
    TablesHoldStarts(t, i);
    if t.Array? && op.ConstantInt? {
      LowBits(op, i);
      LowBits(op, U32(op.v));
      if U32(op.v) < t.n {
        assert InBounds(t, U32(op.v));
        TablesHoldStarts(t, U32(op.v));
      }
    }
  }

  /** MAIN RESULT: whatever the operands behind the pointer are, the offset is that of the path they select;
      a variable index, or one beyond the array, stands for the first element. */
  lemma {:induction false} GepComputesSelectedPath(t: Type, ops: seq<Operand>, path: seq<nat>, arrays: bool)
    requires ValidPath(t, path) && SelectsPath(t, ops, path)
    ensures ValidIndices(t, ops, arrays) && IndicesOffset(t, ops, arrays) == Offset(t, path, arrays)
    decreases t
  {
    if path != [] {
      SelectedLevel(t, ops[0], path[0], arrays);
      GepComputesSelectedPath(Component(t, path[0]), ops[1..], path[1..], arrays);
    }
  }

  /** An index into an array without elements adds nothing. */
  lemma EmptyArrayAddsNothing(t: Type, ops: seq<Operand>, arrays: bool)
    requires t.Array? && Empty(t) && ops != [] && ValidIndices(t, ops, arrays)
    ensures IndicesOffset(t, ops, arrays) == IndicesOffset(t.elem, ops[1..], arrays)
  {
  }
}
