/** Flattened layouts of nested struct and array types: the tables LLVMModuleSet collects
    (svf-llvm/lib/LLVMModule.cpp), read back by getFlattenedElemIdx with arrays modelled. */
module TypeFlattening {

  datatype Type = Scalar(id: nat) | Array(n: nat, elem: Type) | Struct(fields: seq<Type>)

  /** StInfo: what is recorded for one type. */
  datatype StInfo = StInfo(
    fldIdxVec: seq<nat>,
    elemIdxVec: seq<nat>,
    fieldTypes: seq<Type>,
    elementTypes: seq<Type>,
    stride: nat,
    numFields: nat,
    numElements: nat)

  // ---------------------------------------------------------- the layout, defined structurally

  function Base(t: Type): Type { if t.Array? then Base(t.elem) else t }

  /** Number of base elements of a (possibly nested) array. */
  function Total(t: Type): nat { if t.Array? then t.n * Total(t.elem) else 1 }

  /** Some dimension of a nested array is zero. */
  predicate Empty(t: Type) {
    t.Array? && (t.n == 0 || Empty(t.elem))
  }

  lemma {:induction false} EmptyMeansNoElements(t: Type)
    ensures Empty(t) <==> Total(t) == 0
  {
    if t.Array? {
      EmptyMeansNoElements(t.elem);
      if t.n > 0 && Total(t.elem) > 0 {
        Grows(t.n, 1, Total(t.elem));
      }
    }
  }

  /** The size of i rows of width w. */
  function Rows(i: nat, w: nat): nat {
    if i == 0 then 0 else w + Rows(i - 1, w)
  }

  lemma {:induction false} RowsIsProduct(i: nat, w: nat)
    ensures Rows(i, w) == i * w
  {
    if i > 0 {
      RowsIsProduct(i - 1, w);
      assert (i - 1) * w + w == i * w;
    }
  }

  lemma {:induction false} RowsMonotone(i: nat, j: nat, w: nat)
    requires i <= j
    ensures Rows(i, w) <= Rows(j, w)
    ensures i < j ==> Rows(i, w) + w <= Rows(j, w)
  {
    if i < j {
      RowsMonotone(i, j - 1, w);
    }
  }

  function Repeat<T>(s: seq<T>, n: nat): (r: seq<T>)
    ensures |r| == Rows(n, |s|)
  {
    if n == 0 then [] else s + Repeat(s, n - 1)
  }

  /** The flattened elements: n copies of the element's for an array, one after the other for a struct.
      An array without elements counts as a single dummy element. */
  function Flat(t: Type): seq<Type>
    decreases t, 0
  {
    match t
    case Scalar(_) => [t]
    case Array(n, e) => if Empty(t) then [Base(t)] else Repeat(Flat(e), n)
    case Struct(fs) => FlatTo(fs, |fs|)
  }

  function FlatTo(fs: seq<Type>, i: nat): seq<Type>
    requires i <= |fs|
    decreases fs, i
  {
    if i == 0 then [] else FlatTo(fs, i - 1) + Flat(fs[i - 1])
  }

  /** The flattened fields, arrays counted once. */
  function Fields(t: Type): seq<Type>
    decreases t, 0
  {
    match t
    case Scalar(_) => [t]
    case Array(n, e) => if Empty(t) then [Base(t)] else Fields(e)
    case Struct(fs) => FieldsTo(fs, |fs|)
  }

  function FieldsTo(fs: seq<Type>, i: nat): seq<Type>
    requires i <= |fs|
    decreases fs, i
  {
    if i == 0 then [] else FieldsTo(fs, i - 1) + Fields(fs[i - 1])
  }

  function Width(t: Type): nat { |Flat(t)| }

  /** Where each direct component starts. */
  function ElemIdx(t: Type): seq<nat> {
    match t
    case Scalar(_) => [0]
    case Array(n, e) => if Empty(t) then [0] else seq(n, i requires 0 <= i => Rows(i, Width(e)))
    case Struct(fs) => seq(|fs|, i requires 0 <= i < |fs| => |FlatTo(fs, i)|)
  }

  function FldIdx(t: Type): seq<nat> {
    match t
    case Scalar(_) => [0]
    case Array(n, e) => if Empty(t) then [0] else seq(n, i requires 0 <= i => 0)
    case Struct(fs) => seq(|fs|, i requires 0 <= i < |fs| => |FieldsTo(fs, i)|)
  }

  function InfoOf(t: Type): StInfo {
    StInfo(FldIdx(t), ElemIdx(t), Fields(t), Flat(t), Total(t), |Fields(t)|, |Flat(t)|)
  }

  // ------------------------------------------------------------------ arithmetic of layouts

  lemma {:induction false} RepeatAppend<T>(s: seq<T>, a: nat, b: nat)
    ensures Repeat(s, a + b) == Repeat(s, a) + Repeat(s, b)
  {
    if a > 0 {
      RepeatAppend(s, a - 1, b);
    }
  }

  lemma {:induction false} RepeatRepeat<T>(s: seq<T>, a: nat, n: nat)
    ensures Repeat(Repeat(s, a), n) == Repeat(s, n * a)
  {
    if n > 0 {
      RepeatRepeat(s, a, n - 1);
      RepeatAppend(s, a, (n - 1) * a);
      assert a + (n - 1) * a == n * a;
    } else {
      assert n * a == 0;
    }
  }

  /** A nested array is its base element repeated. */
  lemma {:induction false} ArrayIsRepeatedBase(t: Type)
    requires !Empty(t)
    ensures Flat(t) == Repeat(Flat(Base(t)), Total(t)) && Fields(t) == Fields(Base(t))
    ensures Width(t) == Total(t) * Width(Base(t))
  {
    RowsIsProduct(Total(t), Width(Base(t)));
    if t.Array? {
      ArrayIsRepeatedBase(t.elem);
      RepeatRepeat(Flat(Base(t)), Total(t.elem), t.n);
    } else {
      assert Repeat(Flat(t), 1) == Flat(t) + Repeat(Flat(t), 0);
    }
  }

  /** The index formula of collectArrayInfo divides exactly: element i starts at i element widths. */
  lemma IndexFormulaIsExact(t: Type, i: nat)
    requires t.Array? && !Empty(t)
    ensures t.n > 0 && (i * Width(Base(t)) * Total(t)) % t.n == 0
    ensures (i * Width(Base(t)) * Total(t)) / t.n == i * Width(t.elem)
  {
    ArrayIsRepeatedBase(t.elem);
    var w, k := Width(Base(t)), Total(t.elem);
    assert i * w * (t.n * k) == t.n * (i * (k * w)) by { Reorder(i, w, t.n, k); }
    ExactQuotient(i * (k * w), t.n);
  }

  lemma Reorder(i: nat, w: nat, n: nat, k: nat)
    ensures i * w * (n * k) == n * (i * (k * w))
  {
    assert i * w * (n * k) == n * (i * w * k);
    assert i * w * k == i * (k * w);
  }

  lemma ExactQuotient(q: nat, n: nat)
    requires n > 0
    ensures (n * q) / n == q && (n * q) % n == 0
  {
    var p, r := (n * q) / n, (n * q) % n;
    assert n * q == n * p + r;
    assert n * (q - p) == r;
    if q - p >= 1 {
      Grows(n, 1, q - p);
    } else if q - p <= -1 {
      Grows(n, q - p, -1);
    }
  }

  lemma Grows(n: nat, a: int, b: int)
    requires a <= b
    ensures n * a <= n * b
  {
  }

  // --------------------------------------------------------- the collection of the tables

  class LLVMModuleSet {
    var type2TypeInfo: map<Type, StInfo>

    ghost predicate Valid()
      reads this
    {
      forall t | t in type2TypeInfo :: type2TypeInfo[t] == InfoOf(t)
    }

    constructor ()
      ensures Valid()
    {
      type2TypeInfo := map[];
    }

    /** collectTypeInfo: the table of every type is its structural layout, cached or not. */
    method CollectTypeInfo(t: Type) returns (info: StInfo)
      requires Valid()
      modifies this
      ensures Valid() && t in type2TypeInfo && info == InfoOf(t)
      decreases t, 1
    {
      if t in type2TypeInfo {
        return type2TypeInfo[t];
      }
      match t {
        case Array(_, _) => info := CollectArrayInfo(t);
        case Struct(_) => info := CollectStructInfo(t);
        case Scalar(_) => info := StInfo([0], [0], [t], [t], 1, 1, 1);
      }
      type2TypeInfo := type2TypeInfo[t := info];
    }

    method CollectArrayInfo(t: Type) returns (info: StInfo)
      requires Valid() && t.Array?
      modifies this
      ensures Valid() && info == InfoOf(t)
      decreases t, 0
    {
      var totalElemNum, elemTy := CountElements(t);
      EmptyMeansNoElements(t);
      if totalElemNum == 0 {
        info := StInfo([0], [0], [elemTy], [elemTy], 0, 1, 1);
        return;
      }
      var elemInfo := CollectTypeInfo(elemTy);
      var nfF, nfE := elemInfo.numFields, elemInfo.numElements;
      var fieldTypes := elemInfo.fieldTypes;
      var fldIdxVec, elemIdxVec := IndexVectors(t, nfE, totalElemNum);
      var elementTypes := RepeatElements(elemInfo.elementTypes, totalElemNum);
      ArrayInfo(t);
      info := StInfo(fldIdxVec, elemIdxVec, fieldTypes, elementTypes, totalElemNum, nfF, nfE * totalElemNum);
    }

    method CollectStructInfo(t: Type) returns (info: StInfo)
      requires Valid() && t.Struct?
      modifies this
      ensures Valid() && info == InfoOf(t)
      decreases t, 0
    {
      var numFields, strideOffset := 0, 0;
      var fldIdxVec: seq<nat> := [];
      var elemIdxVec: seq<nat> := [];
      var fieldTypes: seq<Type> := [];
      var elementTypes: seq<Type> := [];
      var i := 0;
      while i < |t.fields|
        invariant 0 <= i <= |t.fields| && Valid()
        invariant fieldTypes == FieldsTo(t.fields, i) && elementTypes == FlatTo(t.fields, i)
        invariant numFields == |fieldTypes| && strideOffset == |elementTypes|
        invariant fldIdxVec == FldIdx(t)[..i] && elemIdxVec == ElemIdx(t)[..i]
      {
        var elemTy := t.fields[i];
        fldIdxVec := fldIdxVec + [numFields];
        elemIdxVec := elemIdxVec + [strideOffset];
        if elemTy.Struct? || elemTy.Array? {
          var sub := CollectTypeInfo(elemTy);
          numFields := numFields + sub.numFields;
          strideOffset := strideOffset + sub.numElements;
          fieldTypes := fieldTypes + sub.fieldTypes;
          elementTypes := elementTypes + sub.elementTypes;
        } else {
          numFields := numFields + 1;
          strideOffset := strideOffset + 1;
          fieldTypes := fieldTypes + [elemTy];
          elementTypes := elementTypes + [elemTy];
        }
        i := i + 1;
      }
      info := StInfo(fldIdxVec, elemIdxVec, fieldTypes, elementTypes, 1, numFields, strideOffset);
    }
  }

  lemma MulAssociates(a: nat, b: nat, c: nat)
    ensures a * (b * c) == (a * b) * c
  {
  }

  /** The layout of an array in terms of its innermost element. */
  lemma ArrayInfo(t: Type)
    requires t.Array? && !Empty(t)
    ensures InfoOf(t) == StInfo(FldIdx(t), ElemIdx(t), Fields(Base(t)), Repeat(Flat(Base(t)), Total(t)), Total(t),
                                |Fields(Base(t))|, Width(Base(t)) * Total(t))
  {
    ArrayIsRepeatedBase(t);
  }

  /** The loop that multiplies the dimensions of nested arrays. */
  method CountElements(t: Type) returns (totalElemNum: nat, elemTy: Type)
    requires t.Array?
    ensures totalElemNum == Total(t) && elemTy == Base(t) && elemTy < t
  {
    totalElemNum := t.n;
    elemTy := t.elem;
    while elemTy.Array?
      invariant elemTy < t && Base(t) == Base(elemTy) && Total(t) == totalElemNum * Total(elemTy)
      decreases elemTy
    {
      MulAssociates(totalElemNum, elemTy.n, Total(elemTy.elem));
      totalElemNum := totalElemNum * elemTy.n;
      elemTy := elemTy.elem;
    }
  }

  /** The loop over the elements of the outer array. */
  method IndexVectors(t: Type, nfE: nat, totalElemNum: nat) returns (fldIdxVec: seq<nat>, elemIdxVec: seq<nat>)
    requires t.Array? && !Empty(t) && totalElemNum == Total(t) && nfE == Width(Base(t))
    ensures fldIdxVec == FldIdx(t) && elemIdxVec == ElemIdx(t)
  {
    fldIdxVec, elemIdxVec := [], [];
    var i := 0;
    while i < t.n
      invariant 0 <= i <= t.n && |fldIdxVec| == |elemIdxVec| == i
      invariant forall k | 0 <= k < i :: fldIdxVec[k] == 0 && elemIdxVec[k] == Rows(k, Width(t.elem))
    {
      IndexFormulaIsExact(t, i);
      RowsIsProduct(i, Width(t.elem));
      var idx := (i * nfE * totalElemNum) / t.n;
      fldIdxVec := fldIdxVec + [0];
      elemIdxVec := elemIdxVec + [idx];
      i := i + 1;
    }
  }

  /** The double loop that lists the element types of an array. */
  method RepeatElements(elements: seq<Type>, total: nat) returns (out: seq<Type>)
    ensures out == Repeat(elements, total)
  {
    out := [];
    var i := 0;
    while i < total
      invariant 0 <= i <= total && out == Repeat(elements, i)
    {
      ghost var before := out;
      var j := 0;
      while j < |elements|
        invariant 0 <= j <= |elements| && out == before + elements[..j]
      {
        out := out + [elements[j]];
        j := j + 1;
      }
      assert elements[..j] == elements;
      RepeatAppend(elements, i, 1);
      assert Repeat(elements, 1) == elements + Repeat(elements, 0);
      i := i + 1;
    }
  }
}
