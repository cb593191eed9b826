/** Type equality on DWARF types and its canonical representatives (svf-llvm/lib/DCHG.cpp). */
module DchgTypes {

  datatype Encoding = Signed | Unsigned | Boolean | Float | SignedChar | UnsignedChar | OtherEncoding(code: nat)

  datatype DerivedTag = Const | Atomic | Volatile | Restrict | Typedef
                      | Member | Pointer | PtrToMember | Reference | RvalueReference

  datatype CompositeTag = ArrayTag | ClassTag | StructureTag | UnionTag | EnumerationTag

  /** Debug-info nodes. The identity number makes equality of values equality of pointers; `Void` is
      the null pointer. */
  datatype DIType =
    | Void
    | Basic(id: nat, encoding: Encoding, size: nat, align: nat)
    | Subroutine(id: nat)
    | Derived(id: nat, dtag: DerivedTag, base: DIType)
    | Composite(id: nat, ctag: CompositeTag, base: DIType, name: string, file: string, line: nat, identifier: string)

  predicate IsQualifier(t: DIType) {
    t.Derived? && (t.dtag.Const? || t.dtag.Atomic? || t.dtag.Volatile? || t.dtag.Restrict? || t.dtag.Typedef?)
  }

  function Strip(t: DIType): (r: DIType)
    ensures !IsQualifier(r) && (r == t || r < t)
  {
    if IsQualifier(t) then Strip(t.base) else t
  }

  /** stripQualifiers */
  method StripQualifiers(t0: DIType) returns (t: DIType)
    ensures t == Strip(t0)
  {
    t := t0;
    while IsQualifier(t)
      invariant Strip(t) == Strip(t0)
      decreases t
    {
      t := t.base;
    }
  }

  predicate Integral(e: Encoding) { e.Signed? || e.Unsigned? || e.Boolean? }

  predicate Character(e: Encoding) { e.SignedChar? || e.UnsignedChar? }

  predicate OkayEncodings(e1: Encoding, e2: Encoding) {
    (Integral(e1) && Integral(e2)) || (e1.Float? && e2.Float?) || (Character(e1) && Character(e2))
  }

  /** Pointers, references, members and arrays are compared by their base types. */
  predicate HasBase(t: DIType) {
    t.Derived? || (t.Composite? && t.ctag.ArrayTag?)
  }

  predicate Teq(a: DIType, b: DIType)
    decreases a
  {
    var t1, t2 := Strip(a), Strip(b);
    if t1 == t2 then true
    else if t1.Void? || t2.Void? then false
    else if t1.Basic? && t2.Basic? then
      OkayEncodings(t1.encoding, t2.encoding) && t1.size == t2.size && t1.align == t2.align
    else if HasBase(t1) && HasBase(t2) then Teq(t1.base, t2.base)
    else if t1.Composite? && t2.Composite? then
      if t1.ctag != t2.ctag then false
      else if t1.ctag.EnumerationTag? then true
      else if t1.ctag.ClassTag? then t1.identifier == t2.identifier
      else t1.name == t2.name && t1.file == t2.file && t1.line == t2.line
    else false
  }

  // ---------------------------------------------------------------- an independent definition

  /** What a type is, up to everything teq ignores. */
  datatype Shape =
    | VoidShape
    | IntegralShape(size: nat, align: nat)
    | FloatShape(size: nat, align: nat)
    | CharShape(size: nat, align: nat)
    | OnlyItself(t: DIType)
    | Indirect(to: Shape)
    | Enumeration
    | Class(identifier: string)
    | Record(ctag: CompositeTag, name: string, file: string, line: nat)

  function ShapeOf(a: DIType): Shape
    decreases a
  {
    match a
    case Void => VoidShape
    case Basic(_, e, s, al) =>
      match e {
        case Signed | Unsigned | Boolean => IntegralShape(s, al)
        case Float => FloatShape(s, al)
        case SignedChar | UnsignedChar => CharShape(s, al)
        case OtherEncoding(_) => OnlyItself(a)
      }
    case Subroutine(_) => OnlyItself(a)
    case Derived(_, tag, base) =>
      match tag {
        case Const | Atomic | Volatile | Restrict | Typedef => ShapeOf(base)
        case Member | Pointer | PtrToMember | Reference | RvalueReference => Indirect(ShapeOf(base))
      }
    case Composite(_, tag, base, name, file, line, identifier) =>
      match tag {
        case ArrayTag => Indirect(ShapeOf(base))
        case EnumerationTag => Enumeration
        case ClassTag => Class(identifier)
        case StructureTag | UnionTag => Record(tag, name, file, line)
      }
  }

  lemma {:induction false} ShapeOfStripped(a: DIType)
    ensures ShapeOf(Strip(a)) == ShapeOf(a)
  {
    if IsQualifier(a) {
      ShapeOfStripped(a.base);
    }
  }

  /** What stripping stops at. */
  lemma {:induction false} StripStops(a: DIType)
    ensures match Strip(a)
            case Derived(_, tag, _) =>
              tag == Member || tag == Pointer || tag == PtrToMember || tag == Reference || tag == RvalueReference
            case _ => true
    ensures match a
            case Derived(_, tag, base) =>
              if tag in [Const, Atomic, Volatile, Restrict, Typedef] then Strip(a) == Strip(base) else Strip(a) == a
            case _ => Strip(a) == a
  {
    if IsQualifier(a) {
      StripStops(a.base);
    }
  }

  /** MAIN RESULT: teq holds exactly between types of one shape. */
  lemma {:induction false} TeqIsSameShape(a: DIType, b: DIType)
    ensures Teq(a, b) <==> ShapeOf(a) == ShapeOf(b)
    decreases a
  {
    var t1, t2 := Strip(a), Strip(b);
    ShapeOfStripped(a);
    ShapeOfStripped(b);
    StripStops(a);
    StripStops(b);
    if t1 != t2 && HasBase(t1) && HasBase(t2) {
      TeqIsSameShape(t1.base, t2.base);
    }
  }

  lemma TeqIsEquivalence(a: DIType, b: DIType, c: DIType)
    ensures Teq(a, a)
    ensures Teq(a, b) ==> Teq(b, a)
    ensures Teq(a, b) && Teq(b, c) ==> Teq(a, c)
    ensures Teq(a, Strip(a))
  {
    TeqIsSameShape(a, a);
    TeqIsSameShape(a, b);
    TeqIsSameShape(b, a);
    TeqIsSameShape(b, c);
    TeqIsSameShape(a, c);
    TeqIsSameShape(a, Strip(a));
    StripTwice(a);
  }

  lemma StripTwice(a: DIType)
    ensures Strip(Strip(a)) == Strip(a) && ShapeOf(Strip(a)) == ShapeOf(a)
  {
    ShapeOfStripped(a);
  }

  // ---------------------------------------------------------------- canonical types

  class CanonicalTypes {
    var canonicalTypeMap: map<DIType, DIType>
    var canonicalTypes: set<DIType>

    /** Holds in every state reachable by queries: representatives are stripped, fixed by the map and
        pairwise different; every mapping leads to an equal representative. */
    ghost predicate Valid()
      reads this
    {
      && (forall c | c in canonicalTypes :: c in canonicalTypeMap && canonicalTypeMap[c] == c && Strip(c) == c)
      && (forall t | t in canonicalTypeMap :: canonicalTypeMap[t] in canonicalTypes && Teq(t, canonicalTypeMap[t]))
      && (forall c, d | c in canonicalTypes && d in canonicalTypes && Teq(c, d) :: c == d)
    }

    constructor ()
      ensures Valid() && canonicalTypes == {} && canonicalTypeMap == map[]
    {
      canonicalTypeMap, canonicalTypes := map[], {};
    }

    /** getCanonicalType */
    method GetCanonicalType(unstripped: DIType) returns (canon: DIType)
      requires Valid()
      modifies this
      ensures Valid()
      ensures canon in canonicalTypes && Teq(unstripped, canon)
      ensures old(canonicalTypes) <= canonicalTypes
      ensures forall c | c in canonicalTypes - old(canonicalTypes) :: c == canon == Strip(unstripped)
      ensures forall t | t in old(canonicalTypeMap) ::
                t in canonicalTypeMap && canonicalTypeMap[t] == old(canonicalTypeMap)[t]
      ensures unstripped in old(canonicalTypes) ==> canon == unstripped && unchanged(this)
    {
      var t := StripQualifiers(unstripped);
      StripTwice(unstripped);
      TeqIsEquivalence(unstripped, t, t);
      TeqIsEquivalence(t, unstripped, t);
      if unstripped in canonicalTypeMap {
        return canonicalTypeMap[unstripped];
      }
      if unstripped != t && t in canonicalTypeMap {
        TeqIsEquivalence(unstripped, t, canonicalTypeMap[t]);
        canonicalTypeMap := canonicalTypeMap[unstripped := canonicalTypeMap[t]];
        return canonicalTypeMap[unstripped];
      }
      var rest := canonicalTypes;
      while rest != {}
        invariant rest <= canonicalTypes
        invariant forall c | c in canonicalTypes - rest :: !Teq(t, c)
        decreases rest
      {
        var canonType :| canonType in rest;
        if Teq(t, canonType) {
          TeqIsEquivalence(unstripped, t, canonType);
          canonicalTypeMap := canonicalTypeMap[t := canonType];
          return canonType;
        }
        rest := rest - {canonType};
      }
      forall c | c in canonicalTypes ensures !Teq(t, c) && !Teq(c, t) {
        TeqIsEquivalence(c, t, t);
      }
      canonicalTypes := canonicalTypes + {t};
      canonicalTypeMap := canonicalTypeMap[t := t];
      canon := t;
    }

    /** MAIN RESULT: whatever queries come before or between, two types get the same representative
        exactly when they are equal types. */
    method CanonicalTypesDecideEquality(a: DIType, b: DIType) returns (same: bool)
      requires Valid()
      modifies this
      ensures Valid() && (same <==> Teq(a, b))
    {
      var ca := GetCanonicalType(a);
      var cb := GetCanonicalType(b);
      RepresentativesDecide(canonicalTypes, a, ca, b, cb);
      same := ca == cb;
    }
  }

  /** Pairwise different representatives decide equality, also across two points in time. */
  lemma RepresentativesDecide(canon: set<DIType>, a: DIType, ca: DIType, b: DIType, cb: DIType)
    requires forall c, d | c in canon && d in canon && Teq(c, d) :: c == d
    requires ca in canon && cb in canon && Teq(a, ca) && Teq(b, cb)
    ensures ca == cb <==> Teq(a, b)
  {
    TeqIsSameShape(a, ca);
    TeqIsSameShape(b, cb);
    TeqIsSameShape(a, b);
    TeqIsSameShape(ca, cb);
  }
}
