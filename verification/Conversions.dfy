/** Which conversions exist between types, and what a conversion records for
    code generation. */
module Conversions {
  import opened Options

  /** Classes are numbered so that a class comes after its parent, and an
      interface after those it extends. */
  type ClassId = nat

  const VOID: nat := 0
  const CHAR: nat := 1
  const INT: nat := 2

  /** `Prim(INT)` is the native integer; `Modified` is a type prefix. */
  datatype Type =
    | Null
    | Prim(id: nat)
    | Class(c: ClassId)
    | Value(v: ClassId)
    | Array(rank: nat, elem: Type)
    | Pointer(target: Type)
    | Ref(referent: Type)
    | Modified(inner: Type)

  /** A row of the table of builtin conversions, between classes of types: one for
      each numeric type, one for all pointers, one for the enumerations of each
      underlying type. */
  datatype Builtin = Builtin(from: nat, to: nat, explicit: bool, unsafe: bool)

  /** A conversion operator; ineligible when its attributes, its number of
      parameters or its access rule it out. */
  datatype Operator = Operator(explicit: bool, param: Type, result: Type, eligible: bool)

  datatype Kinds = Kinds(numeric: bool, enumeration: bool, reference: bool, boxing: bool, userDefined: bool)

  const ALL := Kinds(true, true, true, true, true)
  const STANDARD := Kinds(true, false, true, true, false)
  const REFERENCE := Kinds(false, false, true, false, false)
  const NUMERIC := Kinds(true, false, false, false, false)

  datatype World = World(
    table: seq<Builtin>, builtinOf: Type -> Option<nat>, numeric: set<nat>, enums: map<ClassId, Type>,
    classOf: Type -> Option<ClassId>, parent: map<ClassId, ClassId>, bases: map<ClassId, seq<ClassId>>, implements: set<(ClassId, ClassId)>,
    interfaces: set<ClassId>, sealed: set<ClassId>, operators: map<ClassId, seq<Operator>>,
    objectClass: ClassId, stringClass: ClassId, unsafe: bool, inFixed: bool)

  ghost predicate Grounded(w: World) {
    && (forall c :: c in w.parent ==> w.parent[c] < c)
    && (forall c, b :: c in w.bases && b in w.bases[c] ==> b < c)
  }

  function Strip(t: Type): (r: Type)
    ensures !r.Modified? && (r == t || r < t)
  {
    if t.Modified? then Strip(t.inner) else t
  }

  /** A type without the prefixes at any depth. */
  function Bare(t: Type): (r: Type) {
    match t
    case Array(rank, elem) => Array(rank, Bare(elem))
    case Pointer(target) => Pointer(Bare(target))
    case Ref(referent) => Ref(Bare(referent))
    case Modified(inner) => Bare(inner)
    case _ => t
  }

  /** `ILTypeIdentical` */
  predicate Identical(a: Type, b: Type) {
    Bare(a) == Bare(b)
  }

  lemma {:induction false} BareStrip(t: Type)
    ensures Bare(Strip(t)) == Bare(t)
  {
    if t.Modified? {
      BareStrip(t.inner);
    }
  }

  predicate IsReference(t: Type) { Strip(t).Class? || Strip(t).Array? }
  predicate IsValue(t: Type) { Strip(t).Prim? || Strip(t).Value? }
  predicate IsObject(w: World, t: Type) { Strip(t) == Class(w.objectClass) }
  predicate IsEnum(w: World, t: Type) { t.Value? && t.v in w.enums }
  predicate IsNumeric(w: World, t: Type) { t.Prim? && t.id in w.numeric }

  /** The class is the other one or has it as an ancestor. */
  predicate Inherits(w: World, c: ClassId, d: ClassId)
    requires Grounded(w)
    decreases c
  {
    c == d || (c in w.parent && Inherits(w, w.parent[c], d))
  }

  predicate Implements(w: World, c: ClassId, i: ClassId) { (c, i) in w.implements }

  // ------------------------------------------- which conversions there are

  /** Some row of the table applies. */
  ghost predicate HasBuiltin(w: World, from: Type, to: Type, explicit: bool, unsafe: bool) {
    exists b :: b in w.table && Applies(w, b, from, to, explicit, unsafe)
  }

  predicate Applies(w: World, b: Builtin, from: Type, to: Type, explicit: bool, unsafe: bool) {
    w.builtinOf(from) == Some(b.from) && w.builtinOf(to) == Some(b.to) && (!b.explicit || (explicit && b.unsafe == unsafe))
  }

  /** Measures the recursion: the restricted kinds first, then the type. */
  function Level(kinds: Kinds): (r: nat) {
    (if kinds.userDefined then 2 else 0) + (if kinds.enumeration then 1 else 0)
  }

  ghost predicate Converts(w: World, from: Type, to: Type, explicit: bool, kinds: Kinds)
    requires Grounded(w)
    decreases Level(kinds), from, 2
  {
    var f, t := Strip(from), Strip(to);
    || Identical(f, t)
    || (t != Null &&
        if f == Null then kinds.reference && (IsReference(t) || (t.Pointer? && w.unsafe))
        else
          || (kinds.numeric && HasBuiltin(w, f, t, explicit, false))
          || (kinds.userDefined && UserDefined(w, f, t, explicit))
          || (kinds.reference && ReferenceConverts(w, f, t, explicit))
          || (kinds.boxing && Boxes(w, f, t, explicit))
          || (kinds.enumeration && explicit && EnumConverts(w, f, t))
          || (w.unsafe && UnsafeConverts(w, f, t, explicit)))
  }

  /** Some operator of the two types' classes, or their ancestors, applies. */
  ghost predicate UserDefined(w: World, f: Type, t: Type, explicit: bool)
    requires Grounded(w)
    decreases 2, f, 1
  {
    exists op :: Candidate(w, f, t, op) && (op.explicit ==> explicit) && OperatorFits(w, f, t, op)
  }

  ghost predicate Candidate(w: World, f: Type, t: Type, op: Operator)
    requires Grounded(w)
  {
    op in OperatorsOf(w, f) || op in OperatorsOf(w, t)
  }

  function OperatorsOf(w: World, t: Type): (r: seq<Operator>)
    requires Grounded(w)
  {
    if w.classOf(t).Some? then OnChain(w, w.classOf(t).value) else []
  }

  function OperatorsAt(w: World, c: ClassId): (r: seq<Operator>) {
    if c in w.operators then w.operators[c] else []
  }

  /** Where the search goes on from a class that is no interface. */
  function Next(w: World, c: ClassId): (n: Option<ClassId>) {
    if c !in w.interfaces && c in w.parent then Some(w.parent[c]) else None
  }

  /** The interfaces that an interface extends. */
  function Bases(w: World, c: ClassId): (cs: seq<ClassId>) {
    if c in w.interfaces && c in w.bases then w.bases[c] else []
  }

  /** The operators of a class and its ancestors, or of an interface and those
      it extends. */
  function OnChain(w: World, c: ClassId): (ops: seq<Operator>)
    requires Grounded(w)
    decreases c, 1, 0
  {
    OperatorsAt(w, c) + (if Next(w, c).Some? then OnChain(w, Next(w, c).value) else []) + OnBases(w, c, 0)
  }

  function OnBases(w: World, c: ClassId, k: nat): (ops: seq<Operator>)
    requires Grounded(w)
    decreases c, 0, |Bases(w, c)| - k
  {
    if k >= |Bases(w, c)| then []
    else
      assert Bases(w, c)[k] in w.bases[c];
      OnChain(w, Bases(w, c)[k]) + OnBases(w, c, k + 1)
  }

  ghost predicate OperatorFits(w: World, f: Type, t: Type, op: Operator)
    requires Grounded(w)
    decreases 2, f, 0
  {
    op.eligible && Identical(op.result, t) && (Identical(op.param, f) || Converts(w, f, op.param, false, STANDARD))
  }

  ghost predicate ReferenceConverts(w: World, f: Type, t: Type, explicit: bool)
    requires Grounded(w)
    decreases 0, f, 1
  {
    && IsReference(f) && IsReference(t)
    && (|| IsObject(w, t)
        || (IsObject(w, f) && explicit)
        || (w.classOf(f).Some? && w.classOf(t).Some? &&
            var cf, ct := w.classOf(f).value, w.classOf(t).value;
            || ClassConverts(w, cf, ct) || (explicit && ClassCasts(w, cf, ct))
            || (f.Array? && t.Array? && f.rank == t.rank && IsReference(f.elem) && IsReference(t.elem)
                && Converts(w, f.elem, t.elem, explicit, REFERENCE))))
  }

  /** To an ancestor or an implemented interface. */
  predicate ClassConverts(w: World, cf: ClassId, ct: ClassId)
    requires Grounded(w)
  {
    Inherits(w, cf, ct) || (ct in w.interfaces && Implements(w, cf, ct))
  }

  /** Where a run-time check may succeed. */
  predicate ClassCasts(w: World, cf: ClassId, ct: ClassId)
    requires Grounded(w)
  {
    || Inherits(w, ct, cf)
    || (ct in w.interfaces && cf !in w.sealed)
    || (cf in w.interfaces && if ct !in w.interfaces then ct !in w.sealed || Implements(w, ct, cf) else !Implements(w, cf, ct))
  }

  /** A value as an object of one of its supertypes, or back. */
  predicate Boxes(w: World, f: Type, t: Type, explicit: bool)
    requires Grounded(w)
  {
    if IsValue(f) then w.classOf(f).Some? && (IsObject(w, t) || (IsReference(t) && BoxClass(w, f, t)))
    else explicit && IsReference(f) && IsValue(t) && w.classOf(f).Some? && w.classOf(t).Some? && (IsObject(w, f) || BoxClass(w, t, f))
  }

  predicate BoxClass(w: World, value: Type, supertype: Type)
    requires Grounded(w)
  {
    && w.classOf(value).Some? && w.classOf(supertype).Some?
    && var cv, co := w.classOf(value).value, w.classOf(supertype).value;
       if co in w.interfaces then Implements(w, cv, co) else Inherits(w, cv, co)
  }

  /** The underlying type of an enumeration; any other numeric type. */
  function Underlying(w: World, t: Type): (r: Option<Type>) {
    if IsEnum(w, t) then Some(w.enums[t.v]) else if IsNumeric(w, t) then Some(t) else None
  }

  ghost predicate EnumConverts(w: World, f: Type, t: Type)
    requires Grounded(w)
    decreases 1, f, 1
  {
    && (IsEnum(w, f) || IsEnum(w, t)) && Underlying(w, f).Some? && Underlying(w, t).Some?
    && Converts(w, Underlying(w, f).value, Underlying(w, t).value, true, NUMERIC)
  }

  ghost predicate UnsafeConverts(w: World, f: Type, t: Type, explicit: bool) {
    if t.Pointer? && f.Pointer? then explicit || t.target == Prim(VOID)
    else if explicit then
      || (t.Pointer? && f == Prim(INT)) || (f.Pointer? && t == Prim(INT))
      || (IsNumeric(w, t) && f.Pointer? && HasBuiltin(w, f, t, true, true))
      || (t.Pointer? && IsNumeric(w, f) && HasBuiltin(w, f, t, true, true))
    else w.inFixed && Pins(w, f, t)
  }

  /** What a `fixed` statement allows. */
  predicate Pins(w: World, f: Type, t: Type) {
    t.Pointer? &&
    (|| (f == Class(w.stringClass) && (Strip(t.target) == Prim(CHAR) || Strip(t.target) == Prim(VOID)))
     || (f.Array? && (Strip(t.target) == Prim(VOID) || Identical(f.elem, t.target)))
     || (f.Ref? && (t.target == Prim(VOID) || Identical(f.referent, t.target))))
  }

  // ------------------------------------------------- laws of the conversions

  lemma BuiltinMore(w: World, f: Type, t: Type, unsafe: bool)
    requires HasBuiltin(w, f, t, false, unsafe)
    ensures HasBuiltin(w, f, t, true, unsafe)
  {
    var b :| b in w.table && Applies(w, b, f, t, false, unsafe);
    assert Applies(w, b, f, t, true, unsafe);
  }

  lemma UserDefinedMore(w: World, f: Type, t: Type)
    requires Grounded(w) && UserDefined(w, f, t, false)
    ensures UserDefined(w, f, t, true)
  {
    var op :| Candidate(w, f, t, op) && (op.explicit ==> false) && OperatorFits(w, f, t, op);
    assert Candidate(w, f, t, op) && OperatorFits(w, f, t, op);
  }

  /** Whatever converts implicitly can also be cast, except what only a
      `fixed` statement allows. */
  lemma {:induction false} ImplicitIsExplicit(w: World, from: Type, to: Type, kinds: Kinds)
    requires Grounded(w) && Converts(w, from, to, false, kinds)
    ensures Converts(w, from, to, true, kinds) || (w.inFixed && w.unsafe && Pins(w, Strip(from), Strip(to)))
    decreases from
  {
    var f, t := Strip(from), Strip(to);
    if !Identical(f, t) && f != Null {
      if kinds.numeric && HasBuiltin(w, f, t, false, false) {
        BuiltinMore(w, f, t, false);
      } else if kinds.userDefined && UserDefined(w, f, t, false) {
        UserDefinedMore(w, f, t);
      } else if kinds.reference && ReferenceConverts(w, f, t, false) {
        if f.Array? && t.Array? && Converts(w, f.elem, t.elem, false, REFERENCE) {
          ImplicitIsExplicit(w, f.elem, t.elem, REFERENCE);
        }
      }
    }
  }

  /** An implicit conversion that cannot be written as a cast: exactly the
      pinning ones for which there is no builtin or user-defined one. */
  lemma NoCastExactly(w: World, from: Type, to: Type)
    requires Grounded(w)
    ensures var f, t := Strip(from), Strip(to);
            Converts(w, from, to, false, ALL) && !Converts(w, from, to, true, ALL) <==>
              && w.inFixed && w.unsafe && Pins(w, f, t)
              && !HasBuiltin(w, f, t, true, false) && !UserDefined(w, f, t, true)
  {
    hide HasBuiltin, UserDefined;
    if Converts(w, from, to, false, ALL) {
      ImplicitIsExplicit(w, from, to, ALL);
    }
  }

  /** For instance, a string as a pointer to characters, unless the table or
      an operator provides for it. */
  lemma PinnedStringIsNoCast(w: World)
    requires Grounded(w) && w.unsafe && w.inFixed
    requires var f, t := Class(w.stringClass), Pointer(Prim(CHAR));
             !HasBuiltin(w, f, t, true, false) && OperatorsOf(w, f) == [] && OperatorsOf(w, t) == []
    ensures Converts(w, Class(w.stringClass), Pointer(Prim(CHAR)), false, ALL)
    ensures !Converts(w, Class(w.stringClass), Pointer(Prim(CHAR)), true, ALL)
  {
    NoCastExactly(w, Class(w.stringClass), Pointer(Prim(CHAR)));
  }

  predicate Within(a: Kinds, b: Kinds) {
    && (a.numeric ==> b.numeric) && (a.enumeration ==> b.enumeration) && (a.reference ==> b.reference)
    && (a.boxing ==> b.boxing) && (a.userDefined ==> b.userDefined)
  }

  /** Allowing more kinds takes no conversion away. */
  lemma MoreKinds(w: World, from: Type, to: Type, explicit: bool, a: Kinds, b: Kinds)
    requires Grounded(w) && Within(a, b) && Converts(w, from, to, explicit, a)
    ensures Converts(w, from, to, explicit, b)
  {
  }

  // ------------------------------- what reference conversions are about

  /** An object that there may be: of the class `base`, or of one derived from
      it that also implements the interfaces `extra`. */
  datatype Object = Object(base: ClassId, extra: set<ClassId>)

  ghost predicate IsA(w: World, o: Object, c: ClassId)
    requires Grounded(w)
  {
    if c in w.interfaces then Implements(w, o.base, c) || c in o.extra else Inherits(w, o.base, c)
  }

  /** Sealed classes have no derived classes, and interfaces come with those
      they extend. */
  ghost predicate MayExist(w: World, o: Object, root: ClassId)
    requires Grounded(w)
  {
    && o.base !in w.interfaces && Inherits(w, o.base, root) && (o.base in w.sealed ==> o.extra == {})
    && (forall i :: i in o.extra ==> i in w.interfaces)
    && (forall i, j :: i in o.extra && Implements(w, i, j) ==> j in o.extra)
  }

  /** What holds of classes and interfaces; `root` is the class of `Object`. */
  ghost predicate Consistent(w: World, root: ClassId) {
    && w.classOf(Class(w.objectClass)) == Some(root)
    && root !in w.interfaces && root !in w.sealed && root !in w.parent && (forall i :: !Implements(w, root, i))
    && (forall i :: i in w.interfaces ==> i !in w.parent)
    && (forall c :: c in w.parent ==> w.parent[c] !in w.interfaces && w.parent[c] !in w.sealed)
    && (forall c, i :: c in w.parent && Implements(w, w.parent[c], i) ==> Implements(w, c, i))
    && (forall c, i :: Implements(w, c, i) ==> i in w.interfaces)
    && (forall c, i, j :: Implements(w, c, i) && Implements(w, i, j) ==> Implements(w, c, j))
  }

  ghost predicate InHierarchy(w: World, c: ClassId, root: ClassId)
    requires Grounded(w)
  {
    c in w.interfaces || Inherits(w, c, root)
  }

  lemma {:induction false} InheritsOn(w: World, a: ClassId, b: ClassId, c: ClassId)
    requires Grounded(w) && Inherits(w, a, b) && Inherits(w, b, c)
    ensures Inherits(w, a, c)
    decreases a
  {
    if a != b {
      InheritsOn(w, w.parent[a], b, c);
    }
  }

  /** The ancestors of a class form a chain. */
  lemma {:induction false} InheritsChain(w: World, a: ClassId, b: ClassId, c: ClassId)
    requires Grounded(w) && Inherits(w, a, b) && Inherits(w, a, c)
    ensures Inherits(w, b, c) || Inherits(w, c, b)
    decreases a
  {
    if a != b && a != c {
      InheritsChain(w, w.parent[a], b, c);
    }
  }

  lemma {:induction false} ImplementsBelow(w: World, root: ClassId, a: ClassId, b: ClassId, i: ClassId)
    requires Grounded(w) && Consistent(w, root) && Inherits(w, a, b) && Implements(w, b, i)
    ensures Implements(w, a, i)
    decreases a
  {
    if a != b {
      ImplementsBelow(w, root, w.parent[a], b, i);
    }
  }

  /** Above a class there are only classes that are not sealed. */
  lemma {:induction false} AboveIsOpen(w: World, root: ClassId, a: ClassId, b: ClassId)
    requires Grounded(w) && Consistent(w, root) && Inherits(w, a, b)
    ensures a == b || (b !in w.interfaces && b !in w.sealed && a !in w.interfaces)
    decreases a
  {
    if a != b {
      AboveIsOpen(w, root, w.parent[a], b);
    }
  }

  ghost function Closure(w: World, i: ClassId): (r: set<ClassId>) {
    {i} + set j | j in w.interfaces && Implements(w, i, j)
  }

  /** An object that is of both classes; for one class, of no more than it
      must be. */
  ghost function Sample(w: World, root: ClassId, c: ClassId, d: ClassId): (o: Object) {
    if c in w.interfaces then
      if d in w.interfaces then Object(root, Closure(w, c) + Closure(w, d))
      else Object(d, if d in w.sealed then {} else Closure(w, c))
    else Object(c, if d in w.interfaces && c !in w.sealed then Closure(w, d) else {})
  }

  lemma SampleMayExist(w: World, root: ClassId, c: ClassId, d: ClassId)
    requires Grounded(w) && Consistent(w, root) && InHierarchy(w, c, root) && InHierarchy(w, d, root)
    ensures MayExist(w, Sample(w, root, c, d), root)
  {
    assert Inherits(w, root, root);
  }

  /** Going up: every object of the one class is of the other. */
  lemma UpMeans(w: World, root: ClassId, c: ClassId, d: ClassId)
    requires Grounded(w) && Consistent(w, root) && InHierarchy(w, c, root) && InHierarchy(w, d, root)
    ensures d == root || ClassConverts(w, c, d) <==> forall o :: MayExist(w, o, root) && IsA(w, o, c) ==> IsA(w, o, d)
  {
    if d == root || ClassConverts(w, c, d) {
      forall o | MayExist(w, o, root) && IsA(w, o, c) ensures IsA(w, o, d) {
        if d != root {
          UpHolds(w, root, c, d, o);
        }
      }
    }
    if forall o :: MayExist(w, o, root) && IsA(w, o, c) ==> IsA(w, o, d) {
      var o := Sample(w, root, c, c);
      SampleMayExist(w, root, c, c);
      assert IsA(w, o, c) && IsA(w, o, d);
    }
  }

  lemma UpHolds(w: World, root: ClassId, c: ClassId, d: ClassId, o: Object)
    requires Grounded(w) && Consistent(w, root) && MayExist(w, o, root) && IsA(w, o, c) && ClassConverts(w, c, d)
    ensures IsA(w, o, d)
  {
    if Inherits(w, c, d) {
      AboveIsOpen(w, root, c, d);
      if c != d {
        InheritsOn(w, o.base, c, d);
      }
    } else if c !in w.interfaces {
      ImplementsBelow(w, root, o.base, c, d);
    }
  }

  /** A cast: some object is of both. */
  lemma CastMeans(w: World, root: ClassId, c: ClassId, d: ClassId)
    requires Grounded(w) && Consistent(w, root) && InHierarchy(w, c, root) && InHierarchy(w, d, root)
    ensures ClassConverts(w, c, d) || ClassCasts(w, c, d) <==> exists o :: MayExist(w, o, root) && IsA(w, o, c) && IsA(w, o, d)
  {
    if ClassConverts(w, c, d) || ClassCasts(w, c, d) {
      var o := CommonObject(w, root, c, d);
    }
    if o :| MayExist(w, o, root) && IsA(w, o, c) && IsA(w, o, d) {
      if c !in w.interfaces {
        AboveIsOpen(w, root, o.base, c);
      }
      if d !in w.interfaces {
        AboveIsOpen(w, root, o.base, d);
      }
      if c !in w.interfaces && d !in w.interfaces {
        InheritsChain(w, o.base, c, d);
      }
    }
  }

  lemma CommonObject(w: World, root: ClassId, c: ClassId, d: ClassId) returns (o: Object)
    requires Grounded(w) && Consistent(w, root) && InHierarchy(w, c, root) && InHierarchy(w, d, root)
    requires ClassConverts(w, c, d) || ClassCasts(w, c, d)
    ensures MayExist(w, o, root) && IsA(w, o, c) && IsA(w, o, d)
  {
    if ClassConverts(w, c, d) {
      o := Sample(w, root, c, c);
      SampleMayExist(w, root, c, c);
      UpHolds(w, root, c, d, o);
    } else if Inherits(w, d, c) {
      o := Sample(w, root, d, d);
      SampleMayExist(w, root, d, d);
      UpHolds(w, root, d, c, o);
    } else {
      o := Sample(w, root, c, d);
      SampleMayExist(w, root, c, d);
    }
  }

  /** Between classes and interfaces, a reference converts implicitly if and only
      if every object that there may be of the one is of the other, and it can
      be cast if and only if there may be an object of both. */
  lemma ReferenceMeaning(w: World, root: ClassId, f: Type, t: Type)
    requires Grounded(w) && Sensible(w) && Consistent(w, root) && f.Class? && t.Class?
    requires w.classOf(f).Some? && InHierarchy(w, w.classOf(f).value, root)
    requires w.classOf(t).Some? && InHierarchy(w, w.classOf(t).value, root)
    ensures var c, d := w.classOf(f).value, w.classOf(t).value;
            && (ReferenceConverts(w, f, t, false) <==> forall o :: MayExist(w, o, root) && IsA(w, o, c) ==> IsA(w, o, d))
            && (ReferenceConverts(w, f, t, true) <==> exists o :: MayExist(w, o, root) && IsA(w, o, c) && IsA(w, o, d))
  {
    hide MayExist, IsA, ClassCasts, ClassConverts, Consistent;
    var c, d := w.classOf(f).value, w.classOf(t).value;
    ObjectIsRoot(w, root, f);
    ObjectIsRoot(w, root, t);
    UpMeans(w, root, c, d);
    CastMeans(w, root, c, d);
    if c == root || d == root {
      RootCasts(w, root, c, d);
    }
  }

  /** A value can be boxed if and only if the boxed value is of the other class,
      and then a cast brings it back. */
  lemma BoxingMeaning(w: World, root: ClassId, f: Type, t: Type, explicit: bool)
    requires Grounded(w) && Sensible(w) && Consistent(w, root) && IsValue(f) && Strip(f) == f && t.Class?
    requires w.classOf(f).Some? && Inherits(w, w.classOf(f).value, root) && w.classOf(t).Some?
    ensures var boxed := Object(w.classOf(f).value, {});
            && (Boxes(w, f, t, explicit) <==> IsA(w, boxed, w.classOf(t).value))
            && (Boxes(w, t, f, explicit) <==> explicit && IsA(w, boxed, w.classOf(t).value))
  {
    hide Consistent, Sensible;
    ObjectIsRoot(w, root, t);
    RootIsClass(w, root);
  }

  lemma RootIsClass(w: World, root: ClassId)
    requires Consistent(w, root)
    ensures root !in w.interfaces
  {
  }

  lemma ObjectIsRoot(w: World, root: ClassId, t: Type)
    requires Grounded(w) && Sensible(w) && Consistent(w, root) && t.Class? && w.classOf(t).Some?
    ensures IsObject(w, t) <==> w.classOf(t).value == root
  {
    assert IsReference(Class(w.objectClass)) && IsReference(t);
    assert w.classOf(t) == w.classOf(Class(w.objectClass)) ==> Identical(t, Class(w.objectClass));
  }

  /** From and to `Object` everything can be cast. */
  lemma RootCasts(w: World, root: ClassId, c: ClassId, d: ClassId)
    requires Grounded(w) && Consistent(w, root) && InHierarchy(w, c, root) && InHierarchy(w, d, root)
    requires c == root || d == root
    ensures ClassConverts(w, c, d) || ClassCasts(w, c, d)
  {
  }

  // ------------------------------------------------------------ the rules

  /** What a conversion records: nothing, or one thing. */
  datatype Rule =
    | NoRule
    | Box(c: ClassId, isEnum: bool)
    | Unbox(c: ClassId, isEnum: bool)
    | Apply(op: Operator)
    | Cast(target: Type)
    | Row(b: Builtin)
    | NullPointer
    | StringPointer
    | ElementPointer

  class ConvertRules {
    var boxClass: Option<ClassId>
    var unboxClass: Option<ClassId>
    var boxIsEnum: bool
    var userOperator: Option<Operator>
    var castType: Option<Type>
    var builtin: Option<Builtin>
    var pointerNull: bool
    var stringCharPtr: bool
    var arrayElementPtr: bool

    constructor ()
      ensures Cleared()
    {
      boxClass, unboxClass, boxIsEnum, userOperator, castType, builtin := None, None, false, None, None, None;
      pointerNull, stringCharPtr, arrayElementPtr := false, false, false;
    }

    method Clear()
      modifies this
      ensures Cleared()
    {
      boxClass, unboxClass, boxIsEnum, userOperator, castType, builtin := None, None, false, None, None, None;
      pointerNull, stringCharPtr, arrayElementPtr := false, false, false;
    }

    ghost predicate Cleared()
      reads this
    {
      && boxClass.None? && unboxClass.None? && !boxIsEnum && userOperator.None? && castType.None? && builtin.None?
      && !pointerNull && !stringCharPtr && !arrayElementPtr
    }

    /** The rule that is recorded, and no other. */
    ghost predicate Records(rule: Rule)
      reads this
    {
      && boxClass == (if rule.Box? then Some(rule.c) else None)
      && unboxClass == (if rule.Unbox? then Some(rule.c) else None)
      && boxIsEnum == ((rule.Box? || rule.Unbox?) && rule.isEnum)
      && userOperator == (if rule.Apply? then Some(rule.op) else None)
      && castType == (if rule.Cast? then Some(rule.target) else None)
      && builtin == (if rule.Row? then Some(rule.b) else None)
      && (pointerNull <==> rule.NullPointer?) && (stringCharPtr <==> rule.StringPointer?) && (arrayElementPtr <==> rule.ElementPointer?)
    }

    ghost function Recorded(): (r: Rule)
      reads this
    {
      if boxClass.Some? then Box(boxClass.value, boxIsEnum)
      else if unboxClass.Some? then Unbox(unboxClass.value, boxIsEnum)
      else if userOperator.Some? then Apply(userOperator.value)
      else if castType.Some? then Cast(castType.value)
      else if builtin.Some? then Row(builtin.value)
      else if pointerNull then NullPointer
      else if stringCharPtr then StringPointer
      else if arrayElementPtr then ElementPointer
      else NoRule
    }

    ghost predicate Single()
      reads this
    {
      Records(Recorded())
    }

    /** How many rules are set. */
    ghost function Count(): (r: nat)
      reads this
    {
      (if boxClass.Some? then 1 else 0) + (if unboxClass.Some? then 1 else 0) + (if userOperator.Some? then 1 else 0)
      + (if castType.Some? then 1 else 0) + (if builtin.Some? then 1 else 0) + (if pointerNull then 1 else 0)
      + (if stringCharPtr then 1 else 0) + (if arrayElementPtr then 1 else 0)
    }

    /** The rules do what the conversion needs: at most one applies, and it is
        the right one for the two types.  Implicit conversions neither check
        a cast nor unbox. */
    ghost predicate Right(w: World, from: Type, to: Type, explicit: bool, kinds: Kinds)
      requires Grounded(w)
      reads this
    {
      var f, t := Strip(from), Strip(to);
      && Count() <= 1
      && (castType.Some? ==> explicit && kinds.reference && castType == Some(t) && IsReference(f) && IsReference(t))
      && (boxClass.Some? ==> kinds.boxing && IsValue(f) && IsReference(t) && boxClass == w.classOf(f) && boxIsEnum == IsEnum(w, f))
      && (unboxClass.Some? ==>
            explicit && kinds.boxing && IsReference(f) && IsValue(t) && unboxClass == w.classOf(t) && boxIsEnum == IsEnum(w, t))
      && (userOperator.Some? ==>
            kinds.userDefined && OperatorFits(w, f, t, userOperator.value) && (userOperator.value.explicit ==> explicit))
      && (builtin.Some? ==> BuiltinRight(w, f, t, explicit, kinds, builtin.value))
      && (pointerNull ==> kinds.reference && f == Null && t.Pointer?)
      && (stringCharPtr ==> !explicit && f == Class(w.stringClass) && t.Pointer?)
      && (arrayElementPtr ==> !explicit && f.Array? && t.Pointer?)
    }
  }

  ghost predicate BuiltinRight(w: World, f: Type, t: Type, explicit: bool, kinds: Kinds, b: Builtin) {
    && b in w.table
    && (|| (kinds.numeric && Applies(w, b, f, t, explicit, false))
        || (explicit && (f.Pointer? || t.Pointer?) && Applies(w, b, f, t, true, true))
        || (explicit && kinds.enumeration && (IsEnum(w, f) || IsEnum(w, t))
            && Underlying(w, f).Some? && Underlying(w, t).Some?
            && exists u :: Applies(w, b, Strip(Underlying(w, f).value), Strip(Underlying(w, t).value), true, u)))
  }

  /** What the class library guarantees: `Object` has no supertype, interfaces
      and array classes have no place in the class chain above others, and
      different reference types have different classes. */
  ghost predicate Sensible(w: World) {
    && (forall f: Type, t: Type :: IsReference(f) && IsReference(t) && w.classOf(f).Some? && w.classOf(f) == w.classOf(t) ==> Identical(f, t))
    && (w.classOf(Class(w.objectClass)).Some? ==>
          var o := w.classOf(Class(w.objectClass)).value; o !in w.parent && forall i :: !Implements(w, o, i))
    && (forall i :: i in w.interfaces ==> i !in w.parent)
    && (forall f: Type :: f.Array? && w.classOf(f).Some? ==>
          w.classOf(f).value !in w.interfaces && forall c :: c in w.parent ==> w.parent[c] != w.classOf(f).value)
  }

  // ------------------------------------------- which rule a success records

  /** The first row of the table that applies. */
  ghost predicate FirstRow(w: World, f: Type, t: Type, explicit: bool, unsafe: bool, rule: Rule) {
    rule.Row? && exists k :: 0 <= k < |w.table| && w.table[k] == rule.b && FirstAt(w, f, t, explicit, unsafe, k)
  }

  ghost predicate FirstAt(w: World, f: Type, t: Type, explicit: bool, unsafe: bool, k: nat)
    requires k < |w.table|
  {
    Applies(w, w.table[k], f, t, explicit, unsafe) && forall j :: 0 <= j < k ==> !Applies(w, w.table[j], f, t, explicit, unsafe)
  }

  /** A run-time check unless the conversion is implicit; exactly then in a
      sensible world. */
  ghost predicate CheckedCast(w: World, f: Type, t: Type, explicit: bool, rule: Rule)
    requires Grounded(w)
  {
    && (rule == NoRule || (explicit && rule == Cast(t)))
    && (rule == NoRule ==> ReferenceConverts(w, f, t, false))
    && (Sensible(w) && ReferenceConverts(w, f, t, false) ==> rule == NoRule)
  }

  /** A value is boxed as its own class, an object unboxed to the value's. */
  ghost predicate BoxedAs(w: World, f: Type, t: Type, rule: Rule) {
    if IsValue(f) then rule.Box? && w.classOf(f) == Some(rule.c) && rule.isEnum == IsEnum(w, f)
    else rule.Unbox? && w.classOf(t) == Some(rule.c) && rule.isEnum == IsEnum(w, t)
  }

  ghost predicate PointerRule(w: World, f: Type, t: Type, explicit: bool, rule: Rule) {
    if (f.Pointer? && t.Pointer?) || f.Ref? then rule == NoRule
    else if explicit then
      if f == Prim(INT) || t == Prim(INT) then rule == NoRule else FirstRow(w, f, t, true, true, rule)
    else if f.Array? then rule == ElementPointer
    else rule == StringPointer
  }

  /** The rule for a conversion that exists: of the kinds that provide it, the
      first one decides. */
  ghost predicate Selects(w: World, from: Type, to: Type, explicit: bool, kinds: Kinds, rule: Rule)
    requires Grounded(w)
    decreases Level(kinds), 1
  {
    var f, t := Strip(from), Strip(to);
    if Identical(f, t) then rule == NoRule
    else if f == Null then rule == if t.Pointer? then NullPointer else NoRule
    else SelectsKind(w, f, t, explicit, kinds, rule)
  }

  ghost predicate SelectsKind(w: World, f: Type, t: Type, explicit: bool, kinds: Kinds, rule: Rule)
    requires Grounded(w)
    decreases Level(kinds), 0
  {
    if kinds.numeric && HasBuiltin(w, f, t, explicit, false) then FirstRow(w, f, t, explicit, false, rule)
    else if kinds.userDefined && UserDefined(w, f, t, explicit) then
      rule.Apply? && UserOperator(w, f, t, explicit) == Some(rule.op)
    else if kinds.reference && ReferenceConverts(w, f, t, explicit) then CheckedCast(w, f, t, explicit, rule)
    else if kinds.boxing && Boxes(w, f, t, explicit) then BoxedAs(w, f, t, rule)
    else if kinds.enumeration && explicit && EnumConverts(w, f, t) then
      Selects(w, Underlying(w, f).value, Underlying(w, t).value, true, NUMERIC, rule)
    else PointerRule(w, f, t, explicit, rule)
  }

  // -------------------------------------------------------- the algorithms

  /** `ILFindConversion` */
  method FindBuiltin(w: World, from: Type, to: Type, explicit: bool, unsafe: bool) returns (conv: Option<Builtin>)
    ensures conv.Some? <==> HasBuiltin(w, from, to, explicit, unsafe)
    ensures conv.Some? ==> FirstRow(w, from, to, explicit, unsafe, Row(conv.value))
  {
    var type1, type2 := w.builtinOf(from), w.builtinOf(to);
    if type1.None? || type2.None? {
      return None;
    }
    var posn := 0;
    var table := w.table;
    while posn < |table|
      invariant posn <= |table|
      invariant forall i :: 0 <= i < posn ==> !Applies(w, table[i], from, to, explicit, unsafe)
    {
      var b := table[posn];
      if b.from == type1.value && b.to == type2.value {
        if !b.explicit {
          assert FirstAt(w, from, to, explicit, unsafe, posn);
          return Some(b);
        } else if explicit && b.unsafe == unsafe {
          assert FirstAt(w, from, to, explicit, unsafe, posn);
          return Some(b);
        }
      }
      posn := posn + 1;
    }
    return None;
  }

  /** `ILCanCoerceKind`, without indirect conversions. */
  method CanCoerceKind(w: World, from: Type, to: Type, kinds: Kinds) returns (ok: bool)
    requires Grounded(w)
    ensures ok <==> Converts(w, from, to, false, kinds)
    decreases Level(kinds), from, 10
  {
    var rules := new ConvertRules();
    ok := GetConvertRules(w, from, to, false, kinds, rules);
  }

  lemma FitsWhen(w: World, f: Type, t: Type, op: Operator)
    requires Grounded(w)
    ensures OperatorFits(w, f, t, op) <==>
      op.eligible && Identical(op.result, t) && (Identical(op.param, f) || Converts(w, f, op.param, false, STANDARD))
  {
  }

  /** The first operator of the name that fits, among all or only among those
      that take exactly the type. */
  ghost function FirstFit(w: World, ops: seq<Operator>, explicitName: bool, f: Type, t: Type, exact: bool): (r: Option<Operator>)
    requires Grounded(w)
    decreases |ops|
  {
    if ops == [] then None
    else if ops[0].explicit == explicitName && OperatorFits(w, f, t, ops[0]) && (exact ==> Identical(ops[0].param, f)) then Some(ops[0])
    else FirstFit(w, ops[1..], explicitName, f, t, exact)
  }

  /** The search from a class, with the close match found so far. */
  ghost function Resolved(w: World, c: ClassId, closest: Option<Operator>, explicitName: bool, f: Type, t: Type): (r: Option<Operator>)
    requires Grounded(w)
    decreases c, 1, 0
  {
    var here := OperatorsAt(w, c);
    var exact := FirstFit(w, here, explicitName, f, t, true);
    var close := if closest.Some? then closest else FirstFit(w, here, explicitName, f, t, false);
    if exact.Some? then exact
    else if Next(w, c).Some? then Resolved(w, Next(w, c).value, close, explicitName, f, t)
    else
      var above := ResolvedBases(w, c, 0, explicitName, f, t);
      if above.Some? then above else close
  }

  /** The first interface with a match, close or not. */
  ghost function ResolvedBases(w: World, c: ClassId, k: nat, explicitName: bool, f: Type, t: Type): (r: Option<Operator>)
    requires Grounded(w)
    decreases c, 0, |Bases(w, c)| - k
  {
    if k >= |Bases(w, c)| then None
    else
      assert Bases(w, c)[k] in w.bases[c];
      var first := Resolved(w, Bases(w, c)[k], None, explicitName, f, t);
      if first.Some? then first else ResolvedBases(w, c, k + 1, explicitName, f, t)
  }

  /** Implicit operators first; explicit ones only for casts. */
  ghost function Selected(w: World, c: ClassId, f: Type, t: Type, explicit: bool): (r: Option<Operator>)
    requires Grounded(w)
  {
    var implicit := Resolved(w, c, None, false, f, t);
    if implicit.Some? || !explicit then implicit else Resolved(w, c, None, true, f, t)
  }

  lemma {:induction false} FirstFitIs(w: World, ops: seq<Operator>, explicitName: bool, f: Type, t: Type, exact: bool)
    requires Grounded(w)
    ensures var r := FirstFit(w, ops, explicitName, f, t, exact);
            r.Some? ==> r.value in ops && r.value.explicit == explicitName && OperatorFits(w, f, t, r.value)
    ensures FirstFit(w, ops, explicitName, f, t, exact).None? ==>
      forall op :: op in ops && op.explicit == explicitName && OperatorFits(w, f, t, op) ==> exact && !Identical(op.param, f)
    decreases |ops|
  {
    hide OperatorFits;
    if ops != [] {
      FirstFitIs(w, ops[1..], explicitName, f, t, exact);
      assert ops == [ops[0]] + ops[1..];
    }
  }

  lemma {:induction false} FirstFitConcat(w: World, a: seq<Operator>, b: seq<Operator>, explicitName: bool, f: Type, t: Type, exact: bool)
    requires Grounded(w)
    ensures var first := FirstFit(w, a, explicitName, f, t, exact);
            FirstFit(w, a + b, explicitName, f, t, exact) == if first.Some? then first else FirstFit(w, b, explicitName, f, t, exact)
    decreases |a|
  {
    hide OperatorFits;
    if a == [] {
      assert [] + b == b;
    } else {
      assert (a + b)[1..] == a[1..] + b;
      FirstFitConcat(w, a[1..], b, explicitName, f, t, exact);
    }
  }

  /** An operator among some that fits. */
  ghost predicate FitsIn(w: World, ops: seq<Operator>, explicitName: bool, f: Type, t: Type, op: Operator)
    requires Grounded(w)
  {
    op in ops && op.explicit == explicitName && OperatorFits(w, f, t, op)
  }

  /** The search finds an operator exactly if one fits, and it does. */
  lemma {:induction false} ResolvedIs(w: World, c: ClassId, closest: Option<Operator>, explicitName: bool, f: Type, t: Type)
    requires Grounded(w)
    ensures var r := Resolved(w, c, closest, explicitName, f, t);
            && (r.Some? && r != closest ==> FitsIn(w, OnChain(w, c), explicitName, f, t, r.value))
            && (r.None? ==> closest.None? && forall op :: !FitsIn(w, OnChain(w, c), explicitName, f, t, op))
    decreases c, 1, 0
  {
    hide OperatorFits, FirstFit, Bases, FitsIn, Next, OnBases, ResolvedBases;
    var here := OperatorsAt(w, c);
    FitsHere(w, here, explicitName, f, t);
    NoBases(w, c);
    if Next(w, c).Some? {
      var close := if closest.Some? then closest else FirstFit(w, here, explicitName, f, t, false);
      var above := OnChain(w, Next(w, c).value);
      ResolvedIs(w, Next(w, c).value, close, explicitName, f, t);
      FitsConcat(w, here, above, explicitName, f, t);
      assert OnChain(w, c) == here + above;
    } else {
      ResolvedBasesIs(w, c, 0, explicitName, f, t);
      FitsConcat(w, here, OnBases(w, c, 0), explicitName, f, t);
      assert OnChain(w, c) == here + OnBases(w, c, 0);
    }
  }

  lemma FitsHere(w: World, ops: seq<Operator>, explicitName: bool, f: Type, t: Type)
    requires Grounded(w)
    ensures forall exact :: var r := FirstFit(w, ops, explicitName, f, t, exact);
                            r.Some? ==> FitsIn(w, ops, explicitName, f, t, r.value)
    ensures FirstFit(w, ops, explicitName, f, t, false).None? ==> forall op :: !FitsIn(w, ops, explicitName, f, t, op)
  {
    hide OperatorFits, FirstFit;
    FirstFitIs(w, ops, explicitName, f, t, true);
    FirstFitIs(w, ops, explicitName, f, t, false);
  }

  lemma FitsConcat(w: World, a: seq<Operator>, b: seq<Operator>, explicitName: bool, f: Type, t: Type)
    requires Grounded(w)
    ensures forall op :: FitsIn(w, a + b, explicitName, f, t, op) <==>
      FitsIn(w, a, explicitName, f, t, op) || FitsIn(w, b, explicitName, f, t, op)
  {
    hide OperatorFits;
  }

  lemma NoneFits(w: World, explicitName: bool, f: Type, t: Type)
    requires Grounded(w)
    ensures forall op :: !FitsIn(w, [], explicitName, f, t, op)
  {
  }

  lemma NoBases(w: World, c: ClassId)
    requires Grounded(w)
    ensures Next(w, c).Some? ==> OnBases(w, c, 0) == [] && Next(w, c).value < c
  {
  }

  lemma {:induction false} ResolvedBasesIs(w: World, c: ClassId, k: nat, explicitName: bool, f: Type, t: Type)
    requires Grounded(w)
    ensures var r := ResolvedBases(w, c, k, explicitName, f, t);
            && (r.Some? ==> FitsIn(w, OnBases(w, c, k), explicitName, f, t, r.value))
            && (r.None? ==> forall op :: !FitsIn(w, OnBases(w, c, k), explicitName, f, t, op))
    decreases c, 0, |Bases(w, c)| - k
  {
    hide OperatorFits, Resolved, OnChain, FitsIn;
    NoneFits(w, explicitName, f, t);
    if k < |Bases(w, c)| {
      assert Bases(w, c)[k] in w.bases[c];
      FitsConcat(w, OnChain(w, Bases(w, c)[k]), OnBases(w, c, k + 1), explicitName, f, t);
      ResolvedIs(w, Bases(w, c)[k], None, explicitName, f, t);
      ResolvedBasesIs(w, c, k + 1, explicitName, f, t);
    }
  }

  /** On a class chain an exact match anywhere wins over any close one. */
  lemma {:induction false} ExactWins(w: World, c: ClassId, closest: Option<Operator>, explicitName: bool, f: Type, t: Type)
    requires Grounded(w) && forall i :: i in w.interfaces ==> Bases(w, i) == []
    ensures var ops := OnChain(w, c);
            var exact := FirstFit(w, ops, explicitName, f, t, true);
            Resolved(w, c, closest, explicitName, f, t) ==
              if exact.Some? then exact
              else if closest.Some? then closest
              else FirstFit(w, ops, explicitName, f, t, false)
    decreases c
  {
    hide *;
    var here := OperatorsAt(w, c);
    var above := if Next(w, c).Some? then OnChain(w, Next(w, c).value) else [];
    ResolvedStep(w, c, closest, explicitName, f, t);
    ClassesOnly(w, c, explicitName, f, t);
    FirstFitConcat(w, here, above, explicitName, f, t, true);
    FirstFitConcat(w, here, above, explicitName, f, t, false);
    NoFit(w, explicitName, f, t);
    if Next(w, c).Some? {
      var close := if closest.Some? then closest else FirstFit(w, here, explicitName, f, t, false);
      ExactWins(w, Next(w, c).value, close, explicitName, f, t);
    }
  }

  lemma ClassesOnly(w: World, c: ClassId, explicitName: bool, f: Type, t: Type)
    requires Grounded(w) && forall i :: i in w.interfaces ==> Bases(w, i) == []
    ensures OnChain(w, c) == OperatorsAt(w, c) + if Next(w, c).Some? then OnChain(w, Next(w, c).value) else []
    ensures ResolvedBases(w, c, 0, explicitName, f, t).None?
  {
    hide OperatorFits, FirstFit, Resolved;
    assert OnBases(w, c, 0) == [];
  }

  /** An operator is selected exactly if one fits, and it does. */
  lemma SelectedIs(w: World, c: ClassId, f: Type, t: Type, explicit: bool)
    requires Grounded(w)
    ensures var r := Selected(w, c, f, t, explicit);
            r.Some? ==> r.value in OnChain(w, c) && (r.value.explicit ==> explicit) && OperatorFits(w, f, t, r.value)
    ensures Selected(w, c, f, t, explicit).None? ==>
      forall op :: op in OnChain(w, c) && (op.explicit ==> explicit) ==> !OperatorFits(w, f, t, op)
  {
    hide OperatorFits, Resolved, OnChain;
    ResolvedIs(w, c, None, false, f, t);
    ResolvedIs(w, c, None, true, f, t);
    forall op | Selected(w, c, f, t, explicit).None? && op in OnChain(w, c) && (op.explicit ==> explicit)
      ensures !OperatorFits(w, f, t, op)
    {
      assert !FitsIn(w, OnChain(w, c), op.explicit, f, t, op);
    }
  }

  lemma NoFit(w: World, explicitName: bool, f: Type, t: Type)
    requires Grounded(w)
    ensures forall exact :: FirstFit(w, [], explicitName, f, t, exact).None?
  {
  }

  lemma FitStep(w: World, ops: seq<Operator>, k: nat, explicitName: bool, f: Type, t: Type, exact: bool)
    requires Grounded(w) && k < |ops|
    ensures FirstFit(w, ops[k..], explicitName, f, t, exact) ==
      if ops[k].explicit == explicitName && OperatorFits(w, f, t, ops[k]) && (exact ==> Identical(ops[k].param, f)) then Some(ops[k])
      else FirstFit(w, ops[k + 1..], explicitName, f, t, exact)
  {
    hide OperatorFits;
    assert ops[k..][1..] == ops[k + 1..];
  }

  /** The scan of one class in `ResolveMethod`: stops at an exact match. */
  method ScanClass(w: World, ops: seq<Operator>, explicitName: bool, f: Type, t: Type, closest0: Option<Operator>)
    returns (exact: Option<Operator>, closest: Option<Operator>)
    requires Grounded(w)
    ensures exact == FirstFit(w, ops, explicitName, f, t, true)
    ensures exact.None? ==> closest == if closest0.Some? then closest0 else FirstFit(w, ops, explicitName, f, t, false)
    decreases 2, f, 3
  {
    hide Converts, OperatorFits, FirstFit, Identical, Bare;
    exact, closest := None, closest0;
    var k := 0;
    NoFit(w, explicitName, f, t);
    assert ops[0..] == ops;
    while k < |ops|
      invariant k <= |ops|
      invariant FirstFit(w, ops, explicitName, f, t, true) == FirstFit(w, ops[k..], explicitName, f, t, true)
      invariant (if closest0.Some? then closest0 else FirstFit(w, ops, explicitName, f, t, false))
        == if closest.Some? then closest else FirstFit(w, ops[k..], explicitName, f, t, false)
    {
      var op := ops[k];
      FitsWhen(w, f, t, op);
      FitStep(w, ops, k, explicitName, f, t, true);
      FitStep(w, ops, k, explicitName, f, t, false);
      k := k + 1;
      if op.explicit != explicitName || !Identical(op.result, t) {
        continue;
      }
      var same := Identical(op.param, f);
      if !same {
        var coerces := CanCoerceKind(w, f, op.param, STANDARD);
        if !coerces {
          continue;
        }
      }
      if !op.eligible {
        continue;
      }
      if same {
        return Some(op), closest;
      } else if closest.None? {
        closest := Some(op);
      }
    }
    assert ops[k..] == [];
  }

  /** `ResolveMethod` for a conversion operator. */
  method ResolveConversion(w: World, start: ClassId, explicitName: bool, f: Type, t: Type) returns (r: Option<Operator>)
    requires Grounded(w)
    ensures r == Resolved(w, start, None, explicitName, f, t)
    decreases 2, f, 4, start
  {
    hide *;
    var classInfo: Option<ClassId> := Some(start);
    var closest: Option<Operator> := None;
    while classInfo.Some?
      invariant classInfo.Some? ==> classInfo.value <= start
      invariant Resolved(w, start, None, explicitName, f, t) ==
        if classInfo.Some? then Resolved(w, classInfo.value, closest, explicitName, f, t) else closest
      decreases if classInfo.Some? then classInfo.value + 1 else 0
    {
      var c := classInfo.value;
      ResolvedStep(w, c, closest, explicitName, f, t);
      var exact;
      exact, closest := ScanClass(w, OperatorsAt(w, c), explicitName, f, t, closest);
      if exact.Some? {
        return exact;
      }
      if Next(w, c).None? {
        var k := 0;
        while k < |Bases(w, c)|
          invariant k <= |Bases(w, c)|
          invariant ResolvedBases(w, c, 0, explicitName, f, t) == ResolvedBases(w, c, k, explicitName, f, t)
        {
          BasesStep(w, c, k, explicitName, f, t);
          var found := ResolveConversion(w, Bases(w, c)[k], explicitName, f, t);
          if found.Some? {
            return found;
          }
          k := k + 1;
        }
        BasesEnd(w, c, k, explicitName, f, t);
      }
      classInfo := Next(w, c);
    }
    return closest;
  }

  lemma ResolvedStep(w: World, c: ClassId, closest: Option<Operator>, explicitName: bool, f: Type, t: Type)
    requires Grounded(w)
    ensures Next(w, c).Some? ==> Next(w, c).value < c
    ensures var here := OperatorsAt(w, c);
            var exact := FirstFit(w, here, explicitName, f, t, true);
            var close := if closest.Some? then closest else FirstFit(w, here, explicitName, f, t, false);
            Resolved(w, c, closest, explicitName, f, t) ==
              if exact.Some? then exact
              else if Next(w, c).Some? then Resolved(w, Next(w, c).value, close, explicitName, f, t)
              else if ResolvedBases(w, c, 0, explicitName, f, t).Some? then ResolvedBases(w, c, 0, explicitName, f, t)
              else close
  {
    hide FirstFit, ResolvedBases;
  }

  lemma BasesStep(w: World, c: ClassId, k: nat, explicitName: bool, f: Type, t: Type)
    requires Grounded(w) && k < |Bases(w, c)|
    ensures Bases(w, c)[k] < c
    ensures var first := Resolved(w, Bases(w, c)[k], None, explicitName, f, t);
            ResolvedBases(w, c, k, explicitName, f, t) ==
              if first.Some? then first else ResolvedBases(w, c, k + 1, explicitName, f, t)
  {
    hide Resolved;
    assert Bases(w, c)[k] in w.bases[c];
  }

  lemma BasesEnd(w: World, c: ClassId, k: nat, explicitName: bool, f: Type, t: Type)
    requires Grounded(w) && k >= |Bases(w, c)|
    ensures ResolvedBases(w, c, k, explicitName, f, t).None?
  {
  }

  /** `FindConversion` */
  method FindConversion(w: World, classInfo: ClassId, f: Type, t: Type, explicit: bool, rules: ConvertRules) returns (ok: bool)
    requires Grounded(w) && rules.Cleared()
    modifies rules
    ensures ok <==> Selected(w, classInfo, f, t, explicit).Some?
    ensures if ok then rules.userOperator == Selected(w, classInfo, f, t, explicit) && rules.Count() == 1 && rules.Single()
            else rules.Cleared()
    decreases 2, f, 5
  {
    hide Resolved, OnChain;
    var found := ResolveConversion(w, classInfo, false, f, t);
    if found.Some? {
      rules.userOperator := found;
      return true;
    }
    if explicit {
      found := ResolveConversion(w, classInfo, true, f, t);
      if found.Some? {
        rules.userOperator := found;
        return true;
      }
    }
    return false;
  }

  ghost function SelectedOf(w: World, s: Type, f: Type, t: Type, explicit: bool): (r: Option<Operator>)
    requires Grounded(w)
  {
    if w.classOf(s).Some? then Selected(w, w.classOf(s).value, f, t, explicit) else None
  }

  /** The operator of the source type's classes, or else of the target's. */
  ghost function UserOperator(w: World, f: Type, t: Type, explicit: bool): (r: Option<Operator>)
    requires Grounded(w)
  {
    var first := SelectedOf(w, f, f, t, explicit);
    if first.Some? then first else SelectedOf(w, t, f, t, explicit)
  }

  /** The user-defined operators of both types' classes. */
  method UserRules(w: World, f: Type, t: Type, explicit: bool, ghost kinds: Kinds, rules: ConvertRules) returns (ok: bool)
    requires Grounded(w) && rules.Cleared() && Strip(f) == f && Strip(t) == t && kinds.userDefined
    modifies rules
    ensures ok <==> UserDefined(w, f, t, explicit)
    ensures ok ==> rules.Single() && rules.Recorded().Apply? && UserOperator(w, f, t, explicit) == Some(rules.Recorded().op)
    ensures if ok then rules.Right(w, f, t, explicit, kinds) else rules.Cleared()
    decreases 2, f, 6
  {
    hide OperatorFits, Selected, OnChain, UserDefined;
    UserOperatorIs(w, f, t, explicit);
    ok := false;
    if w.classOf(f).Some? {
      ok := FindConversion(w, w.classOf(f).value, f, t, explicit, rules);
    }
    if !ok && w.classOf(t).Some? {
      ok := FindConversion(w, w.classOf(t).value, f, t, explicit, rules);
    }
  }

  lemma SelectedOfIs(w: World, s: Type, f: Type, t: Type, explicit: bool)
    requires Grounded(w)
    ensures var r := SelectedOf(w, s, f, t, explicit);
            r.Some? ==> r.value in OperatorsOf(w, s) && (r.value.explicit ==> explicit) && OperatorFits(w, f, t, r.value)
    ensures SelectedOf(w, s, f, t, explicit).None? ==>
      forall op :: op in OperatorsOf(w, s) && (op.explicit ==> explicit) ==> !OperatorFits(w, f, t, op)
  {
    hide OperatorFits, Selected, OnChain;
    if w.classOf(s).Some? {
      SelectedIs(w, w.classOf(s).value, f, t, explicit);
    }
  }

  lemma UserOperatorIs(w: World, f: Type, t: Type, explicit: bool)
    requires Grounded(w)
    ensures var r := UserOperator(w, f, t, explicit);
            && (r.Some? <==> UserDefined(w, f, t, explicit))
            && (r.Some? ==> (r.value.explicit ==> explicit) && OperatorFits(w, f, t, r.value))
  {
    hide OperatorFits, Selected, OnChain;
    SelectedOfIs(w, f, f, t, explicit);
    SelectedOfIs(w, t, f, t, explicit);
    var r := UserOperator(w, f, t, explicit);
    if r.Some? {
      assert Candidate(w, f, t, r.value);
    }
  }

  /** `GetReferenceConvertRules` */
  method ReferenceRules(w: World, f: Type, t: Type, explicit: bool, ghost kinds: Kinds, rules: ConvertRules) returns (ok: bool)
    requires Grounded(w) && rules.Cleared() && Strip(f) == f && Strip(t) == t && !Identical(f, t) && kinds.reference
    modifies rules
    ensures ok <==> ReferenceConverts(w, f, t, explicit)
    ensures if ok then rules.Right(w, f, t, explicit, kinds) else rules.Cleared()
    ensures ok ==> rules.Single() && CheckedCast(w, f, t, explicit, rules.Recorded())
    decreases 0, f, 5
  {
    hide Converts, Sensible, Inherits;
    if !IsReference(f) || !IsReference(t) {
      return false;
    }
    if IsObject(w, t) {
      return true;
    }
    if IsObject(w, f) && explicit {
      rules.castType := Some(t);
      FromObject(w, f, t);
      return true;
    }
    if w.classOf(f).None? || w.classOf(t).None? {
      return false;
    }
    var cf, ct := w.classOf(f).value, w.classOf(t).value;
    if Inherits(w, cf, ct) {
      return true;
    }
    if explicit && Inherits(w, ct, cf) {
      rules.castType := Some(t);
      ToDescendant(w, f, t);
      return true;
    }
    if ct in w.interfaces {
      if Implements(w, cf, ct) {
        return true;
      } else if explicit && cf !in w.sealed {
        rules.castType := Some(t);
        ToInterface(w, f, t);
        return true;
      }
    }
    if explicit && cf in w.interfaces {
      if ct !in w.interfaces {
        if ct !in w.sealed || Implements(w, ct, cf) {
          rules.castType := Some(t);
          FromInterface(w, f, t);
          return true;
        }
      } else if !Implements(w, cf, ct) {
        rules.castType := Some(t);
        FromInterface(w, f, t);
        return true;
      }
    }
    if f.Array? && t.Array? && f.rank == t.rank && IsReference(f.elem) && IsReference(t.elem) {
      var below := GetConvertRules(w, f.elem, t.elem, explicit, REFERENCE, rules);
      if below {
        CastExactly(w, f.elem, t.elem, explicit, rules.Recorded());
        if rules.castType.Some? {
          rules.castType := Some(t);
        }
        return true;
      }
    }
    return false;
  }

  // The cases in which a checked cast is recorded: none of them is implicit.

  lemma FromObject(w: World, f: Type, t: Type)
    requires Grounded(w) && IsObject(w, f) && !IsObject(w, t) && Strip(f) == f && Strip(t) == t && IsReference(t)
    ensures Sensible(w) ==> !ReferenceConverts(w, f, t, false)
  {
    hide Converts;
  }

  lemma ToDescendant(w: World, f: Type, t: Type)
    requires Grounded(w) && Strip(f) == f && Strip(t) == t && IsReference(f) && IsReference(t) && !IsObject(w, t)
    requires w.classOf(f).Some? && w.classOf(t).Some?
    requires !Inherits(w, w.classOf(f).value, w.classOf(t).value) && Inherits(w, w.classOf(t).value, w.classOf(f).value)
    ensures Sensible(w) ==> !ReferenceConverts(w, f, t, false)
  {
    hide Converts;
    if Sensible(w) && f.Array? {
      NotAbove(w, w.classOf(t).value, w.classOf(f).value);
    }
  }

  /** A class without descendants of its own. */
  lemma {:induction false} NotAbove(w: World, c: ClassId, d: ClassId)
    requires Grounded(w) && Inherits(w, c, d) && forall e :: e in w.parent ==> w.parent[e] != d
    ensures c == d
    decreases c
  {
    if c != d {
      NotAbove(w, w.parent[c], d);
    }
  }

  lemma ToInterface(w: World, f: Type, t: Type)
    requires Grounded(w) && Strip(f) == f && Strip(t) == t && IsReference(f) && IsReference(t) && !IsObject(w, t)
    requires w.classOf(f).Some? && w.classOf(t).Some?
    requires !Inherits(w, w.classOf(f).value, w.classOf(t).value)
    requires w.classOf(t).value in w.interfaces && !Implements(w, w.classOf(f).value, w.classOf(t).value)
    ensures Sensible(w) ==> !ReferenceConverts(w, f, t, false)
  {
    hide Converts, Inherits;
  }

  lemma FromInterface(w: World, f: Type, t: Type)
    requires Grounded(w) && Strip(f) == f && Strip(t) == t && IsReference(f) && IsReference(t) && !IsObject(w, t)
    requires w.classOf(f).Some? && w.classOf(t).Some? && w.classOf(f).value in w.interfaces
    requires !Inherits(w, w.classOf(f).value, w.classOf(t).value)
    requires w.classOf(t).value in w.interfaces ==> !Implements(w, w.classOf(f).value, w.classOf(t).value)
    ensures Sensible(w) ==> !ReferenceConverts(w, f, t, false)
  {
    hide Converts, Inherits;
  }

  /** `GetBoxingConvertRules` */
  method BoxingRules(w: World, f: Type, t: Type, explicit: bool, ghost kinds: Kinds, rules: ConvertRules) returns (ok: bool)
    requires Grounded(w) && rules.Cleared() && Strip(f) == f && Strip(t) == t && kinds.boxing
    modifies rules
    ensures ok <==> Boxes(w, f, t, explicit)
    ensures if ok then rules.Right(w, f, t, explicit, kinds) else rules.Cleared()
    ensures ok ==> rules.Single() && BoxedAs(w, f, t, rules.Recorded())
  {
    if IsValue(f) {
      if w.classOf(f).None? {
        return false;
      }
      if IsObject(w, t) {
        rules.boxClass, rules.boxIsEnum := w.classOf(f), IsEnum(w, f);
        return true;
      }
      if !IsReference(t) || w.classOf(t).None? {
        return false;
      }
      if w.classOf(t).value in w.interfaces {
        if !Implements(w, w.classOf(f).value, w.classOf(t).value) {
          return false;
        }
      } else if !Inherits(w, w.classOf(f).value, w.classOf(t).value) {
        return false;
      }
      rules.boxClass, rules.boxIsEnum := w.classOf(f), IsEnum(w, f);
      return true;
    } else if explicit && IsReference(f) && IsValue(t) {
      if w.classOf(f).None? || w.classOf(t).None? {
        return false;
      }
      if IsObject(w, f) {
        rules.unboxClass, rules.boxIsEnum := w.classOf(t), IsEnum(w, t);
        return true;
      }
      if w.classOf(f).value in w.interfaces {
        if !Implements(w, w.classOf(t).value, w.classOf(f).value) {
          return false;
        }
      } else if !Inherits(w, w.classOf(t).value, w.classOf(f).value) {
        return false;
      }
      rules.unboxClass, rules.boxIsEnum := w.classOf(t), IsEnum(w, t);
      return true;
    } else {
      return false;
    }
  }

  /** `GetUnsafeConvertRules` */
  method UnsafeRules(w: World, f: Type, t: Type, explicit: bool, ghost kinds: Kinds, rules: ConvertRules) returns (ok: bool)
    requires Grounded(w) && rules.Cleared() && Strip(f) == f && Strip(t) == t && f != Null
    modifies rules
    ensures ok <==> UnsafeConverts(w, f, t, explicit)
    ensures if ok then rules.Right(w, f, t, explicit, kinds) else rules.Cleared()
    ensures ok ==> rules.Single() && PointerRule(w, f, t, explicit, rules.Recorded())
  {
    hide Converts;
    if t.Pointer? && f.Pointer? {
      if explicit {
        return true;
      }
      return t.target == Prim(VOID);
    } else if t.Pointer? && f == Prim(INT) {
      if explicit {
        return true;
      }
    } else if f.Pointer? && t == Prim(INT) {
      if explicit {
        return true;
      }
    }
    if explicit {
      if IsNumeric(w, t) && f.Pointer? {
        var conv := FindBuiltin(w, f, t, true, true);
        if conv.Some? {
          rules.builtin := conv;
          return true;
        }
      }
      if t.Pointer? && IsNumeric(w, f) {
        var conv := FindBuiltin(w, f, t, true, true);
        if conv.Some? {
          rules.builtin := conv;
          return true;
        }
      }
    } else if w.inFixed {
      if f == Class(w.stringClass) && t.Pointer? {
        if Strip(t.target) == Prim(CHAR) || Strip(t.target) == Prim(VOID) {
          rules.stringCharPtr := true;
          return true;
        }
      }
      if f.Array? && t.Pointer? {
        if Strip(t.target) == Prim(VOID) {
          rules.arrayElementPtr := true;
          return true;
        }
        if Identical(f.elem, t.target) {
          rules.arrayElementPtr := true;
          return true;
        }
      }
      if t.Pointer? && f.Ref? {
        if t.target == Prim(VOID) {
          return true;
        }
        if Identical(f.referent, t.target) {
          return true;
        }
      }
    }
    return false;
  }

  /** The explicit enumeration conversions. */
  method EnumRules(w: World, f: Type, t: Type, ghost kinds: Kinds, rules: ConvertRules) returns (ok: bool)
    requires Grounded(w) && rules.Cleared() && Strip(f) == f && Strip(t) == t && kinds.enumeration
    modifies rules
    ensures ok <==> EnumConverts(w, f, t)
    ensures if ok then rules.Right(w, f, t, true, kinds) else rules.Cleared()
    ensures ok ==> rules.Single() && Selects(w, Underlying(w, f).value, Underlying(w, t).value, true, NUMERIC, rules.Recorded())
    decreases 1, f, 5
  {
    hide Converts, HasBuiltin;
    ok := false;
    if IsEnum(w, f) {
      if IsEnum(w, t) {
        ok := GetConvertRules(w, w.enums[f.v], w.enums[t.v], true, NUMERIC, rules);
      } else if IsNumeric(w, t) {
        ok := GetConvertRules(w, w.enums[f.v], t, true, NUMERIC, rules);
      }
    } else if IsEnum(w, t) {
      if IsNumeric(w, f) {
        ok := GetConvertRules(w, f, w.enums[t.v], true, NUMERIC, rules);
      }
    }
  }

  /** The builtin numeric conversions. */
  method NumericRules(w: World, f: Type, t: Type, explicit: bool, ghost kinds: Kinds, rules: ConvertRules) returns (ok: bool)
    requires Grounded(w) && rules.Cleared() && Strip(f) == f && Strip(t) == t && kinds.numeric
    modifies rules
    ensures ok <==> HasBuiltin(w, f, t, explicit, false)
    ensures if ok then rules.Right(w, f, t, explicit, kinds) else rules.Cleared()
    ensures ok ==> rules.Single() && FirstRow(w, f, t, explicit, false, rules.Recorded())
  {
    hide HasBuiltin;
    var conv := FindBuiltin(w, f, t, explicit, false);
    ok := conv.Some?;
    if ok {
      rules.builtin := conv;
    }
  }

  /** The kinds of conversions, tried one after the other. */
  ghost predicate KindConverts(w: World, f: Type, t: Type, explicit: bool, kinds: Kinds)
    requires Grounded(w)
  {
    || (kinds.numeric && HasBuiltin(w, f, t, explicit, false))
    || (kinds.userDefined && UserDefined(w, f, t, explicit))
    || (kinds.reference && ReferenceConverts(w, f, t, explicit))
    || (kinds.boxing && Boxes(w, f, t, explicit))
    || (kinds.enumeration && explicit && EnumConverts(w, f, t))
    || (w.unsafe && UnsafeConverts(w, f, t, explicit))
  }

  method KindRules(w: World, f: Type, t: Type, explicit: bool, kinds: Kinds, rules: ConvertRules) returns (ok: bool)
    requires Grounded(w) && rules.Cleared() && Strip(f) == f && Strip(t) == t && !Identical(f, t) && f != Null
    modifies rules
    ensures ok <==> KindConverts(w, f, t, explicit, kinds)
    ensures if ok then rules.Right(w, f, t, explicit, kinds) else rules.Cleared()
    ensures ok ==> rules.Single() && SelectsKind(w, f, t, explicit, kinds, rules.Recorded())
    decreases Level(kinds), f, 8
  {
    hide ConvertRules.Right, ConvertRules.Cleared, ReferenceConverts, UserDefined, Boxes, EnumConverts, UnsafeConverts, HasBuiltin, Sensible, Strip;
    ok := false;
    if kinds.numeric {
      ok := NumericRules(w, f, t, explicit, kinds, rules);
    }
    if !ok && kinds.userDefined {
      ok := UserRules(w, f, t, explicit, kinds, rules);
    }
    if !ok && kinds.reference {
      ok := ReferenceRules(w, f, t, explicit, kinds, rules);
    }
    if !ok && kinds.boxing {
      ok := BoxingRules(w, f, t, explicit, kinds, rules);
    }
    if !ok && kinds.enumeration && explicit {
      ok := EnumRules(w, f, t, kinds, rules);
    }
    if !ok && w.unsafe {
      ok := UnsafeRules(w, f, t, explicit, kinds, rules);
    }
  }

  lemma ReferencesAreSafe(w: World, f: Type, t: Type, explicit: bool)
    requires Strip(f) == f && Strip(t) == t
    ensures IsReference(f) && IsReference(t) ==> !UnsafeConverts(w, f, t, explicit)
  {
  }

  lemma ConvertsWhen(w: World, from: Type, to: Type, explicit: bool, kinds: Kinds)
    requires Grounded(w)
    ensures var f, t := Strip(from), Strip(to);
            Converts(w, from, to, explicit, kinds) <==>
              Identical(f, t) || (t != Null && if f == Null then kinds.reference && (IsReference(t) || (t.Pointer? && w.unsafe))
                                      else KindConverts(w, f, t, explicit, kinds))
  {
    hide ReferenceConverts, UserDefined, Boxes, EnumConverts, UnsafeConverts, HasBuiltin;
  }

  /** `GetConvertRules`: decides whether there is a conversion, and records the
      rule that `Selects` prescribes. */
  method GetConvertRules(w: World, fromType: Type, toType: Type, explicit: bool, kinds: Kinds, rules: ConvertRules) returns (ok: bool)
    requires Grounded(w)
    modifies rules
    ensures ok <==> Converts(w, fromType, toType, explicit, kinds)
    ensures if ok then rules.Right(w, fromType, toType, explicit, kinds) else rules.Cleared()
    ensures ok ==> rules.Single() && Selects(w, fromType, toType, explicit, kinds, rules.Recorded())
    decreases Level(kinds), fromType, 9
  {
    hide Converts, KindConverts, OperatorFits, BuiltinRight, Sensible, SelectsKind, Identical;
    rules.Clear();
    var f, t := Strip(fromType), Strip(toType);
    ConvertsWhen(w, fromType, toType, explicit, kinds);
    if Identical(f, t) {
      return true;
    }
    if t == Null {
      return false;
    }
    if f == Null {
      if kinds.reference {
        if t.Pointer? && w.unsafe {
          rules.pointerNull := true;
          return true;
        }
        return IsReference(t);
      } else {
        return false;
      }
    }
    ok := KindRules(w, f, t, explicit, kinds, rules);
  }

  /** Between reference types: a checked cast exactly when the conversion is
      not an implicit one. */
  lemma CastExactly(w: World, from: Type, to: Type, explicit: bool, rule: Rule)
    requires Grounded(w) && IsReference(from) && IsReference(to)
    requires Converts(w, from, to, explicit, REFERENCE) && Selects(w, from, to, explicit, REFERENCE, rule)
    ensures rule == NoRule || (explicit && rule == Cast(Strip(to)))
    ensures rule == NoRule ==> Converts(w, from, to, false, REFERENCE)
    ensures Sensible(w) && Converts(w, from, to, false, REFERENCE) ==> rule == NoRule
  {
    hide KindConverts, ReferenceConverts, Sensible, Converts;
    var f, t := Strip(from), Strip(to);
    ConvertsWhen(w, from, to, explicit, REFERENCE);
    ConvertsWhen(w, from, to, false, REFERENCE);
    ReferenceKind(w, f, t, explicit);
    ReferenceKind(w, f, t, false);
  }

  lemma ReferenceKind(w: World, f: Type, t: Type, explicit: bool)
    requires Grounded(w) && Strip(f) == f && Strip(t) == t
    ensures IsReference(f) && IsReference(t) ==> (KindConverts(w, f, t, explicit, REFERENCE) <==> ReferenceConverts(w, f, t, explicit))
  {
    hide ReferenceConverts;
    if IsReference(f) && IsReference(t) {
      ReferencesAreSafe(w, f, t, explicit);
    }
  }

  /** Between values and references, when neither the table nor an operator
      provides for it, the value is always boxed or unboxed, as its own class. */
  lemma BoxingRecorded(w: World, from: Type, to: Type, explicit: bool, kinds: Kinds, rule: Rule)
    requires Grounded(w) && Converts(w, from, to, explicit, kinds) && Selects(w, from, to, explicit, kinds, rule)
    requires !HasBuiltin(w, Strip(from), Strip(to), explicit, false) && !UserDefined(w, Strip(from), Strip(to), explicit)
    ensures IsValue(from) && IsReference(to) ==> rule.Box? && w.classOf(Strip(from)) == Some(rule.c)
    ensures IsReference(from) && IsValue(to) ==> explicit && rule.Unbox? && w.classOf(Strip(to)) == Some(rule.c)
  {
    hide HasBuiltin, UserDefined, Converts, BoxClass, ClassConverts, ClassCasts;
    ConvertsWhen(w, from, to, explicit, kinds);
  }

  /** Nothing is recorded only where the representation stays as it is. */
  lemma NothingRecorded(w: World, from: Type, to: Type, explicit: bool, kinds: Kinds)
    requires Grounded(w) && Converts(w, from, to, explicit, kinds) && Selects(w, from, to, explicit, kinds, NoRule)
    ensures var f, t := Strip(from), Strip(to);
            || Identical(f, t)
            || (f == Null && IsReference(t))
            || (kinds.reference && ReferenceConverts(w, f, t, false))
            || (w.unsafe && ((f.Pointer? && t.Pointer?) || (f.Ref? && t.Pointer?)
                             || (explicit && ((f == Prim(INT) && t.Pointer?) || (f.Pointer? && t == Prim(INT))))))
            || (explicit && kinds.enumeration && EnumConverts(w, f, t)
                && Selects(w, Underlying(w, f).value, Underlying(w, t).value, true, NUMERIC, NoRule))
  {
    hide HasBuiltin, UserDefined, Converts, ReferenceConverts, Boxes;
    ConvertsWhen(w, from, to, explicit, kinds);
  }

  /** The argument of a conversion operator converts implicitly, so applying
      the rules of an operator always succeeds. */
  lemma OperatorArgument(w: World, f: Type, t: Type, op: Operator)
    requires Grounded(w) && OperatorFits(w, f, t, op)
    ensures Converts(w, f, op.param, false, ALL)
  {
    if Identical(op.param, f) {
      BareStrip(f);
      BareStrip(op.param);
    } else {
      MoreKinds(w, f, op.param, false, STANDARD, ALL);
    }
  }
}
