/** Temporary local variables of a method being generated, and the frame slots
    they take on the Java target. */
module Temps {

  datatype MachineType =
    | Void | Boolean | Int8 | UInt8 | Int16 | UInt16 | Char | Int32 | UInt32 | Int64 | UInt64
    | NativeInt | NativeUInt | Float32 | Float64 | NativeFloat | Decimal | String | ObjectRef
    | UnmanagedPtr | ManagedPtr | TransientPtr | ManagedValue

  /** The machine types that take two Java slots. */
  const WIDE := {Int64, UInt64, Float64, NativeFloat}

  /** A type, up to `ILTypeIdentical`, with its machine type. */
  datatype Type = Type(id: nat, machine: MachineType)

  /** A variable; temporaries have scope level -1, named locals their own. */
  datatype Slot = Slot(ty: Type, live: bool, scopeLevel: int)

  const TEMPORARY := -1

  /** Requests made of the allocator; an index is what an earlier request
      returned, or anything else. */
  datatype Op = Alloc(ty: Type) | Release(index: int)

  datatype Answer = Index(value: nat) | TooMany | Nothing

  const LIMIT: nat := 0xFFFF

  /** The first free slot of the type, or the number of slots. */
  function FreeAt(slots: seq<Slot>, ty: Type, from: nat): (k: nat)
    requires from <= |slots|
    ensures from <= k <= |slots|
    ensures k < |slots| ==> !slots[k].live && slots[k].ty == ty
    ensures forall i :: from <= i < k ==> slots[i].live || slots[i].ty != ty
    decreases |slots| - from
  {
    if from == |slots| || (!slots[from].live && slots[from].ty == ty) then from else FreeAt(slots, ty, from + 1)
  }

  /** One request; after running out of indices the program has exited. */
  function Step(slots: seq<Slot>, base: nat, op: Op): (r: (seq<Slot>, Answer)) {
    match op
    case Alloc(ty) =>
      var k := FreeAt(slots, ty, 0);
      if k < |slots| then (slots[k := slots[k].(live := true)], Index(base + k))
      else if base + |slots| == LIMIT then (slots, TooMany)
      else (slots + [Slot(ty, true, TEMPORARY)], Index(base + |slots|))
    case Release(index) =>
      if base <= index < base + |slots| && slots[index - base].scopeLevel == TEMPORARY
      then (slots[index - base := slots[index - base].(live := false)], Nothing)
      else (slots, Nothing)
  }

  function Run(base: nat, ops: seq<Op>): (r: seq<Slot>) {
    if ops == [] then [] else Step(Run(base, ops[..|ops|-1]), base, ops[|ops|-1]).0
  }

  function Count(slots: seq<Slot>, ty: Type): (r: nat) {
    if slots == [] then 0
    else Count(slots[..|slots|-1], ty) + if slots[|slots|-1].ty == ty then 1 else 0
  }

  function Live(slots: seq<Slot>, ty: Type): (r: nat) {
    if slots == [] then 0
    else Live(slots[..|slots|-1], ty) + if slots[|slots|-1].ty == ty && slots[|slots|-1].live then 1 else 0
  }

  /** The largest number of temporaries of the type that were ever in use at
      the same time. */
  function Peak(base: nat, ops: seq<Op>, ty: Type): (r: nat) {
    var now := Live(Run(base, ops), ty);
    if ops == [] then now
    else
      var before := Peak(base, ops[..|ops|-1], ty);
      if before < now then now else before
  }

  // ------------------------------------------------------------- counting

  lemma {:induction false} CountUpdate(slots: seq<Slot>, k: nat, live: bool, ty: Type)
    requires k < |slots|
    ensures var slots' := slots[k := slots[k].(live := live)];
            && Count(slots', ty) == Count(slots, ty)
            && Live(slots', ty) == Live(slots, ty)
                 + (if slots[k].ty == ty && live && !slots[k].live then 1 else 0)
                 - (if slots[k].ty == ty && !live && slots[k].live then 1 else 0)
  {
    var slots' := slots[k := slots[k].(live := live)];
    var n := |slots| - 1;
    if k == n {
      assert slots'[..n] == slots[..n];
    } else {
      CountUpdate(slots[..n], k, live, ty);
      assert slots'[..n] == slots[..n][k := slots[k].(live := live)];
    }
  }

  lemma {:induction false} LiveAtMost(slots: seq<Slot>, ty: Type)
    ensures Live(slots, ty) <= Count(slots, ty)
    ensures (forall i :: 0 <= i < |slots| ==> slots[i].live || slots[i].ty != ty) ==> Live(slots, ty) == Count(slots, ty)
  {
    if slots != [] {
      LiveAtMost(slots[..|slots|-1], ty);
      assert forall i :: 0 <= i < |slots| - 1 ==> slots[..|slots|-1][i] == slots[i];
    }
  }

  /** A slot is only added when all slots of its type are in use. */
  lemma StepCounts(slots: seq<Slot>, base: nat, op: Op, ty: Type)
    ensures var slots' := Step(slots, base, op).0;
            && Count(slots, ty) <= Count(slots', ty)
            && (Count(slots', ty) > Count(slots, ty) ==> Live(slots', ty) == Count(slots', ty))
  {
    match op
    case Alloc(t) =>
      var k := FreeAt(slots, t, 0);
      if k < |slots| {
        CountUpdate(slots, k, true, ty);
      } else if base + |slots| != LIMIT {
        assert (slots + [Slot(t, true, TEMPORARY)])[..|slots|] == slots;
        LiveAtMost(slots, ty);
      }
    case Release(index) =>
      if base <= index < base + |slots| && slots[index - base].scopeLevel == TEMPORARY {
        CountUpdate(slots, index - base, false, ty);
      }
  }

  /** Over every run, the slots of a type are as many as its temporaries were
      in use at the same time at the worst moment. */
  lemma {:induction false} SlotsArePeak(base: nat, ops: seq<Op>, ty: Type)
    ensures Count(Run(base, ops), ty) == Peak(base, ops, ty)
  {
    LiveAtMost(Run(base, ops), ty);
    if ops != [] {
      var before := ops[..|ops|-1];
      SlotsArePeak(base, before, ty);
      StepCounts(Run(base, before), base, ops[|ops|-1], ty);
    }
  }

  /** A run of requests only makes temporaries, so each release of an index
      that was handed out frees its slot. */
  lemma {:induction false} RunsAreTemporary(base: nat, ops: seq<Op>, index: nat)
    requires base <= index < base + |Run(base, ops)|
    ensures forall s :: s in Run(base, ops) ==> s.scopeLevel == TEMPORARY
    ensures !Step(Run(base, ops), base, Release(index)).0[index - base].live
  {
    AllTemporary(base, ops);
  }

  lemma {:induction false} AllTemporary(base: nat, ops: seq<Op>)
    ensures forall s :: s in Run(base, ops) ==> s.scopeLevel == TEMPORARY
  {
    if ops != [] {
      AllTemporary(base, ops[..|ops|-1]);
    }
  }

  /** A request changes no slot but the one it answers with or releases: an
      answer is a slot that was free, of the type, and a release frees exactly
      its own index. */
  lemma StepExactly(slots: seq<Slot>, base: nat, op: Op)
    ensures var (slots', answer) := Step(slots, base, op);
            && |slots| <= |slots'| <= |slots| + 1
            && (op.Release? ==> |slots'| == |slots| && answer == Nothing)
            && (op.Alloc? ==> answer == TooMany || (answer.Index? && base <= answer.value < base + |slots'|))
            && (answer == TooMany ==> slots' == slots)
            && (answer == TooMany <==>
                  op.Alloc? && base + |slots| == 0xFFFF && forall i :: 0 <= i < |slots| ==> slots[i].live || slots[i].ty != op.ty)
            && forall i :: 0 <= i < |slots'| ==>
                 if op == Release(base + i) && slots[i].scopeLevel == TEMPORARY then slots'[i] == slots[i].(live := false)
                 else if answer == Index(base + i) then
                   slots'[i] == Slot(op.ty, true, if i < |slots| then slots[i].scopeLevel else TEMPORARY)
                   && (i < |slots| ==> !slots[i].live && slots[i].ty == op.ty)
                 else i < |slots| && slots'[i] == slots[i]
  {
  }

  /** Indices stay below the limit. */
  lemma {:induction false} IndicesBounded(base: nat, ops: seq<Op>)
    requires base <= LIMIT
    ensures base + |Run(base, ops)| <= LIMIT
  {
    if ops != [] {
      IndicesBounded(base, ops[..|ops|-1]);
    }
  }

  // -------------------------------------------------------- the allocator

  /** `JavaGenTypeSize` */
  function TypeSize(m: MachineType): (r: nat)
    ensures (r == 0 <==> m == Void) && (r == 2 <==> m in WIDE) && r <= 2
  {
    if m.Void? then 0 else if m.Int64? || m.UInt64? || m.Float64? || m.NativeFloat? then 2 else 1
  }

  /** The first Java slots of variables laid out one after the other. */
  function Offset(sizes: seq<nat>): (r: nat) {
    if sizes == [] then 0 else Offset(sizes[..|sizes|-1]) + sizes[|sizes|-1]
  }

  /** Different variables take different Java slots, all below the total. */
  lemma {:induction false} RangesDisjoint(sizes: seq<nat>, i: nat, j: nat)
    requires i < j <= |sizes|
    ensures Offset(sizes[..i]) + sizes[i] <= Offset(sizes[..j])
    decreases j
  {
    var before := sizes[..j - 1];
    assert sizes[..j][..j - 1] == before;
    if i < j - 1 {
      RangesDisjoint(sizes, i, j - 1);
    }
  }

  lemma {:induction false} OffsetsGrow(sizes: seq<nat>, i: nat, j: nat)
    requires i <= j <= |sizes|
    ensures Offset(sizes[..i]) <= Offset(sizes[..j])
    decreases j - i
  {
    if i < j {
      OffsetsGrow(sizes, i, j - 1);
      assert sizes[..j][..j - 1] == sizes[..j - 1];
    }
  }

  class Generator {
    const outputIsJava: bool
    var tempVars: seq<Slot>
    var tempLocalBase: nat
    var localMap: seq<nat>
    var numArgs: nat
    var nextLocalSlot: nat
    ghost var sizes: seq<nat>

    /** The Java map gives each variable the slot after its predecessors'. */
    ghost predicate Valid()
      reads this
    {
      && |localMap| == |sizes| && nextLocalSlot == Offset(sizes)
      && forall i :: 0 <= i < |sizes| ==> localMap[i] == Offset(sizes[..i])
    }

    constructor (java: bool)
      ensures Valid() && outputIsJava == java && tempVars == [] && tempLocalBase == 0 && sizes == []
    {
      outputIsJava := java;
      tempVars, tempLocalBase, localMap, numArgs, nextLocalSlot, sizes := [], 0, [], 0, 0, [];
    }

    /** `JavaGenStartFrame` */
    method JavaGenStartFrame()
      modifies `localMap, `numArgs, `nextLocalSlot, `sizes
      ensures Valid() && localMap == [] && numArgs == 0 && sizes == []
    {
      numArgs, localMap, nextLocalSlot, sizes := 0, [], 0, [];
    }

    /** `JavaGenStartLocals`: the variables so far are the arguments. */
    method JavaGenStartLocals()
      requires Valid()
      modifies `numArgs
      ensures Valid() && numArgs == |localMap|
    {
      numArgs := |localMap|;
    }

    /** The slot that `JavaGenLoadArg` and `JavaGenStoreArg` access: the slots
        of an argument end before the first one of a local. */
    method JavaArgSlot(varNum: nat) returns (slot: nat)
      requires Valid() && varNum < numArgs <= |localMap|
      ensures slot == Offset(sizes[..varNum]) && slot + sizes[varNum] <= Offset(sizes[..numArgs])
    {
      slot := localMap[varNum];
      RangesDisjoint(sizes, varNum, numArgs);
    }

    /** The slot that `JavaGenLoadLocal` and `JavaGenStoreLocal` access. */
    method JavaLocalSlot(varNum: nat) returns (slot: nat)
      requires Valid() && varNum + numArgs < |localMap|
      ensures slot == Offset(sizes[..varNum + numArgs])
      ensures Offset(sizes[..numArgs]) <= slot && slot + sizes[varNum + numArgs] <= nextLocalSlot
    {
      slot := localMap[varNum + numArgs];
      OffsetsGrow(sizes, numArgs, varNum + numArgs);
      OffsetsGrow(sizes, varNum + numArgs + 1, |sizes|);
      assert sizes[..|sizes|] == sizes;
      RangesDisjoint(sizes, varNum + numArgs, varNum + numArgs + 1);
    }

    /** `JavaGenAddFrameSlot` */
    method JavaGenAddFrameSlot(size: nat)
      requires Valid()
      modifies `localMap, `nextLocalSlot, `sizes
      ensures Valid() && sizes == old(sizes) + [size]
      ensures localMap == old(localMap) + [old(nextLocalSlot)] && nextLocalSlot == old(nextLocalSlot) + size
    {
      localMap := localMap + [nextLocalSlot];
      nextLocalSlot := nextLocalSlot + size;
      sizes := sizes + [size];
      assert sizes[..|sizes|-1] == old(sizes);
      assert forall i :: 0 <= i < |old(sizes)| ==> sizes[..i] == old(sizes)[..i];
    }

    /** `ILGenTempTypedVar`; no answer means that the program gives up. */
    method TempTypedVar(ty: Type) returns (answer: Answer)
      requires Valid()
      modifies `tempVars, `localMap, `nextLocalSlot, `sizes
      ensures Valid()
      ensures (tempVars, answer) == Step(old(tempVars), tempLocalBase, Alloc(ty))
      ensures answer.Index? ==>
        var k := answer.value - tempLocalBase;
        && 0 <= k < |tempVars| && tempVars[k].ty == ty && tempVars[k].live
        && (if k < |old(tempVars)| then !old(tempVars)[k].live && tempVars[k] == old(tempVars)[k].(live := true)
            else tempVars[k].scopeLevel == TEMPORARY)
        && (forall i :: 0 <= i < |old(tempVars)| && i != k ==> tempVars[i] == old(tempVars)[i])
      ensures outputIsJava && |tempVars| > |old(tempVars)| ==> sizes == old(sizes) + [TypeSize(ty.machine)]
      ensures !(outputIsJava && |tempVars| > |old(tempVars)|) ==> sizes == old(sizes)
    {
      var varNum := 0;
      while varNum < |tempVars|
        invariant varNum <= |tempVars|
        invariant FreeAt(tempVars, ty, 0) == FreeAt(tempVars, ty, varNum)
      {
        if !tempVars[varNum].live && tempVars[varNum].ty == ty {
          tempVars := tempVars[varNum := tempVars[varNum].(live := true)];
          return Index(varNum + tempLocalBase);
        }
        varNum := varNum + 1;
      }
      if |tempVars| + tempLocalBase == LIMIT {
        return TooMany;
      }
      tempVars := tempVars + [Slot(ty, true, TEMPORARY)];
      if outputIsJava {
        JavaGenAddFrameSlot(TypeSize(ty.machine));
      }
      return Index(tempLocalBase + |tempVars| - 1);
    }

    /** `ILGenReleaseTempVar` */
    method ReleaseTempVar(localNum: nat)
      modifies `tempVars
      ensures tempVars == Step(old(tempVars), tempLocalBase, Release(localNum)).0
      ensures |tempVars| == |old(tempVars)| && forall i :: 0 <= i < |tempVars| ==>
        tempVars[i] ==
          if i == localNum - tempLocalBase && old(tempVars)[i].scopeLevel == TEMPORARY then old(tempVars)[i].(live := false)
          else old(tempVars)[i]
    {
      if tempLocalBase <= localNum < tempLocalBase + |tempVars|
        && tempVars[localNum - tempLocalBase].scopeLevel == TEMPORARY
      {
        tempVars := tempVars[localNum - tempLocalBase := tempVars[localNum - tempLocalBase].(live := false)];
      }
    }
  }
}
