/** The taint-tracking policy (examples/tainting/TaintTracking.cpp): values
    labelled "tainted" must not reach untainted destinations, and pointees
    must carry identical taint on both sides of a pointer flow. */
module Taint {
  import opened Types
  import opened Syntax
  import opened Annotations

  const TaintedLabel: Label := "tainted"
  const UntaintedLabel: Label := "untainted"

  /** tainted(V): the lookup on V's type yields exactly "tainted". The
      policy keeps the base annotator's empty implicit hook. */
  predicate Tainted(t: Ty)
  {
    AnnotationOf(NoImplicit, t) == TaintedLabel
  }

  /** The label VisitBinaryOperator attaches: "tainted" when either operand
      is tainted, nothing otherwise. */
  function BinaryOperatorLabel(lhs: Ty, rhs: Ty): (a: Label)
    ensures a == TaintedLabel <==> Tainted(lhs) || Tainted(rhs)
    ensures a != TaintedLabel ==> a == NoLabel
  {
    if Tainted(lhs) || Tainted(rhs) then TaintedLabel else NoLabel
  }

  /** The label VisitUnaryOperator attaches: its operand's label. */
  function UnaryOperatorLabel(operand: Ty): Label
  {
    AnnotationOf(NoImplicit, operand)
  }

  /** After VisitUnaryOperator, the operator node shows its operand's label;
      an unlabelled operand leaves the node as it was. */
  lemma UnaryOperatorPropagates(t: Ty, operand: Ty)
    ensures AnnotationOf(NoImplicit, operand) != NoLabel ==>
              AnnotationOf(NoImplicit, AddAnnotation(t, UnaryOperatorLabel(operand))) == AnnotationOf(NoImplicit, operand)
    ensures AnnotationOf(NoImplicit, operand) == NoLabel ==>
              AddAnnotation(t, UnaryOperatorLabel(operand)) == t
  {
  }

  /** What the pointer-unwrapping loop of Compatible checks: peeling one
      pointer layer from both sides at a time, every pair of pointees has
      the same taint. */
  predicate PointeesAgree(l: Ty, r: Ty)
    decreases PointerDepth(l)
  {
    match UnwrapSimilarPointerTypes(l, r)
    case None => true
    case Some((pl, pr)) => Tainted(pl) == Tainted(pr) && PointeesAgree(pl, pr)
  }

  /** The flow judgment: no tainted-to-untainted flow at the top, and for
      pointers identical taint at every pointee layer. */
  predicate MayFlow(l: Ty, r: Ty)
  {
    !(Tainted(r) && !Tainted(l)) && PointeesAgree(l, r)
  }

  /** The policy's Compatible for a flow of a value of type `r` into a
      destination of type `l`. */
  method Compatible(l: Ty, r: Ty) returns (ok: bool)
    ensures ok == MayFlow(l, r)
  {
    // Top-level annotation: tainted-to-untainted flow is refused.
    if Tainted(r) && !Tainted(l) {
      return false;
    }
    if IsPointer(l) && IsPointer(r) {
      var lTy, rTy := l, r;
      var unwrapped := UnwrapSimilarPointerTypes(lTy, rTy);
      while unwrapped.Some?
        invariant unwrapped == UnwrapSimilarPointerTypes(lTy, rTy)
        invariant PointeesAgree(lTy, rTy) == PointeesAgree(l, r)
        decreases PointerDepth(lTy)
      {
        lTy, rTy := unwrapped.value.0, unwrapped.value.1;
        if Tainted(lTy) != Tainted(rTy) {
          return false;
        }
        unwrapped := UnwrapSimilarPointerTypes(lTy, rTy);
      }
      return true;
    } else {
      return true;
    }
  }

  /** The type `k` pointer layers below `t`. */
  function Peel(t: Ty, k: nat): Ty
    requires k <= PointerDepth(t)
    decreases k
  {
    if k == 0 then t else Peel(Pointee(t).value, k - 1)
  }

  function CommonDepth(l: Ty, r: Ty): nat
  {
    if PointerDepth(l) <= PointerDepth(r) then PointerDepth(l) else PointerDepth(r)
  }

  /** The depth-indexed judgment: at every depth both types reach, the two
      pointees have the same taint. */
  predicate AgreeAtEveryDepth(l: Ty, r: Ty)
  {
    forall k | 1 <= k <= CommonDepth(l, r) :: Tainted(Peel(l, k)) == Tainted(Peel(r, k))
  }

  /** Peeling one more layer is peeling the pointee. */
  lemma {:induction false} PeelPointee(t: Ty, k: nat)
    requires 1 <= k <= PointerDepth(t)
    ensures Peel(t, k) == Peel(Pointee(t).value, k - 1)
  {
  }

  /** Agreement at every depth of two pointers is agreement of their
      pointees and at every depth below them. */
  lemma AgreeStepDown(l: Ty, r: Ty)
    requires IsPointer(l) && IsPointer(r) && AgreeAtEveryDepth(l, r)
    ensures Tainted(Pointee(l).value) == Tainted(Pointee(r).value)
    ensures AgreeAtEveryDepth(Pointee(l).value, Pointee(r).value)
  {
    var pl, pr := Pointee(l).value, Pointee(r).value;
    assert CommonDepth(pl, pr) == CommonDepth(l, r) - 1;
    forall k | 1 <= k <= CommonDepth(pl, pr)
      ensures Tainted(Peel(pl, k)) == Tainted(Peel(pr, k))
    {
      assert Tainted(Peel(l, k + 1)) == Tainted(Peel(r, k + 1));
      PeelPointee(l, k + 1);
      PeelPointee(r, k + 1);
    }
    assert Tainted(Peel(l, 1)) == Tainted(Peel(r, 1));
    PeelPointee(l, 1);
    PeelPointee(r, 1);
  }

  /** The converse: pointees that agree, and agree at every depth below,
      make the two pointers agree at every depth. */
  lemma AgreeStepUp(l: Ty, r: Ty)
    requires IsPointer(l) && IsPointer(r)
    requires Tainted(Pointee(l).value) == Tainted(Pointee(r).value)
    requires AgreeAtEveryDepth(Pointee(l).value, Pointee(r).value)
    ensures AgreeAtEveryDepth(l, r)
  {
    var pl, pr := Pointee(l).value, Pointee(r).value;
    assert CommonDepth(pl, pr) == CommonDepth(l, r) - 1;
    forall k | 1 <= k <= CommonDepth(l, r)
      ensures Tainted(Peel(l, k)) == Tainted(Peel(r, k))
    {
      PeelPointee(l, k);
      PeelPointee(r, k);
    }
  }

  /** The loop's judgment agrees with the depth-indexed one: pointees agree
      exactly when, at every depth both types reach, the two pointees have
      the same taint. */
  lemma {:induction false} PointeesAgreeAtEveryDepth(l: Ty, r: Ty)
    ensures PointeesAgree(l, r) <==> AgreeAtEveryDepth(l, r)
    decreases PointerDepth(l)
  {
    if IsPointer(l) && IsPointer(r) {
      var pl, pr := Pointee(l).value, Pointee(r).value;
      PointeesAgreeAtEveryDepth(pl, pr);
      assert PointeesAgree(l, r) == (Tainted(pl) == Tainted(pr) && PointeesAgree(pl, pr));
      if AgreeAtEveryDepth(l, r) {
        AgreeStepDown(l, r);
      }
      if PointeesAgree(l, r) {
        AgreeStepUp(l, r);
      }
    } else {
      assert CommonDepth(l, r) == 0;
    }
  }

  lemma {:induction false} PointeesAgreeReflexive(t: Ty)
    ensures PointeesAgree(t, t)
    decreases PointerDepth(t)
  {
    if IsPointer(t) {
      PointeesAgreeReflexive(Pointee(t).value);
    }
  }

  lemma {:induction false} PointeesAgreeSymmetric(l: Ty, r: Ty)
    ensures PointeesAgree(l, r) == PointeesAgree(r, l)
    decreases PointerDepth(l)
  {
    if IsPointer(l) && IsPointer(r) {
      PointeesAgreeSymmetric(Pointee(l).value, Pointee(r).value);
    }
  }

  /** Any type may flow into itself (`b = b`, `c = c`). */
  lemma MayFlowReflexive(t: Ty)
    ensures MayFlow(t, t)
  {
    PointeesAgreeReflexive(t);
  }

  /** Unless both sides are pointers, only the top-level rule applies:
      tainted into untainted is refused, every other combination accepted. */
  lemma NonPointerFlow(l: Ty, r: Ty)
    requires !(IsPointer(l) && IsPointer(r))
    ensures MayFlow(l, r) <==> !(Tainted(r) && !Tainted(l))
  {
  }

  /** Pointer invariance: pointers whose pointees differ in taint cannot
      flow in either direction. */
  lemma PointerInvariance(l: Ty, r: Ty)
    requires IsPointer(l) && IsPointer(r)
    requires Tainted(Pointee(l).value) != Tainted(Pointee(r).value)
    ensures !MayFlow(l, r) && !MayFlow(r, l)
  {
  }

  /** A flow is accepted in both directions exactly when the two types carry
      the same taint at the top and at every common pointee layer. */
  lemma MutualFlow(l: Ty, r: Ty)
    ensures MayFlow(l, r) && MayFlow(r, l) <==>
            Tainted(l) == Tainted(r) && AgreeAtEveryDepth(l, r)
  {
    PointeesAgreeSymmetric(l, r);
    PointeesAgreeAtEveryDepth(l, r);
  }

  /** examples/tainting/test/simple.c: `y = x` is refused and `x = y`
      accepted for `tainted int x; int y;` (lines 10-13); `b = c` and
      `c = b` are refused, `b = b` and `c = c` accepted, for
      `tainted int *b; int *c;` (lines 30-35). */
  lemma SimpleFlows()
    ensures var x, y := Annotated(Base("int"), TaintedLabel), Base("int");
      !MayFlow(y, x) && MayFlow(x, y)
    ensures var b, c := Ptr(Annotated(Base("int"), TaintedLabel)), Ptr(Base("int"));
      !MayFlow(b, c) && !MayFlow(c, b) && MayFlow(b, b) && MayFlow(c, c)
  {
    var b, c := Ptr(Annotated(Base("int"), TaintedLabel)), Ptr(Base("int"));
    MayFlowReflexive(b);
    MayFlowReflexive(c);
  }

  /** `__builtin_annotation(e, "endorse")`: a direct call of the annotation
      builtin whose second argument is the string literal "endorse". */
  function IsEndorsement(callee: Option<FunctionSig>, args: seq<Expr>): (b: bool)
    ensures b ==> callee.Some? && callee.value.isBuiltinAnnotation && |args| >= 2
    ensures b ==> args[1] == StringLiteral(args[1].id, "endorse")
    ensures (callee.Some? && callee.value.isBuiltinAnnotation && |args| >= 2
             && args[1] == StringLiteral(args[1].id, "endorse")) ==> b
  {
    && callee.Some? && callee.value.isBuiltinAnnotation
    && |args| >= 2 && args[1].StringLiteral? && args[1].text == "endorse"
  }

  /** The endorsed call's type: RemoveAnnotation (not part of this model,
      hence the parameter) and then an "untainted" layer on top, so that no
      "tainted" buried below can be found by the lookup. */
  function Endorse(removeAnnotation: Ty -> Ty, t: Ty): (r: Ty)
    ensures AnnotationOf(NoImplicit, r) == UntaintedLabel
    ensures !Tainted(r)
  {
    AddAnnotation(removeAnnotation(t), UntaintedLabel)
  }

  /** `y = ENDORSE(x)` is accepted for a non-pointer `y`, whatever `x` was
      (examples/tainting/test/endorsement.c line 12). */
  lemma EndorsedFlows(removeAnnotation: Ty -> Ty, l: Ty, t: Ty)
    requires !IsPointer(l)
    ensures MayFlow(l, Endorse(removeAnnotation, t))
  {
  }
}
