/** The nullness policy (examples/nullness/Nullness.cpp): pointers labelled
    "nullable" may be null, every other pointer must not be. */
module Nullness {
  import opened Types
  import opened Syntax
  import opened Annotations

  const NullableLabel: Label := "nullable"

  /** nullable(V): the lookup on V's type yields exactly "nullable". The
      policy keeps the base annotator's empty implicit hook. */
  predicate Nullable(t: Ty)
  {
    AnnotationOf(NoImplicit, t) == NullableLabel
  }

  /** The policy's subtyping judgment for a flow of a value of type `r` into
      a destination of type `l`. A non-pointer destination is handed to
      CheckPointerInvariance, which is not part of this model and is
      therefore a parameter. A pointer destination rejects a flow exactly
      when the source is nullable and the destination is not. */
  function Compatible(checkPointerInvariance: (Ty, Ty) -> bool, l: Ty, r: Ty): (ok: bool)
    ensures IsPointer(l) ==> (!ok <==> Nullable(r) && !Nullable(l))
    ensures !IsPointer(l) ==> (ok <==> checkPointerInvariance(l, r))
  {
    if IsPointer(l) then Nullable(l) || !Nullable(r) else checkPointerInvariance(l, r)
  }

  /** The label VisitIntegerLiteral attaches: "nullable" for the literal 0,
      nothing for any other value. */
  function IntegerLiteralLabel(value: int): (a: Label)
    ensures a == NullableLabel <==> value == 0
    ensures a == NoLabel <==> value != 0
  {
    if value == 0 then NullableLabel else NoLabel
  }

  /** The label VisitGNUNullExpr attaches to GNU `__null` (C++ `NULL`). */
  const GNUNullLabel: Label := NullableLabel

  function DerefWarning(at: nat): Diag
  {
    Diag(at, Warning, "dereferencing nullable pointer")
  }

  /** The diagnostics VisitUnaryOperator reports for operator `op` at node
      `at` whose operand has type `operand`: one warning when a nullable
      pointer is dereferenced, none otherwise (address-of included). */
  function UnaryOperatorDiags(at: nat, op: UnaryOp, operand: Ty): (ds: seq<Diag>)
    ensures |ds| <= 1
    ensures |ds| == 1 <==> op == Deref && Nullable(operand)
    ensures forall d <- ds :: d == DerefWarning(at)
  {
    match op
    case Deref => if Nullable(operand) then [DerefWarning(at)] else []
    case AddrOf => []
    case OtherUnaryOp => []
  }

  /** The policy's EmitIncompatibleError: one fixed warning whatever the
      labels involved. */
  function IncompatibleDiag(at: nat): (d: Diag)
    ensures d.at == at && d.severity == Warning
    ensures d.message == "non-null pointer may become null"
  {
    Diag(at, Warning, "non-null pointer may become null")
  }

  /** The four assignments of examples/nullness/test/simple.c lines 9-12,
      with `a` an `int *` and `b` an `int * nullable`; the null constant is
      nullable once its literal has been labelled. */
  lemma SimpleAssignments(checkPointerInvariance: (Ty, Ty) -> bool)
    ensures var a, b, zero := Ptr(Base("int")), Annotated(Ptr(Base("int")), NullableLabel),
                                   Annotated(Ptr(Base("int")), IntegerLiteralLabel(0));
      && !Compatible(checkPointerInvariance, a, zero)
      && Compatible(checkPointerInvariance, b, zero)
      && !Compatible(checkPointerInvariance, a, b)
      && Compatible(checkPointerInvariance, b, a)
  {
  }
}
