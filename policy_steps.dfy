/** What one visit-and-stamp step does to an expression node under each of
    the example policies: the label the node ends with and the diagnostics
    the step adds. */
module PolicySteps {
  import opened Types
  import opened Syntax
  import opened Annotations
  import opened Typing
  import Nullness
  import Taint

  /** Assignment and compound assignment: the flow RHS-to-LHS is checked at
      the operator, and the operator node ends with the destination's label
      (or stays as it was when the destination has none). */
  lemma AssignmentStep(p: Policy, e: Expr, s: State)
    requires e.Binary? && e.bop != OtherBinaryOp && NodeIdsBelow(ExprNode(e), |s.types|)
    requires forall t :: ImplicitOf(p)(t) == NoLabel
    ensures var r := Step(p, ExprNode(e), s);
      && r.diags == s.diags + CheckFlow(p, e.id, s.types[e.lhs.id], s.types[e.rhs.id])
      && (LabelOf(p, s.types[e.lhs.id]) != NoLabel ==> LabelOf(p, r.types[e.id]) == LabelOf(p, s.types[e.lhs.id]))
      && (LabelOf(p, s.types[e.lhs.id]) == NoLabel ==> r.types == s.types)
  {
    var r := Step(p, ExprNode(e), s);
    if LabelOf(p, s.types[e.lhs.id]) == NoLabel {
      assert r.types == s.types[e.id := s.types[e.id]];
    }
  }

  /** An implicit cast takes its operand's label, and changes nothing when
      the operand has none. */
  lemma ImplicitCastStep(p: Policy, e: Expr, s: State)
    requires e.ImplicitCast? && NodeIdsBelow(ExprNode(e), |s.types|)
    requires forall t :: ImplicitOf(p)(t) == NoLabel
    ensures var r := Step(p, ExprNode(e), s);
      && r.diags == s.diags
      && (LabelOf(p, s.types[e.sub.id]) != NoLabel ==> LabelOf(p, r.types[e.id]) == LabelOf(p, s.types[e.sub.id]))
      && (LabelOf(p, s.types[e.sub.id]) == NoLabel ==> r.types == s.types)
  {
    var r := Step(p, ExprNode(e), s);
    if LabelOf(p, s.types[e.sub.id]) == NoLabel {
      assert r.types == s.types[e.id := s.types[e.id]];
    }
  }

  /** Nullness: the literal 0 ends nullable; any other literal is left
      exactly as it was. */
  lemma NullLiteralStep(checkPointerInvariance: (Ty, Ty) -> bool, id: nat, value: int, s: State)
    requires id < |s.types|
    ensures var r := Step(NullnessPolicy(checkPointerInvariance), ExprNode(IntegerLiteral(id, value)), s);
      && r.diags == s.diags
      && (value == 0 ==> Nullness.Nullable(r.types[id]))
      && (value != 0 ==> r == s)
  {
    var r := Step(NullnessPolicy(checkPointerInvariance), ExprNode(IntegerLiteral(id, value)), s);
    if value != 0 {
      assert r.types == s.types[id := s.types[id]];
    }
  }

  /** Nullness: GNU `__null` always ends nullable. */
  lemma GNUNullStep(checkPointerInvariance: (Ty, Ty) -> bool, id: nat, s: State)
    requires id < |s.types|
    ensures var r := Step(NullnessPolicy(checkPointerInvariance), ExprNode(GNUNull(id)), s);
      r.diags == s.diags && Nullness.Nullable(r.types[id])
  {
  }

  /** Nullness: a unary operator retypes nothing and adds one warning
      exactly when it dereferences a nullable operand. */
  lemma DerefStep(checkPointerInvariance: (Ty, Ty) -> bool, e: Expr, s: State)
    requires e.Unary? && NodeIdsBelow(ExprNode(e), |s.types|)
    ensures var r := Step(NullnessPolicy(checkPointerInvariance), ExprNode(e), s);
      && r.types == s.types
      && s.diags <= r.diags
      && (|r.diags| == |s.diags| + 1 <==> e.uop == Deref && Nullness.Nullable(s.types[e.sub.id]))
      && (|r.diags| != |s.diags| + 1 ==> r.diags == s.diags)
      && (r.diags != s.diags ==> r.diags[|s.diags|] == Nullness.DerefWarning(e.id))
  {
    var r := Step(NullnessPolicy(checkPointerInvariance), ExprNode(e), s);
    assert r.types == s.types[e.id := s.types[e.id]];
  }

  /** Taint: an arithmetic, comparison or other non-assigning binary
      operator ends tainted when either operand is tainted, and is left as
      it was otherwise. */
  lemma TaintBinaryStep(removeAnnotation: Ty -> Ty, e: Expr, s: State)
    requires e.Binary? && e.bop == OtherBinaryOp && NodeIdsBelow(ExprNode(e), |s.types|)
    ensures var r := Step(TaintPolicy(removeAnnotation), ExprNode(e), s);
      && r.diags == s.diags
      && (Taint.Tainted(s.types[e.lhs.id]) || Taint.Tainted(s.types[e.rhs.id]) ==> Taint.Tainted(r.types[e.id]))
      && (!Taint.Tainted(s.types[e.lhs.id]) && !Taint.Tainted(s.types[e.rhs.id]) ==> r.types == s.types)
  {
    var r := Step(TaintPolicy(removeAnnotation), ExprNode(e), s);
    if !Taint.Tainted(s.types[e.lhs.id]) && !Taint.Tainted(s.types[e.rhs.id]) {
      assert r.types == s.types[e.id := s.types[e.id]];
    }
  }

  /** Taint: a unary operator ends with its operand's label, and is left as
      it was when the operand has none. */
  lemma TaintUnaryStep(removeAnnotation: Ty -> Ty, e: Expr, s: State)
    requires e.Unary? && NodeIdsBelow(ExprNode(e), |s.types|)
    ensures var r := Step(TaintPolicy(removeAnnotation), ExprNode(e), s);
      && r.diags == s.diags
      && (AnnotationOf(NoImplicit, s.types[e.sub.id]) != NoLabel ==>
            AnnotationOf(NoImplicit, r.types[e.id]) == AnnotationOf(NoImplicit, s.types[e.sub.id]))
      && (AnnotationOf(NoImplicit, s.types[e.sub.id]) == NoLabel ==> r.types == s.types)
  {
    var r := Step(TaintPolicy(removeAnnotation), ExprNode(e), s);
    if AnnotationOf(NoImplicit, s.types[e.sub.id]) == NoLabel {
      assert r.types == s.types[e.id := s.types[e.id]];
    }
  }

  /** Taint: an endorsed call ends labelled "untainted", so it is not
      tainted whatever its type carried below; the annotation builtin takes
      no declared parameters, so its arguments are not checked. */
  lemma EndorseStep(removeAnnotation: Ty -> Ty, e: Expr, s: State)
    requires e.Call? && NodeIdsBelow(ExprNode(e), |s.types|)
    requires Taint.IsEndorsement(e.callee, e.args)
    ensures var r := Step(TaintPolicy(removeAnnotation), ExprNode(e), s);
      && AnnotationOf(NoImplicit, r.types[e.id]) == Taint.UntaintedLabel
      && !Taint.Tainted(r.types[e.id])
      && (e.callee.value.params == [] ==> r.diags == s.diags)
  {
  }

  /** Taint: any other call keeps the type it had; its label is never
      replaced by the callee's return annotation. */
  lemma TaintCallStep(removeAnnotation: Ty -> Ty, e: Expr, s: State)
    requires e.Call? && NodeIdsBelow(ExprNode(e), |s.types|)
    requires !Taint.IsEndorsement(e.callee, e.args)
    ensures Step(TaintPolicy(removeAnnotation), ExprNode(e), s).types == s.types
  {
    var r := Step(TaintPolicy(removeAnnotation), ExprNode(e), s);
    assert r.types == s.types[e.id := s.types[e.id]];
  }
}
