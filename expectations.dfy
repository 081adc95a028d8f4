/** The diagnostics the repository's test programs expect, derived from the
    walk rules for small trees built as the host would build them. Node
    ids index the type table; DeclRefs carry their variable's declared type
    and implicit casts the converted type. */
module Expectations {
  import opened Types
  import opened Syntax
  import opened Annotations
  import opened Typing
  import Nullness
  import Taint
  import PolicySteps

  const Int: Ty := Base("int")
  const IntPtr: Ty := Ptr(Base("int"))

  /** `dst = src` where `dst` is variable node 0, `src` is variable node 1
      read through the implicit cast node 2, and the assignment is node 3. */
  function AssignVar(): Expr
  {
    Binary(3, Assign, DeclRef(0), ImplicitCast(2, DeclRef(1)))
  }

  function Run(p: Policy, e: Expr, types: seq<Ty>): State
    requires Slotted(Postorder(e), |types|)
  {
    Sweep(p, Postorder(e), State(types, [], None))
  }

  /** A walk of four visits is four steps. */
  lemma SweepFour(p: Policy, n1: Node, n2: Node, n3: Node, n4: Node, s: State)
    requires Slotted([n1, n2, n3, n4], |s.types|)
    ensures Slotted([n1], |s.types|) && Slotted([n1, n2], |s.types|) && Slotted([n1, n2, n3], |s.types|)
    ensures Sweep(p, [n1, n2, n3, n4], s) == Step(p, n4, Step(p, n3, Step(p, n2, Step(p, n1, s))))
  {
    assert [n1, n2, n3, n4] == [n1, n2, n3] + [n4];
    assert [n1, n2, n3] == [n1, n2] + [n3];
    assert [n1, n2] == [n1] + [n2];
    assert [n1] == [] + [n1];
    SweepSnoc(p, [n1, n2, n3], n4, s);
    SweepSnoc(p, [n1, n2], n3, s);
    SweepSnoc(p, [n1], n2, s);
    SweepSnoc(p, [], n1, s);
  }

  lemma SweepFive(p: Policy, n1: Node, n2: Node, n3: Node, n4: Node, n5: Node, s: State)
    requires Slotted([n1, n2, n3, n4, n5], |s.types|)
    ensures Slotted([n1, n2, n3, n4], |s.types|)
    ensures Sweep(p, [n1, n2, n3, n4, n5], s) == Step(p, n5, Sweep(p, [n1, n2, n3, n4], s))
  {
    assert [n1, n2, n3, n4, n5] == [n1, n2, n3, n4] + [n5];
    SweepSnoc(p, [n1, n2, n3, n4], n5, s);
  }

  lemma SweepSix(p: Policy, n1: Node, n2: Node, n3: Node, n4: Node, n5: Node, n6: Node, s: State)
    requires Slotted([n1, n2, n3, n4, n5, n6], |s.types|)
    ensures Slotted([n1, n2, n3, n4, n5], |s.types|)
    ensures Sweep(p, [n1, n2, n3, n4, n5, n6], s) == Step(p, n6, Sweep(p, [n1, n2, n3, n4, n5], s))
  {
    assert [n1, n2, n3, n4, n5, n6] == [n1, n2, n3, n4, n5] + [n6];
    SweepSnoc(p, [n1, n2, n3, n4, n5], n6, s);
  }

  lemma SweepSeven(p: Policy, n1: Node, n2: Node, n3: Node, n4: Node, n5: Node, n6: Node, n7: Node, s: State)
    requires Slotted([n1, n2, n3, n4, n5, n6, n7], |s.types|)
    ensures Slotted([n1, n2, n3, n4, n5, n6], |s.types|)
    ensures Sweep(p, [n1, n2, n3, n4, n5, n6, n7], s) == Step(p, n7, Sweep(p, [n1, n2, n3, n4, n5, n6], s))
  {
    assert [n1, n2, n3, n4, n5, n6, n7] == [n1, n2, n3, n4, n5, n6] + [n7];
    SweepSnoc(p, [n1, n2, n3, n4, n5, n6], n7, s);
  }

  /** `dst = 0` where `dst` is variable node 0, the literal is node 1, its
      null-to-pointer cast node 2, and the assignment node 3. */
  function AssignNull(): Expr
  {
    Binary(3, Assign, DeclRef(0), ImplicitCast(2, IntegerLiteral(1, 0)))
  }

  /** Under nullness, walking `dst = 0` into a pointer warns exactly when
      the pointer is not nullable: the literal is labelled nullable, its
      cast takes that label, and the assignment checks the flow. */
  lemma AssignNullRun(checkPointerInvariance: (Ty, Ty) -> bool, types: seq<Ty>)
    requires |types| == 4 && IsPointer(types[0])
    ensures Slotted(Postorder(AssignNull()), |types|)
    ensures Run(NullnessPolicy(checkPointerInvariance), AssignNull(), types).diags
         == if Nullness.Nullable(types[0]) then [] else [Nullness.IncompatibleDiag(3)]
  {
    var p := NullnessPolicy(checkPointerInvariance);
    var lit := IntegerLiteral(1, 0);
    var cast := ImplicitCast(2, lit);
    var e := AssignNull();
    assert Postorder(e) == [ExprNode(DeclRef(0)), ExprNode(lit), ExprNode(cast), ExprNode(e)];
    var s0 := State(types, [], None);
    SweepFour(p, ExprNode(DeclRef(0)), ExprNode(lit), ExprNode(cast), ExprNode(e), s0);
    var s1 := Step(p, ExprNode(DeclRef(0)), s0);
    assert s1.types[0] == types[0] && s1.diags == [];
    var s2 := Step(p, ExprNode(lit), s1);
    PolicySteps.NullLiteralStep(checkPointerInvariance, 1, 0, s1);
    var s3 := Step(p, ExprNode(cast), s2);
    PolicySteps.ImplicitCastStep(p, cast, s2);
    assert s3.types[0] == types[0] && s3.diags == [] && Nullness.Nullable(s3.types[2]);
    PolicySteps.AssignmentStep(p, e, s3);
  }

  /** examples/nullness/test/simple.c line 9: `a = 0` warns, for `int *a`. */
  lemma NullnessSimpleLiterals(checkPointerInvariance: (Ty, Ty) -> bool)
    ensures && Slotted(Postorder(AssignNull()), 4)
            && Run(NullnessPolicy(checkPointerInvariance), AssignNull(), [IntPtr, Int, IntPtr, IntPtr]).diags
               == [Diag(3, Warning, "non-null pointer may become null")]
  {
    AssignNullRun(checkPointerInvariance, [IntPtr, Int, IntPtr, IntPtr]);
    assert !Nullness.Nullable(IntPtr);
  }

  /** examples/nullness/test/simple.c line 10: `b = 0` is accepted, for
      `int * nullable b`. */
  lemma NullnessNullIntoNullable(checkPointerInvariance: (Ty, Ty) -> bool)
    ensures var b := Annotated(IntPtr, "nullable");
      && Slotted(Postorder(AssignNull()), 4)
      && Run(NullnessPolicy(checkPointerInvariance), AssignNull(), [b, Int, IntPtr, b]).diags == []
  {
    var b := Annotated(IntPtr, "nullable");
    AssignNullRun(checkPointerInvariance, [b, Int, IntPtr, b]);
    assert Nullness.Nullable(b);
  }

  /** A variable reference is left exactly as it was, under any policy
      without implicit labels. */
  lemma DeclRefStep(p: Policy, id: nat, s: State)
    requires id < |s.types|
    requires forall t :: ImplicitOf(p)(t) == NoLabel
    ensures Step(p, ExprNode(DeclRef(id)), s) == s
  {
    assert Step(p, ExprNode(DeclRef(id)), s).types == s.types[id := s.types[id]];
  }

  /** Walking `dst = src` checks the destination's type against the cast's,
      which has been stamped with the label of `src`. */
  lemma AssignVarRun(p: Policy, types: seq<Ty>)
    requires |types| == 4
    requires forall t :: ImplicitOf(p)(t) == NoLabel
    ensures Slotted(Postorder(AssignVar()), |types|)
    ensures Run(p, AssignVar(), types).diags
         == CheckFlow(p, 3, types[0], AddAnnotation(types[2], LabelOf(p, types[1])))
  {
    var src := DeclRef(1);
    var cast := ImplicitCast(2, src);
    var e := AssignVar();
    AssignVarWalk();
    var s0 := State(types, [], None);
    SweepFour(p, ExprNode(DeclRef(0)), ExprNode(src), ExprNode(cast), ExprNode(e), s0);
    DeclRefStep(p, 0, s0);
    DeclRefStep(p, 1, s0);
    CastOfVarStep(p, s0);
    PolicySteps.AssignmentStep(p, e, Step(p, ExprNode(cast), s0));
  }

  lemma AssignVarWalk()
    ensures Postorder(AssignVar())
         == [ExprNode(DeclRef(0)), ExprNode(DeclRef(1)), ExprNode(ImplicitCast(2, DeclRef(1))), ExprNode(AssignVar())]
  {
    CastWalk(2, 1);
    assert Postorder(AssignVar()) == [ExprNode(DeclRef(0))] + Postorder(ImplicitCast(2, DeclRef(1))) + [ExprNode(AssignVar())];
  }

  /** The cast of `src` takes `src`'s label and leaves the rest alone. */
  lemma CastOfVarStep(p: Policy, s: State)
    requires |s.types| == 4
    requires forall t :: ImplicitOf(p)(t) == NoLabel
    ensures var r := Step(p, ExprNode(ImplicitCast(2, DeclRef(1))), s);
      && r.types[0] == s.types[0]
      && r.types[2] == AddAnnotation(s.types[2], LabelOf(p, s.types[1]))
      && r.diags == s.diags
  {
  }

  /** examples/nullness/test/simple.c lines 11-12: `a = b` warns and `b = a`
      does not. */
  lemma NullnessSimpleVariables(checkPointerInvariance: (Ty, Ty) -> bool)
    ensures var b := Annotated(IntPtr, "nullable");
      && Slotted(Postorder(AssignVar()), 4)
      && Run(NullnessPolicy(checkPointerInvariance), AssignVar(), [IntPtr, b, IntPtr, IntPtr]).diags
           == [Diag(3, Warning, "non-null pointer may become null")]
      && Run(NullnessPolicy(checkPointerInvariance), AssignVar(), [b, IntPtr, IntPtr, b]).diags == []
  {
    var b := Annotated(IntPtr, "nullable");
    AssignVarRun(NullnessPolicy(checkPointerInvariance), [IntPtr, b, IntPtr, IntPtr]);
    AssignVarRun(NullnessPolicy(checkPointerInvariance), [b, IntPtr, IntPtr, b]);
  }

  /** The error for a tainted `int` flowing into a plain `int`. */
  lemma TaintedIntoPlain(removeAnnotation: Ty -> Ty, at: nat)
    ensures CheckFlow(TaintPolicy(removeAnnotation), at, Int, Annotated(Int, "tainted"))
         == [Diag(at, Error, "tainted incompatible with unannotated")]
  {
    var p := TaintPolicy(removeAnnotation);
    var x := Annotated(Int, "tainted");
    assert Taint.Tainted(x) && !Taint.Tainted(Int);
    assert !IsCompatible(p, Int, x);
    assert IncompatibleDiag(p, at, Int, x) == DefaultIncompatibleDiag(NoImplicit, at, Int, x);
    assert LabelOrUnannotated(AnnotationOf(NoImplicit, Annotated(Int, "tainted"))) == "tainted";
    assert LabelOrUnannotated(AnnotationOf(NoImplicit, Int)) == "unannotated";
    TaintedMessage();
  }

  /** The text of the tainted-into-plain error, spelled out. */
  lemma TaintedMessage()
    ensures "tainted" + " incompatible with " + "unannotated" == "tainted incompatible with unannotated"
  {
  }

  /** examples/tainting/test/simple.c line 10: `y = x` is an error naming
      the two labels, for `tainted int x; int y;`. */
  lemma TaintSimpleRefused(removeAnnotation: Ty -> Ty)
    ensures && Slotted(Postorder(AssignVar()), 4)
            && Run(TaintPolicy(removeAnnotation), AssignVar(), [Int, Annotated(Int, "tainted"), Int, Int]).diags
               == [Diag(3, Error, "tainted incompatible with unannotated")]
  {
    AssignVarRun(TaintPolicy(removeAnnotation), [Int, Annotated(Int, "tainted"), Int, Int]);
    TaintedIntoPlain(removeAnnotation, 3);
  }

  /** examples/tainting/test/simple.c line 13: `x = y` is accepted. */
  lemma TaintSimpleAccepted(removeAnnotation: Ty -> Ty)
    ensures && Slotted(Postorder(AssignVar()), 4)
            && Run(TaintPolicy(removeAnnotation), AssignVar(), [Annotated(Int, "tainted"), Int, Int, Annotated(Int, "tainted")]).diags == []
  {
    AssignVarRun(TaintPolicy(removeAnnotation), [Annotated(Int, "tainted"), Int, Int, Annotated(Int, "tainted")]);
  }

  /** A walk of five visits whose steps go through the states `s0` to `s5`
      ends in `s5`. Every visit keeps one type slot per node, so each step
      is defined once the walk fits `s0`. */
  lemma Chain5(p: Policy, n0: Node, n1: Node, n2: Node, n3: Node, n4: Node,
               s0: State, s1: State, s2: State, s3: State, s4: State, s5: State)
    requires Slotted([n0, n1, n2, n3, n4], |s0.types|)
    requires Step(p, n0, s0) == s1
    requires Step(p, n1, s1) == s2
    requires Step(p, n2, s2) == s3
    requires Step(p, n3, s3) == s4
    requires Step(p, n4, s4) == s5
    ensures Sweep(p, [n0, n1, n2, n3, n4], s0) == s5
  {
    SweepFive(p, n0, n1, n2, n3, n4, s0);
    SweepFour(p, n0, n1, n2, n3, s0);
  }

  lemma Chain6(p: Policy, n0: Node, n1: Node, n2: Node, n3: Node, n4: Node, n5: Node,
               s0: State, s1: State, s2: State, s3: State, s4: State, s5: State, s6: State)
    requires Slotted([n0, n1, n2, n3, n4, n5], |s0.types|)
    requires Step(p, n0, s0) == s1
    requires Step(p, n1, s1) == s2
    requires Step(p, n2, s2) == s3
    requires Step(p, n3, s3) == s4
    requires Step(p, n4, s4) == s5
    requires Step(p, n5, s5) == s6
    ensures Sweep(p, [n0, n1, n2, n3, n4, n5], s0) == s6
  {
    SweepSix(p, n0, n1, n2, n3, n4, n5, s0);
    Chain5(p, n0, n1, n2, n3, n4, s0, s1, s2, s3, s4, s5);
  }

  lemma Chain7(p: Policy, n0: Node, n1: Node, n2: Node, n3: Node, n4: Node, n5: Node, n6: Node,
               s0: State, s1: State, s2: State, s3: State, s4: State, s5: State, s6: State, s7: State)
    requires Slotted([n0, n1, n2, n3, n4, n5, n6], |s0.types|)
    requires Step(p, n0, s0) == s1
    requires Step(p, n1, s1) == s2
    requires Step(p, n2, s2) == s3
    requires Step(p, n3, s3) == s4
    requires Step(p, n4, s4) == s5
    requires Step(p, n5, s5) == s6
    requires Step(p, n6, s6) == s7
    ensures Sweep(p, [n0, n1, n2, n3, n4, n5, n6], s0) == s7
  {
    SweepSeven(p, n0, n1, n2, n3, n4, n5, n6, s0);
    Chain6(p, n0, n1, n2, n3, n4, n5, s0, s1, s2, s3, s4, s5, s6);
  }

  /** examples/tainting/test/simple.c line 16: `y = x + 3` is an error: the
      sum of a tainted value is tainted. */
  lemma TaintSimpleBinary(removeAnnotation: Ty -> Ty)
    ensures var e := Binary(5, Assign, DeclRef(0),
                            Binary(4, OtherBinaryOp, ImplicitCast(2, DeclRef(1)), IntegerLiteral(3, 3)));
      && Slotted(Postorder(e), 6)
      && Run(TaintPolicy(removeAnnotation), e, [Int, Annotated(Int, "tainted"), Int, Int, Int, Int]).diags
           == [Diag(5, Error, "tainted incompatible with unannotated")]
  {
    var x := Annotated(Int, "tainted");
    var cast := ImplicitCast(2, DeclRef(1));
    var sum := Binary(4, OtherBinaryOp, cast, IntegerLiteral(3, 3));
    var e := Binary(5, Assign, DeclRef(0), sum);
    BinaryWalk();
    BinarySlotted();
    BinarySteps(removeAnnotation);
    BinarySumStep(removeAnnotation);
    BinaryAssignStep(removeAnnotation);
    var s0 := State([Int, x, Int, Int, Int, Int], [], None);
    var s3 := State([Int, x, x, Int, Int, Int], [], None);
    var s5 := State([Int, x, x, Int, x, Int], [], None);
    Chain6(TaintPolicy(removeAnnotation),
           ExprNode(DeclRef(0)), ExprNode(DeclRef(1)), ExprNode(cast), ExprNode(IntegerLiteral(3, 3)), ExprNode(sum), ExprNode(e),
           s0, s0, s0, s3, s3, s5, State([Int, x, x, Int, x, Int], [Diag(5, Error, "tainted incompatible with unannotated")], None));
  }

  lemma BinaryWalk()
    ensures var cast := ImplicitCast(2, DeclRef(1));
      var sum := Binary(4, OtherBinaryOp, cast, IntegerLiteral(3, 3));
      var e := Binary(5, Assign, DeclRef(0), sum);
      var ns := [ExprNode(DeclRef(0)), ExprNode(DeclRef(1)), ExprNode(cast), ExprNode(IntegerLiteral(3, 3)), ExprNode(sum), ExprNode(e)];
      Postorder(e) == ns
  {
    var cast := ImplicitCast(2, DeclRef(1));
    var sum := Binary(4, OtherBinaryOp, cast, IntegerLiteral(3, 3));
    assert Postorder(cast) == [ExprNode(DeclRef(1)), ExprNode(cast)];
    assert Postorder(sum) == [ExprNode(DeclRef(1)), ExprNode(cast), ExprNode(IntegerLiteral(3, 3)), ExprNode(sum)];
  }

  lemma BinarySlotted()
    ensures var cast := ImplicitCast(2, DeclRef(1));
      var sum := Binary(4, OtherBinaryOp, cast, IntegerLiteral(3, 3));
      var e := Binary(5, Assign, DeclRef(0), sum);
      Slotted([ExprNode(DeclRef(0)), ExprNode(DeclRef(1)), ExprNode(cast), ExprNode(IntegerLiteral(3, 3)), ExprNode(sum), ExprNode(e)], 6)
  {
  }

  lemma BinarySteps(removeAnnotation: Ty -> Ty)
    ensures var p := TaintPolicy(removeAnnotation);
      var x := Annotated(Int, "tainted");
      var cast := ImplicitCast(2, DeclRef(1));
      var s0 := State([Int, x, Int, Int, Int, Int], [], None);
      var s3 := State([Int, x, x, Int, Int, Int], [], None);
      && Step(p, ExprNode(DeclRef(0)), s0) == s0
      && Step(p, ExprNode(DeclRef(1)), s0) == s0
      && Step(p, ExprNode(cast), s0) == s3
      && Step(p, ExprNode(IntegerLiteral(3, 3)), s3) == s3
  {
    var p := TaintPolicy(removeAnnotation);
    var x := Annotated(Int, "tainted");
    var s0 := State([Int, x, Int, Int, Int, Int], [], None);
    var s3 := State([Int, x, x, Int, Int, Int], [], None);
    DeclRefStep(p, 0, s0);
    DeclRefStep(p, 1, s0);
    assert Step(p, ExprNode(IntegerLiteral(3, 3)), s3).types == s3.types[3 := s3.types[3]];
  }

  lemma BinarySumStep(removeAnnotation: Ty -> Ty)
    ensures var p := TaintPolicy(removeAnnotation);
      var x := Annotated(Int, "tainted");
      var sum := Binary(4, OtherBinaryOp, ImplicitCast(2, DeclRef(1)), IntegerLiteral(3, 3));
      Step(p, ExprNode(sum), State([Int, x, x, Int, Int, Int], [], None)) == State([Int, x, x, Int, x, Int], [], None)
  {
  }

  lemma BinaryAssignStep(removeAnnotation: Ty -> Ty)
    ensures var p := TaintPolicy(removeAnnotation);
      var x := Annotated(Int, "tainted");
      var sum := Binary(4, OtherBinaryOp, ImplicitCast(2, DeclRef(1)), IntegerLiteral(3, 3));
      var e := Binary(5, Assign, DeclRef(0), sum);
      Step(p, ExprNode(e), State([Int, x, x, Int, x, Int], [], None))
        == State([Int, x, x, Int, x, Int], [Diag(5, Error, "tainted incompatible with unannotated")], None)
  {
    TaintedIntoPlain(removeAnnotation, 5);
  }

  /** examples/tainting/test/endorsement.c line 12: `y = ENDORSE(x)` is
      accepted, even when the builtin's result type still carries
      "tainted". */
  lemma TaintEndorsement(removeAnnotation: Ty -> Ty)
    ensures var builtin := FunctionSig([], Int, true);
      var call := Call(5, Some(builtin), DeclRef(1), [ImplicitCast(3, DeclRef(2)), StringLiteral(4, "endorse")]);
      var e := Binary(6, Assign, DeclRef(0), call);
      var x := Annotated(Int, "tainted");
      && Slotted(Postorder(e), 7)
      && Run(TaintPolicy(removeAnnotation), e, [Int, Base("builtin"), x, Int, Base("char[8]"), x, Int]).diags == []
  {
    var x := Annotated(Int, "tainted");
    var cast := ImplicitCast(3, DeclRef(2));
    var str := StringLiteral(4, "endorse");
    var call := Call(5, Some(FunctionSig([], Int, true)), DeclRef(1), [cast, str]);
    var e := Binary(6, Assign, DeclRef(0), call);
    EndorsementWalk();
    EndorsementSlotted();
    var s0 := State([Int, Base("builtin"), x, Int, Base("char[8]"), x, Int], [], None);
    DeclRefStep(TaintPolicy(removeAnnotation), 0, s0);
    DeclRefStep(TaintPolicy(removeAnnotation), 1, s0);
    DeclRefStep(TaintPolicy(removeAnnotation), 2, s0);
    EndorsementSteps(removeAnnotation);
    EndorsementCallStep(removeAnnotation);
    EndorsementAssignStep(removeAnnotation);
    var s4 := State([Int, Base("builtin"), x, x, Base("char[8]"), x, Int], [], None);
    var s6 := State([Int, Base("builtin"), x, x, Base("char[8]"), Taint.Endorse(removeAnnotation, x), Int], [], None);
    Chain7(TaintPolicy(removeAnnotation),
           ExprNode(DeclRef(0)), ExprNode(DeclRef(1)), ExprNode(DeclRef(2)), ExprNode(cast), ExprNode(str), ExprNode(call), ExprNode(e),
           s0, s0, s0, s0, s4, s4, s6, Step(TaintPolicy(removeAnnotation), ExprNode(e), s6));
  }

  lemma EndorsementWalk()
    ensures var cast := ImplicitCast(3, DeclRef(2));
      var str := StringLiteral(4, "endorse");
      var call := Call(5, Some(FunctionSig([], Int, true)), DeclRef(1), [cast, str]);
      var e := Binary(6, Assign, DeclRef(0), call);
      var ns := [ExprNode(DeclRef(0)), ExprNode(DeclRef(1)), ExprNode(DeclRef(2)), ExprNode(cast), ExprNode(str), ExprNode(call), ExprNode(e)];
      Postorder(e) == ns
  {
    var cast := ImplicitCast(3, DeclRef(2));
    var str := StringLiteral(4, "endorse");
    var call := Call(5, Some(FunctionSig([], Int, true)), DeclRef(1), [cast, str]);
    assert PostorderAll([cast]) == [ExprNode(DeclRef(2)), ExprNode(cast)] by { assert [cast][..0] == []; }
    assert PostorderAll([cast, str]) == [ExprNode(DeclRef(2)), ExprNode(cast), ExprNode(str)] by {
      assert [cast, str][..1] == [cast];
    }
    assert Postorder(call) == [ExprNode(DeclRef(1)), ExprNode(DeclRef(2)), ExprNode(cast), ExprNode(str), ExprNode(call)];
  }

  lemma EndorsementSlotted()
    ensures var cast := ImplicitCast(3, DeclRef(2));
      var str := StringLiteral(4, "endorse");
      var call := Call(5, Some(FunctionSig([], Int, true)), DeclRef(1), [cast, str]);
      var e := Binary(6, Assign, DeclRef(0), call);
      Slotted([ExprNode(DeclRef(0)), ExprNode(DeclRef(1)), ExprNode(DeclRef(2)), ExprNode(cast), ExprNode(str), ExprNode(call), ExprNode(e)], 7)
  {
  }

  lemma EndorsementSteps(removeAnnotation: Ty -> Ty)
    ensures var p := TaintPolicy(removeAnnotation);
      var x := Annotated(Int, "tainted");
      var cast := ImplicitCast(3, DeclRef(2));
      var str := StringLiteral(4, "endorse");
      var s0 := State([Int, Base("builtin"), x, Int, Base("char[8]"), x, Int], [], None);
      var s4 := State([Int, Base("builtin"), x, x, Base("char[8]"), x, Int], [], None);
      && Step(p, ExprNode(cast), s0) == s4
      && Step(p, ExprNode(str), s4) == s4
  {
  }

  lemma EndorsementCallStep(removeAnnotation: Ty -> Ty)
    ensures var x := Annotated(Int, "tainted");
      var call := Call(5, Some(FunctionSig([], Int, true)), DeclRef(1), [ImplicitCast(3, DeclRef(2)), StringLiteral(4, "endorse")]);
      Step(TaintPolicy(removeAnnotation), ExprNode(call), State([Int, Base("builtin"), x, x, Base("char[8]"), x, Int], [], None))
        == State([Int, Base("builtin"), x, x, Base("char[8]"), Taint.Endorse(removeAnnotation, x), Int], [], None)
  {
  }

  lemma EndorsementAssignStep(removeAnnotation: Ty -> Ty)
    ensures var x := Annotated(Int, "tainted");
      var call := Call(5, Some(FunctionSig([], Int, true)), DeclRef(1), [ImplicitCast(3, DeclRef(2)), StringLiteral(4, "endorse")]);
      var e := Binary(6, Assign, DeclRef(0), call);
      Step(TaintPolicy(removeAnnotation), ExprNode(e),
           State([Int, Base("builtin"), x, x, Base("char[8]"), Taint.Endorse(removeAnnotation, x), Int], [], None)).diags == []
  {
    var endorsed := Taint.Endorse(removeAnnotation, Annotated(Int, "tainted"));
    assert Taint.MayFlow(Int, endorsed);
  }

  /** examples/tainting/test/funcs.c line 31: `i(x)` is an error at the
      argument, for `tainted int i(int p)` and `tainted int x`. */
  lemma TaintCallArgument(removeAnnotation: Ty -> Ty)
    ensures var i := FunctionSig([Int], Annotated(Int, "tainted"), false);
      var e := Call(4, Some(i), ImplicitCast(1, DeclRef(0)), [ImplicitCast(3, DeclRef(2))]);
      && Slotted(Postorder(e), 5)
      && Run(TaintPolicy(removeAnnotation), e,
             [Base("fn"), Base("fnptr"), Annotated(Int, "tainted"), Int, Annotated(Int, "tainted")]).diags
           == [Diag(3, Error, "tainted incompatible with unannotated")]
  {
    var x := Annotated(Int, "tainted");
    var fn := ImplicitCast(1, DeclRef(0));
    var arg := ImplicitCast(3, DeclRef(2));
    var e := Call(4, Some(FunctionSig([Int], x, false)), fn, [arg]);
    CallWalk();
    CallSlotted();
    var s0 := State([Base("fn"), Base("fnptr"), x, Int, x], [], None);
    DeclRefStep(TaintPolicy(removeAnnotation), 0, s0);
    DeclRefStep(TaintPolicy(removeAnnotation), 2, s0);
    CallSteps(removeAnnotation);
    CallArgStep(removeAnnotation);
    var s4 := State([Base("fn"), Base("fnptr"), x, x, x], [], None);
    Chain5(TaintPolicy(removeAnnotation),
           ExprNode(DeclRef(0)), ExprNode(fn), ExprNode(DeclRef(2)), ExprNode(arg), ExprNode(e),
           s0, s0, s0, s0, s4, Step(TaintPolicy(removeAnnotation), ExprNode(e), s4));
  }

  /** The walk of a variable read through an implicit cast. */
  lemma CastWalk(id: nat, ref: nat)
    ensures Postorder(ImplicitCast(id, DeclRef(ref))) == [ExprNode(DeclRef(ref)), ExprNode(ImplicitCast(id, DeclRef(ref)))]
  {
  }

  /** The walk of a one-element list is the walk of its element. */
  lemma SingleWalk(x: Expr)
    ensures PostorderAll([x]) == Postorder(x)
  {
    assert [x][..0] == [];
  }

  lemma CallWalk()
    ensures var fn := ImplicitCast(1, DeclRef(0));
      var arg := ImplicitCast(3, DeclRef(2));
      var e := Call(4, Some(FunctionSig([Int], Annotated(Int, "tainted"), false)), fn, [arg]);
      var ns := [ExprNode(DeclRef(0)), ExprNode(fn), ExprNode(DeclRef(2)), ExprNode(arg), ExprNode(e)];
      Postorder(e) == ns
  {
    var fn := ImplicitCast(1, DeclRef(0));
    var arg := ImplicitCast(3, DeclRef(2));
    var e := Call(4, Some(FunctionSig([Int], Annotated(Int, "tainted"), false)), fn, [arg]);
    CastWalk(1, 0);
    CastWalk(3, 2);
    SingleWalk(arg);
    assert Postorder(e) == Postorder(fn) + PostorderAll([arg]) + [ExprNode(e)];
    PairsThenOne(ExprNode(DeclRef(0)), ExprNode(fn), ExprNode(DeclRef(2)), ExprNode(arg), ExprNode(e));
  }

  /** Two pairs of visits and a last one make five visits in order. */
  lemma PairsThenOne(a: Node, b: Node, c: Node, d: Node, x: Node)
    ensures [a, b] + [c, d] + [x] == [a, b, c, d, x]
  {
  }

  lemma CallSlotted()
    ensures var fn := ImplicitCast(1, DeclRef(0));
      var arg := ImplicitCast(3, DeclRef(2));
      var e := Call(4, Some(FunctionSig([Int], Annotated(Int, "tainted"), false)), fn, [arg]);
      Slotted([ExprNode(DeclRef(0)), ExprNode(fn), ExprNode(DeclRef(2)), ExprNode(arg), ExprNode(e)], 5)
  {
  }

  lemma CallSteps(removeAnnotation: Ty -> Ty)
    ensures var p := TaintPolicy(removeAnnotation);
      var x := Annotated(Int, "tainted");
      var fn := ImplicitCast(1, DeclRef(0));
      var arg := ImplicitCast(3, DeclRef(2));
      var s0 := State([Base("fn"), Base("fnptr"), x, Int, x], [], None);
      var s4 := State([Base("fn"), Base("fnptr"), x, x, x], [], None);
      && Step(p, ExprNode(fn), s0) == s0
      && Step(p, ExprNode(arg), s0) == s4
  {
  }

  lemma CallArgStep(removeAnnotation: Ty -> Ty)
    ensures var p := TaintPolicy(removeAnnotation);
      var x := Annotated(Int, "tainted");
      var e := Call(4, Some(FunctionSig([Int], x, false)), ImplicitCast(1, DeclRef(0)), [ImplicitCast(3, DeclRef(2))]);
      var s4 := State([Base("fn"), Base("fnptr"), x, x, x], [], None);
      Step(p, ExprNode(e), s4).diags == [Diag(3, Error, "tainted incompatible with unannotated")]
  {
    var p := TaintPolicy(removeAnnotation);
    var x := Annotated(Int, "tainted");
    var arg := ImplicitCast(3, DeclRef(2));
    TaintedIntoPlain(removeAnnotation, 3);
    assert ArgChecks(p, [Int], [arg], [Base("fn"), Base("fnptr"), x, x, x]) == CheckFlow(p, 3, Int, x) by {
      assert [Int][..0] == [] && [arg][..0] == [];
    }
  }

  /** examples/tainting/test/funcs.c lines 15-17: in `int h(tainted int p)`
      the statement `return p;` is an error at the return. */
  lemma TaintReturn(removeAnnotation: Ty -> Ty)
    ensures var h := FunctionSig([Annotated(Int, "tainted")], Int, false);
      var body := Block([Return(2, Some(ImplicitCast(1, DeclRef(0))))]);
      && Slotted(UnitOrder([Function(h, Some(body))]), 2)
      && Sweep(TaintPolicy(removeAnnotation), UnitOrder([Function(h, Some(body))]),
               State([Annotated(Int, "tainted"), Int], [], None)).diags
           == [Diag(2, Error, "tainted incompatible with unannotated")]
  {
    var x := Annotated(Int, "tainted");
    var h := FunctionSig([x], Int, false);
    var cast := ImplicitCast(1, DeclRef(0));
    var ret := Return(2, Some(cast));
    ReturnWalk();
    ReturnSlotted();
    ReturnSteps(removeAnnotation);
    var s1 := State([x, Int], [], Some(h));
    var s3 := State([x, x], [], Some(h));
    var s4 := State([x, x], [Diag(2, Error, "tainted incompatible with unannotated")], Some(h));
    Chain5(TaintPolicy(removeAnnotation),
           FunctionNode(h), ExprNode(DeclRef(0)), ExprNode(cast), StmtNode(ret), StmtNode(Block([ret])),
           State([x, Int], [], None), s1, s1, s3, s4, s4);
  }

  lemma ReturnWalk()
    ensures var h := FunctionSig([Annotated(Int, "tainted")], Int, false);
      var cast := ImplicitCast(1, DeclRef(0));
      var ret := Return(2, Some(cast));
      var body := Block([ret]);
      var ns := [FunctionNode(h), ExprNode(DeclRef(0)), ExprNode(cast), StmtNode(ret), StmtNode(body)];
      UnitOrder([Function(h, Some(body))]) == ns
  {
    var h := FunctionSig([Annotated(Int, "tainted")], Int, false);
    var cast := ImplicitCast(1, DeclRef(0));
    var ret := Return(2, Some(cast));
    var body := Block([ret]);
    var f := Function(h, Some(body));
    assert Postorder(cast) == [ExprNode(DeclRef(0)), ExprNode(cast)];
    assert PostorderStmt(ret) == [ExprNode(DeclRef(0)), ExprNode(cast), StmtNode(ret)];
    assert PostorderStmts([ret]) == PostorderStmt(ret) by { assert [ret][..0] == []; }
    assert PostorderStmt(body) == [ExprNode(DeclRef(0)), ExprNode(cast), StmtNode(ret), StmtNode(body)];
    assert TopWalk(f) == [FunctionNode(h), ExprNode(DeclRef(0)), ExprNode(cast), StmtNode(ret), StmtNode(body)];
    assert UnitOrder([f]) == TopWalk(f) by { assert [f][..0] == []; }
  }

  lemma ReturnSlotted()
    ensures var h := FunctionSig([Annotated(Int, "tainted")], Int, false);
      var cast := ImplicitCast(1, DeclRef(0));
      var ret := Return(2, Some(cast));
      Slotted([FunctionNode(h), ExprNode(DeclRef(0)), ExprNode(cast), StmtNode(ret), StmtNode(Block([ret]))], 2)
  {
  }

  lemma ReturnSteps(removeAnnotation: Ty -> Ty)
    ensures var p := TaintPolicy(removeAnnotation);
      var x := Annotated(Int, "tainted");
      var h := FunctionSig([x], Int, false);
      var cast := ImplicitCast(1, DeclRef(0));
      var ret := Return(2, Some(cast));
      var s1 := State([x, Int], [], Some(h));
      var s3 := State([x, x], [], Some(h));
      var s4 := State([x, x], [Diag(2, Error, "tainted incompatible with unannotated")], Some(h));
      && Step(p, FunctionNode(h), State([x, Int], [], None)) == s1
      && Step(p, ExprNode(DeclRef(0)), s1) == s1
      && Step(p, ExprNode(cast), s1) == s3
      && Step(p, StmtNode(ret), s3) == s4
      && Step(p, StmtNode(Block([ret])), s4) == s4
  {
    TaintedIntoPlain(removeAnnotation, 2);
  }
}
