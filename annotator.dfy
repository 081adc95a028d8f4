/** The annotator object and the postorder visitor (TypeAnnotations.h),
    with the Visit* overrides of the two example policies. The annotator
    keeps the type of every expression node in a table indexed by node id
    (the host's Expr::getType/setType), the diagnostics reported so far,
    and the current function. Every method is proved against the rules of
    module Typing. */
module Annotating {
  import opened Types
  import opened Syntax
  import opened Annotations
  import opened Typing
  import Nullness
  import Taint

  class Annotator {
    const policy: Policy
    const types: array<Ty>
    var diags: seq<Diag>
    var curFunc: Option<FunctionSig>

    ghost function Abs(): State
      reads this, types
    {
      State(types[..], diags, curFunc)
    }

    constructor (policy: Policy, types: array<Ty>)
      ensures this.policy == policy && this.types == types
      ensures diags == [] && curFunc == None
    {
      this.policy := policy;
      this.types := types;
      diags := [];
      curFunc := None;
    }

    /*** Annotation assignment ***/

    method AddAnnotation(id: nat, a: Label)
      requires id < types.Length
      modifies types
      ensures types[..] == old(types[..])[id := Annotations.AddAnnotation(old(types[id]), a)]
    {
      if |a| > 0 {
        types[id] := Annotated(types[id], a);
      }
    }

    method AddAnnotationOrImplicit(id: nat, a: Label)
      requires id < types.Length
      modifies types
      ensures types[..] == old(types[..])[id := Annotations.AddAnnotationOrImplicit(ImplicitOf(policy), old(types[id]), a)]
    {
      if |a| > 0 {
        AddAnnotation(id, a);
      } else {
        AddAnnotation(id, ImplicitOf(policy)(Some(types[id])));
      }
    }

    /*** Compatibility checks ***/

    method Compatible(l: Ty, r: Ty) returns (ok: bool)
      ensures ok == IsCompatible(policy, l, r)
    {
      match policy
      case Generic(compatible, _) =>
        ok := compatible(l, r);
      case NullnessPolicy(checkPointerInvariance) =>
        ok := Nullness.Compatible(checkPointerInvariance, l, r);
      case TaintPolicy(_) =>
        ok := Taint.Compatible(l, r);
    }

    method EmitIncompatibleError(at: nat, l: Ty, r: Ty)
      modifies this`diags
      ensures diags == old(diags) + [IncompatibleDiag(policy, at, l, r)]
    {
      if policy.NullnessPolicy? {
        diags := diags + [Nullness.IncompatibleDiag(at)];
      } else {
        diags := diags + [DefaultIncompatibleDiag(ImplicitOf(policy), at, l, r)];
      }
    }

    method AssertCompatible(at: nat, l: Ty, r: Ty)
      modifies this`diags
      ensures diags == old(diags) + CheckFlow(policy, at, l, r)
    {
      var ok := Compatible(l, r);
      if !ok {
        EmitIncompatibleError(at, l, r);
      }
    }

    /*** Default typing rules ***/

    /** VisitBinAssign and VisitCompoundAssignOperator. */
    method VisitAssign(e: Expr) returns (a: Label)
      requires e.Binary? && e.bop != OtherBinaryOp && NodeIdsBelow(ExprNode(e), types.Length)
      modifies this`diags
      ensures diags == old(diags) + CheckFlow(policy, e.id, types[e.lhs.id], types[e.rhs.id])
      ensures a == LabelOf(policy, types[e.lhs.id])
    {
      AssertCompatible(e.id, types[e.lhs.id], types[e.rhs.id]);
      a := LabelOf(policy, types[e.lhs.id]);
    }

    method VisitDeclStmt(decls: seq<Decl>) returns (a: Label)
      requires DeclsSlotted(decls, types.Length)
      modifies this`diags
      ensures diags == old(diags) + DeclChecks(policy, decls, types[..])
      ensures a == NoLabel
    {
      var i := 0;
      while i < |decls|
        invariant 0 <= i <= |decls|
        invariant DeclsSlotted(decls[..i], types.Length)
        invariant diags == old(diags) + DeclChecks(policy, decls[..i], types[..])
      {
        assert decls[..i + 1][..i] == decls[..i];
        match decls[i] {
          case Var(declType, init) =>
            if init.Some? {
              AssertCompatible(init.value.id, declType, types[init.value.id]);
            }
          case FunctionDeclaration(_) =>
          case OtherDecl =>
        }
        i := i + 1;
      }
      assert decls[..i] == decls;
      a := NoLabel;
    }

    method VisitImplicitCastExpr(e: Expr) returns (a: Label)
      requires e.ImplicitCast? && e.sub.id < types.Length
      ensures a == LabelOf(policy, types[e.sub.id])
    {
      a := LabelOf(policy, types[e.sub.id]);
    }

    method VisitCallExpr(e: Expr) returns (a: Label)
      requires e.Call? && NodeIdsBelow(ExprNode(e), types.Length)
      modifies this`diags
      ensures diags == old(diags) + CallChecks(policy, e.callee, e.args, types[..])
      ensures a == CallLabel(policy, e.callee)
    {
      assert forall x <- e.args :: x in Children(e);
      if e.callee.Some? {
        var d := e.callee.value;
        if |d.params| == |e.args| {
          var i := 0;
          while i < |d.params| && i < |e.args|
            invariant 0 <= i <= |e.args|
            invariant diags == old(diags) + ArgChecks(policy, d.params[..i], e.args[..i], types[..])
          {
            assert d.params[..i + 1][..i] == d.params[..i];
            assert e.args[..i + 1][..i] == e.args[..i];
            AssertCompatible(e.args[i].id, d.params[i], types[e.args[i].id]);
            i := i + 1;
          }
          assert d.params[..i] == d.params && e.args[..i] == e.args;
        }
        a := LabelOf(policy, d.returnType);
      } else {
        a := NoLabel;
      }
    }

    method VisitReturnStmt(id: nat, value: Option<Expr>) returns (a: Label)
      requires value.Some? ==> value.value.id < types.Length
      modifies this`diags
      ensures Abs() == Step(policy, StmtNode(Return(id, value)), old(Abs()))
      ensures a == NoLabel
    {
      if value.Some? && curFunc.Some? {
        AssertCompatible(id, curFunc.value.returnType, types[value.value.id]);
      }
      a := NoLabel;
    }

    /*** Nullness policy overrides ***/

    method NullnessVisitUnaryOperator(e: Expr)
      requires policy.NullnessPolicy? && e.Unary? && e.sub.id < types.Length
      modifies this`diags
      ensures diags == old(diags) + Nullness.UnaryOperatorDiags(e.id, e.uop, types[e.sub.id])
    {
      match e.uop
      case Deref =>
        if Nullness.Nullable(types[e.sub.id]) {
          diags := diags + [Diag(e.id, Warning, "dereferencing nullable pointer")];
        }
      case AddrOf =>
      case OtherUnaryOp =>
    }

    method NullnessVisitIntegerLiteral(e: Expr)
      requires policy.NullnessPolicy? && e.IntegerLiteral? && e.id < types.Length
      modifies types
      ensures types[..] == old(types[..])[e.id := Annotations.AddAnnotation(old(types[e.id]), Nullness.IntegerLiteralLabel(e.value))]
    {
      if e.value == 0 {
        AddAnnotation(e.id, Nullness.NullableLabel);
      } else {
        assert types[..] == old(types[..])[e.id := old(types[e.id])];
      }
    }

    method NullnessVisitGNUNullExpr(e: Expr)
      requires policy.NullnessPolicy? && e.GNUNull? && e.id < types.Length
      modifies types
      ensures types[..] == old(types[..])[e.id := Annotations.AddAnnotation(old(types[e.id]), Nullness.GNUNullLabel)]
    {
      AddAnnotation(e.id, Nullness.NullableLabel);
    }

    /*** Taint policy overrides ***/

    method TaintVisitBinaryOperator(e: Expr)
      requires policy.TaintPolicy? && e.Binary? && NodeIdsBelow(ExprNode(e), types.Length)
      modifies types
      ensures types[..] == old(types[..])[e.id := Annotations.AddAnnotation(old(types[e.id]),
                Taint.BinaryOperatorLabel(old(types[e.lhs.id]), old(types[e.rhs.id])))]
    {
      if Taint.Tainted(types[e.lhs.id]) || Taint.Tainted(types[e.rhs.id]) {
        AddAnnotation(e.id, Taint.TaintedLabel);
      } else {
        assert types[..] == old(types[..])[e.id := old(types[e.id])];
      }
    }

    method TaintVisitUnaryOperator(e: Expr)
      requires policy.TaintPolicy? && e.Unary? && NodeIdsBelow(ExprNode(e), types.Length)
      modifies types
      ensures types[..] == old(types[..])[e.id := Annotations.AddAnnotation(old(types[e.id]),
                Taint.UnaryOperatorLabel(old(types[e.sub.id])))]
    {
      AddAnnotation(e.id, AnnotationOf(NoImplicit, types[e.sub.id]));
    }

    /** The taint policy's VisitCallExpr: the endorsement, then the base
      call checks; its own result is empty. */
    method TaintVisitCallExpr(e: Expr)
      requires policy.TaintPolicy? && e.Call? && NodeIdsBelow(ExprNode(e), types.Length)
      modifies this`diags, types
      ensures VisitOutcome(policy, e, old(Abs())) == (NoLabel, Abs())
    {
      assert forall x <- e.args :: x in Children(e);
      if Taint.IsEndorsement(e.callee, e.args) {
        types[e.id] := policy.removeAnnotation(types[e.id]);
        AddAnnotation(e.id, Taint.UntaintedLabel);
        assert types[..] == old(types[..])[e.id := Taint.Endorse(policy.removeAnnotation, old(types[e.id]))];
      }
      var _ := VisitCallExpr(e);
    }

    /*** Dispatch ***/

    /** StmtVisitor's Visit on an expression: the Visit* method of the
      policy in use for the node's kind, falling back to the base rules. */
    method Visit(e: Expr) returns (a: Label)
      requires NodeIdsBelow(ExprNode(e), types.Length)
      modifies this`diags, types
      ensures (a, Abs()) == VisitOutcome(policy, e, old(Abs()))
    {
      a := NoLabel;
      match e
      case Binary(id, op, lhs, rhs) =>
        if op != OtherBinaryOp {
          a := VisitAssign(e);
        } else if policy.TaintPolicy? {
          TaintVisitBinaryOperator(e);
        }
      case Unary(id, op, sub) =>
        if policy.NullnessPolicy? {
          NullnessVisitUnaryOperator(e);
        } else if policy.TaintPolicy? {
          TaintVisitUnaryOperator(e);
        }
      case IntegerLiteral(_, _) =>
        if policy.NullnessPolicy? {
          NullnessVisitIntegerLiteral(e);
        }
      case GNUNull(_) =>
        if policy.NullnessPolicy? {
          NullnessVisitGNUNullExpr(e);
        }
      case ImplicitCast(_, _) =>
        a := VisitImplicitCastExpr(e);
      case Call(_, _, _, _) =>
        if policy.TaintPolicy? {
          TaintVisitCallExpr(e);
        } else {
          a := VisitCallExpr(e);
        }
      case DeclRef(_) =>
      case StringLiteral(_, _) =>
      case OtherExpr(_, _) =>
    }

    /** StmtVisitor's Visit on a statement that is not an expression. */
    method VisitStmt(st: Stmt)
      requires NodeIdsBelow(StmtNode(st), types.Length)
      modifies this`diags
      ensures Abs() == Step(policy, StmtNode(st), old(Abs()))
    {
      match st
      case DeclStmt(decls) =>
        var _ := VisitDeclStmt(decls);
      case Return(id, value) =>
        var _ := VisitReturnStmt(id, value);
      case ExprStmt(_) =>
      case Block(_) =>
    }
  }

  /** The postorder visitor: it walks the tree children first and, after
      the children, asks the annotator to visit the node and stamps the
      result on expressions; each function declaration it meets becomes the
      annotator's current function. */
  class TAVisitor {
    const annotator: Annotator

    constructor (annotator: Annotator)
      ensures this.annotator == annotator
    {
      this.annotator := annotator;
    }

    method VisitFunctionDecl(f: FunctionSig)
      modifies annotator`curFunc
      ensures annotator.curFunc == Some(f)
      ensures annotator.Abs() == Step(annotator.policy, FunctionNode(f), old(annotator.Abs()))
    {
      annotator.curFunc := Some(f);
    }

    /** TraverseStmt on an expression: its children first, then the node
        itself is visited and stamped with the visitor's result. */
    method TraverseExpr(e: Expr)
      requires Slotted(Postorder(e), annotator.types.Length)
      modifies annotator, annotator.types
      ensures annotator.Abs() == Sweep(annotator.policy, Postorder(e), old(annotator.Abs()))
      decreases e, 1
    {
      ghost var s0 := annotator.Abs();
      PostorderSplit(e);
      SlottedPrefix(ChildWalk(e), Postorder(e), annotator.types.Length);
      TraverseChildren(e);
      SweepSnoc(annotator.policy, ChildWalk(e), ExprNode(e), s0);
      var a := annotator.Visit(e);
      annotator.AddAnnotationOrImplicit(e.id, a);
    }

    /** The host's traversal of the children of `e`, in source order. */
    method TraverseChildren(e: Expr)
      requires Slotted(ChildWalk(e), annotator.types.Length)
      modifies annotator, annotator.types
      ensures annotator.Abs() == Sweep(annotator.policy, ChildWalk(e), old(annotator.Abs()))
      decreases e, 0
    {
      ghost var s0 := annotator.Abs();
      match e {
        case Unary(_, _, sub) =>
          TraverseExpr(sub);
        case Binary(_, _, lhs, rhs) =>
          SweepAppend(annotator.policy, Postorder(lhs), Postorder(rhs), s0);
          TraverseExpr(lhs);
          TraverseExpr(rhs);
        case ImplicitCast(_, sub) =>
          TraverseExpr(sub);
        case Call(_, _, fn, args) =>
          SweepAppend(annotator.policy, Postorder(fn), PostorderAll(args), s0);
          TraverseExpr(fn);
          TraverseExprs(args);
        case OtherExpr(_, cs) =>
          TraverseExprs(cs);
        case DeclRef(_) =>
        case IntegerLiteral(_, _) =>
        case StringLiteral(_, _) =>
        case GNUNull(_) =>
      }
    }

    /** TraverseStmt on each of `es` in turn. */
    method TraverseExprs(es: seq<Expr>)
      requires Slotted(PostorderAll(es), annotator.types.Length)
      modifies annotator, annotator.types
      ensures annotator.Abs() == Sweep(annotator.policy, PostorderAll(es), old(annotator.Abs()))
      decreases es, 0
    {
      ghost var s0 := annotator.Abs();
      ghost var k := annotator.types.Length;
      PostorderAllPrefixes(es);
      var i := 0;
      while i < |es|
        invariant 0 <= i <= |es|
        invariant Slotted(PostorderAll(es[..i]), k)
        invariant annotator.Abs() == Sweep(annotator.policy, PostorderAll(es[..i]), s0)
      {
        ghost var done := PostorderAll(es[..i]);
        assert es[..i + 1][..i] == es[..i];
        assert PostorderAll(es[..i + 1]) == done + Postorder(es[i]);
        SlottedPrefix(PostorderAll(es[..i + 1]), PostorderAll(es), k);
        SweepAppend(annotator.policy, done, Postorder(es[i]), s0);
        TraverseExpr(es[i]);
        i := i + 1;
      }
      assert es[..i] == es;
    }

    /** TraverseStmt on a statement: an expression statement is its
        expression; any other statement is visited after its parts. */
    method TraverseStmt(st: Stmt)
      requires Slotted(PostorderStmt(st), annotator.types.Length)
      modifies annotator, annotator.types
      ensures annotator.Abs() == Sweep(annotator.policy, PostorderStmt(st), old(annotator.Abs()))
      decreases st, 1
    {
      ghost var s0 := annotator.Abs();
      ghost var parts: seq<Node> := [];
      match st {
        case ExprStmt(e) =>
          TraverseExpr(e);
          return;
        case DeclStmt(decls) =>
          parts := PostorderDecls(decls);
          SweepSnoc(annotator.policy, parts, StmtNode(st), s0);
          TraverseDecls(decls);
        case Return(_, value) =>
          parts := if value.Some? then Postorder(value.value) else [];
          SweepSnoc(annotator.policy, parts, StmtNode(st), s0);
          if value.Some? {
            TraverseExpr(value.value);
          }
        case Block(body) =>
          parts := PostorderStmts(body);
          SweepSnoc(annotator.policy, parts, StmtNode(st), s0);
          TraverseStmts(body);
      }
      annotator.VisitStmt(st);
    }

    /** TraverseStmt on each of `ss` in turn. */
    method TraverseStmts(ss: seq<Stmt>)
      requires Slotted(PostorderStmts(ss), annotator.types.Length)
      modifies annotator, annotator.types
      ensures annotator.Abs() == Sweep(annotator.policy, PostorderStmts(ss), old(annotator.Abs()))
      decreases ss, 0
    {
      ghost var s0 := annotator.Abs();
      ghost var k := annotator.types.Length;
      PostorderStmtsPrefixes(ss);
      var i := 0;
      while i < |ss|
        invariant 0 <= i <= |ss|
        invariant Slotted(PostorderStmts(ss[..i]), k)
        invariant annotator.Abs() == Sweep(annotator.policy, PostorderStmts(ss[..i]), s0)
      {
        ghost var done := PostorderStmts(ss[..i]);
        assert ss[..i + 1][..i] == ss[..i];
        assert PostorderStmts(ss[..i + 1]) == done + PostorderStmt(ss[i]);
        SlottedPrefix(PostorderStmts(ss[..i + 1]), PostorderStmts(ss), k);
        SweepAppend(annotator.policy, done, PostorderStmt(ss[i]), s0);
        TraverseStmt(ss[i]);
        i := i + 1;
      }
      assert ss[..i] == ss;
    }

    /** The traversal of a declaration statement's declarations, in order. */
    method TraverseDecls(decls: seq<Decl>)
      requires Slotted(PostorderDecls(decls), annotator.types.Length)
      modifies annotator, annotator.types
      ensures annotator.Abs() == Sweep(annotator.policy, PostorderDecls(decls), old(annotator.Abs()))
    {
      ghost var s0 := annotator.Abs();
      ghost var k := annotator.types.Length;
      PostorderDeclsPrefixes(decls);
      var i := 0;
      while i < |decls|
        invariant 0 <= i <= |decls|
        invariant Slotted(PostorderDecls(decls[..i]), k)
        invariant annotator.Abs() == Sweep(annotator.policy, PostorderDecls(decls[..i]), s0)
      {
        assert decls[..i + 1][..i] == decls[..i];
        SlottedPrefix(PostorderDecls(decls[..i + 1]), PostorderDecls(decls), k);
        SweepAppend(annotator.policy, PostorderDecls(decls[..i]), DeclWalk(decls[i]), s0);
        TraverseDecl(decls[i]);
        i := i + 1;
      }
      assert decls[..i] == decls;
    }

    /** One declaration: a variable's initialiser is walked, a function
        declaration is visited. */
    method TraverseDecl(d: Decl)
      requires Slotted(DeclWalk(d), annotator.types.Length)
      modifies annotator, annotator.types
      ensures annotator.Abs() == Sweep(annotator.policy, DeclWalk(d), old(annotator.Abs()))
    {
      match d {
        case Var(_, init) =>
          if init.Some? {
            TraverseExpr(init.value);
          }
        case FunctionDeclaration(f) =>
          assert DeclWalk(d) == [] + [FunctionNode(f)];
          SweepSnoc(annotator.policy, [], FunctionNode(f), annotator.Abs());
          VisitFunctionDecl(f);
        case OtherDecl =>
      }
    }

    /** The walk of a translation unit, declaration by declaration. */
    method TraverseUnit(tu: seq<TopDecl>)
      requires Slotted(UnitOrder(tu), annotator.types.Length)
      modifies annotator, annotator.types
      ensures annotator.Abs() == Sweep(annotator.policy, UnitOrder(tu), old(annotator.Abs()))
    {
      ghost var s0 := annotator.Abs();
      ghost var k := annotator.types.Length;
      UnitOrderPrefixes(tu);
      var i := 0;
      while i < |tu|
        invariant 0 <= i <= |tu|
        invariant Slotted(UnitOrder(tu[..i]), k)
        invariant annotator.Abs() == Sweep(annotator.policy, UnitOrder(tu[..i]), s0)
      {
        assert tu[..i + 1][..i] == tu[..i];
        SlottedPrefix(UnitOrder(tu[..i + 1]), UnitOrder(tu), k);
        SweepAppend(annotator.policy, UnitOrder(tu[..i]), TopWalk(tu[i]), s0);
        TraverseTopDecl(tu[i]);
        i := i + 1;
      }
      assert tu[..i] == tu;
    }

    /** One translation-unit-level declaration: a function is visited
        before its body is walked; a global variable's initialiser is
        walked (and, being outside any declaration statement, not checked). */
    method TraverseTopDecl(d: TopDecl)
      requires Slotted(TopWalk(d), annotator.types.Length)
      modifies annotator, annotator.types
      ensures annotator.Abs() == Sweep(annotator.policy, TopWalk(d), old(annotator.Abs()))
    {
      ghost var s0 := annotator.Abs();
      match d {
        case Function(f, body) =>
          ghost var walk := if body.Some? then PostorderStmt(body.value) else [];
          assert TopWalk(d) == [] + [FunctionNode(f)] + walk;
          SweepAppend(annotator.policy, [] + [FunctionNode(f)], walk, s0);
          SweepSnoc(annotator.policy, [], FunctionNode(f), s0);
          VisitFunctionDecl(f);
          if body.Some? {
            TraverseStmt(body.value);
          }
        case GlobalVar(_, init) =>
          if init.Some? {
            TraverseExpr(init.value);
          }
      }
    }
  }
}
