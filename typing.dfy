/** The typing rules of the annotator (TypeAnnotations.h), with the visit
    rules of the two example policies plugged in, stated over a snapshot of
    the annotator's state. `Step` is one visit the traversal makes; `Sweep`
    is a whole walk. The imperative annotator is proved against these. */
module Typing {
  import opened Types
  import opened Syntax
  import opened Annotations
  import Nullness
  import Taint

  /** The annotator subclass in use. `Generic` is the base annotator with its
      two overridable hooks (Compatible and ImplicitAnnotation); the two
      example policies carry the host calls their code makes but that are
      not part of this model. */
  datatype Policy =
    | Generic(compatible: (Ty, Ty) -> bool, implicit: Implicit)
    | NullnessPolicy(checkPointerInvariance: (Ty, Ty) -> bool)
    | TaintPolicy(removeAnnotation: Ty -> Ty)

  /** The base annotator exactly as written: every flow is compatible and no
      type carries an implicit label. */
  const Default: Policy := Generic((l: Ty, r: Ty) => true, NoImplicit)

  /** The policy's ImplicitAnnotation; both example policies keep the base one. */
  function ImplicitOf(p: Policy): Implicit
  {
    if p.Generic? then p.implicit else NoImplicit
  }

  /** AnnotationOf under the policy in use. */
  function LabelOf(p: Policy, t: Ty): Label
  {
    AnnotationOf(ImplicitOf(p), t)
  }

  /** The policy's Compatible for a flow of a value of type `r` into a
      destination of type `l`. */
  predicate IsCompatible(p: Policy, l: Ty, r: Ty)
  {
    match p
    case Generic(compatible, _) => compatible(l, r)
    case NullnessPolicy(checkPointerInvariance) => Nullness.Compatible(checkPointerInvariance, l, r)
    case TaintPolicy(_) => Taint.MayFlow(l, r)
  }

  /** The policy's EmitIncompatibleError. */
  function IncompatibleDiag(p: Policy, at: nat, l: Ty, r: Ty): Diag
  {
    if p.NullnessPolicy? then Nullness.IncompatibleDiag(at)
    else DefaultIncompatibleDiag(ImplicitOf(p), at, l, r)
  }

  /** What AssertCompatible appends for a flow checked at node `at`. */
  function CheckFlow(p: Policy, at: nat, l: Ty, r: Ty): seq<Diag>
  {
    if IsCompatible(p, l, r) then [] else [IncompatibleDiag(p, at, l, r)]
  }

  /** AssertCompatible reports exactly one diagnostic, at the flow point,
      when the flow is incompatible and nothing otherwise. Under the nullness
      policy it is the fixed warning; otherwise the default error naming the
      two labels. */
  lemma AssertCompatibleReports(p: Policy, at: nat, l: Ty, r: Ty)
    ensures |CheckFlow(p, at, l, r)| == (if IsCompatible(p, l, r) then 0 else 1)
    ensures forall d <- CheckFlow(p, at, l, r) :: d.at == at
    ensures p.NullnessPolicy? ==> forall d <- CheckFlow(p, at, l, r) ::
              d.severity == Warning && d.message == "non-null pointer may become null"
    ensures !p.NullnessPolicy? ==> forall d <- CheckFlow(p, at, l, r) ::
              d == DefaultIncompatibleDiag(ImplicitOf(p), at, l, r) && d.severity == Error
  {
  }

  /** A snapshot of the annotator: the type slot of every expression node
      (indexed by node id), the diagnostics reported so far, and the
      function the traversal last declared itself inside. */
  datatype State = State(types: seq<Ty>, diags: seq<Diag>, curFunc: Option<FunctionSig>)

  /** AddAnnotation on node `id`. */
  function Annotate(s: State, id: nat, a: Label): State
    requires id < |s.types|
  {
    s.(types := s.types[id := AddAnnotation(s.types[id], a)])
  }

  function Report(s: State, ds: seq<Diag>): State
  {
    s.(diags := s.diags + ds)
  }

  predicate ArgsSlotted(args: seq<Expr>, k: nat)
  {
    forall a <- args :: a.id < k
  }

  /** The checks of the parameter/argument loop of VisitCallExpr: parameter
      i against argument i, in order, each reported at its argument. */
  function ArgChecks(p: Policy, params: seq<Ty>, args: seq<Expr>, types: seq<Ty>): seq<Diag>
    requires |params| == |args| && ArgsSlotted(args, |types|)
  {
    if args == [] then []
    else
      var n := |args| - 1;
      ArgChecks(p, params[..n], args[..n], types) + CheckFlow(p, args[n].id, params[n], types[args[n].id])
  }

  /** The argument checks of a call: none for an indirect call, none when
      the parameter and argument counts differ (variadic callees), one per
      position otherwise. */
  function CallChecks(p: Policy, callee: Option<FunctionSig>, args: seq<Expr>, types: seq<Ty>): seq<Diag>
    requires ArgsSlotted(args, |types|)
  {
    if callee.None? || |callee.value.params| != |args| then []
    else ArgChecks(p, callee.value.params, args, types)
  }

  /** The label the base VisitCallExpr gives a call: the annotation of the
      callee's return type, or nothing for an indirect call. */
  function CallLabel(p: Policy, callee: Option<FunctionSig>): Label
  {
    if callee.Some? then LabelOf(p, callee.value.returnType) else NoLabel
  }

  predicate DeclsSlotted(decls: seq<Decl>, k: nat)
  {
    forall d <- decls :: d.Var? && d.init.Some? ==> d.init.value.id < k
  }

  /** The checks of VisitDeclStmt: every variable with an initialiser, in
      order, its declared type against the initialiser's, reported at the
      initialiser. */
  function DeclChecks(p: Policy, decls: seq<Decl>, types: seq<Ty>): seq<Diag>
    requires DeclsSlotted(decls, |types|)
  {
    if decls == [] then []
    else
      var n := |decls| - 1;
      var d := decls[n];
      DeclChecks(p, decls[..n], types)
      + if d.Var? && d.init.Some? then CheckFlow(p, d.init.value.id, d.declType, types[d.init.value.id]) else []
  }

  /** StmtVisitor's dispatch of an expression node to the policy's Visit*
      method: the visitor's result label and the state after the visit
      (before TraverseStmt stamps the result on the node). */
  function VisitOutcome(p: Policy, e: Expr, s: State): (r: (Label, State))
    requires NodeIdsBelow(ExprNode(e), |s.types|)
    ensures |r.1.types| == |s.types|
    ensures forall j | 0 <= j < |s.types| && j != e.id :: r.1.types[j] == s.types[j]
    ensures s.diags <= r.1.diags
    ensures r.1.curFunc == s.curFunc
  {
    match e
    case Binary(id, op, lhs, rhs) =>
      if op != OtherBinaryOp then
        // VisitBinAssign and VisitCompoundAssignOperator.
        (LabelOf(p, s.types[lhs.id]), Report(s, CheckFlow(p, id, s.types[lhs.id], s.types[rhs.id])))
      else if p.TaintPolicy? then
        (NoLabel, Annotate(s, id, Taint.BinaryOperatorLabel(s.types[lhs.id], s.types[rhs.id])))
      else (NoLabel, s)
    case Unary(id, op, sub) =>
      (NoLabel,
       match p
       case NullnessPolicy(_) => Report(s, Nullness.UnaryOperatorDiags(id, op, s.types[sub.id]))
       case TaintPolicy(_) => Annotate(s, id, Taint.UnaryOperatorLabel(s.types[sub.id]))
       case Generic(_, _) => s)
    case IntegerLiteral(id, value) =>
      (NoLabel, if p.NullnessPolicy? then Annotate(s, id, Nullness.IntegerLiteralLabel(value)) else s)
    case GNUNull(id) =>
      (NoLabel, if p.NullnessPolicy? then Annotate(s, id, Nullness.GNUNullLabel) else s)
    case ImplicitCast(_, sub) =>
      (LabelOf(p, s.types[sub.id]), s)
    case Call(id, callee, _, args) =>
      assert forall a <- args :: a in Children(e);
      if p.TaintPolicy? then
        // The endorsement first, then the base call checks; the override
        // itself yields no label.
        var endorsed :=
          if Taint.IsEndorsement(callee, args)
          then s.(types := s.types[id := Taint.Endorse(p.removeAnnotation, s.types[id])])
          else s;
        (NoLabel, Report(endorsed, CallChecks(p, callee, args, endorsed.types)))
      else
        (CallLabel(p, callee), Report(s, CallChecks(p, callee, args, s.types)))
    case _ => (NoLabel, s)
  }

  /** One visit of TraverseStmt / VisitFunctionDecl. An expression is
      visited and then stamped with its result label (or the implicit
      label); a declaration statement and a return are checked; a function
      declaration becomes the current function. */
  function Step(p: Policy, n: Node, s: State): (r: State)
    requires NodeIdsBelow(n, |s.types|)
    ensures |r.types| == |s.types|
    ensures n.ExprNode? ==> forall j | 0 <= j < |s.types| && j != n.e.id :: r.types[j] == s.types[j]
    ensures !n.ExprNode? ==> r.types == s.types
    ensures s.diags <= r.diags
    ensures r.curFunc == if n.FunctionNode? then Some(n.f) else s.curFunc
  {
    match n
    case ExprNode(e) =>
      var v := VisitOutcome(p, e, s);
      v.1.(types := v.1.types[e.id := AddAnnotationOrImplicit(ImplicitOf(p), v.1.types[e.id], v.0)])
    case StmtNode(st) =>
      (match st
       case DeclStmt(decls) => Report(s, DeclChecks(p, decls, s.types))
       case Return(id, value) =>
         // A return outside any function is not checked.
         if value.Some? && s.curFunc.Some?
         then Report(s, CheckFlow(p, id, s.curFunc.value.returnType, s.types[value.value.id]))
         else s
       case _ => s)
    case FunctionNode(f) => s.(curFunc := Some(f))
  }

  /** A walk: the visits of `ns`, in order. It only appends diagnostics. */
  function Sweep(p: Policy, ns: seq<Node>, s: State): (r: State)
    requires Slotted(ns, |s.types|)
    ensures |r.types| == |s.types|
    ensures s.diags <= r.diags
    decreases |ns|
  {
    if ns == [] then s
    else
      var n := |ns| - 1;
      Step(p, ns[n], Sweep(p, ns[..n], s))
  }

  /** Walks compose: walking `a` and then `b` is walking `a + b`. */
  lemma {:induction false} SweepAppend(p: Policy, a: seq<Node>, b: seq<Node>, s: State)
    requires Slotted(a + b, |s.types|)
    ensures Slotted(a, |s.types|) && Slotted(b, |s.types|)
    ensures Sweep(p, a + b, s) == Sweep(p, b, Sweep(p, a, s))
    decreases |b|
  {
    assert forall n <- a :: n in a + b;
    assert forall n <- b :: n in a + b;
    if b == [] {
      assert a + b == a;
    } else {
      var n := |b| - 1;
      assert (a + b)[..|a + b| - 1] == a + b[..n];
      assert (a + b)[|a + b| - 1] == b[n];
      SweepAppend(p, a, b[..n], s);
    }
  }

  /** Walking one more node is one more step. */
  lemma SweepSnoc(p: Policy, xs: seq<Node>, n: Node, s: State)
    requires Slotted(xs + [n], |s.types|)
    ensures Slotted(xs, |s.types|) && NodeIdsBelow(n, |s.types|)
    ensures Sweep(p, xs + [n], s) == Step(p, n, Sweep(p, xs, s))
  {
    assert n in xs + [n];
    assert forall m <- xs :: m in xs + [n];
    assert (xs + [n])[..|xs|] == xs;
  }

  /** The parameter/argument loop reports nothing exactly when every
      parameter accepts its argument. */
  lemma {:induction false} ArgChecksEmptyIff(p: Policy, params: seq<Ty>, args: seq<Expr>, types: seq<Ty>)
    requires |params| == |args| && ArgsSlotted(args, |types|)
    ensures ArgChecks(p, params, args, types) == [] <==>
              forall i | 0 <= i < |args| :: IsCompatible(p, params[i], types[args[i].id])
  {
    if args != [] {
      var n := |args| - 1;
      ArgChecksEmptyIff(p, params[..n], args[..n], types);
      var prefix := ArgChecks(p, params[..n], args[..n], types);
      var last := CheckFlow(p, args[n].id, params[n], types[args[n].id]);
      assert ArgChecks(p, params, args, types) == prefix + last;
      if forall i | 0 <= i < |args| :: IsCompatible(p, params[i], types[args[i].id]) {
        forall i | 0 <= i < n ensures IsCompatible(p, params[..n][i], types[args[..n][i].id]) {
          assert params[..n][i] == params[i] && args[..n][i] == args[i];
        }
      }
      if prefix + last == [] {
        forall i | 0 <= i < |args| ensures IsCompatible(p, params[i], types[args[i].id]) {
          if i < n {
            assert params[..n][i] == params[i] && args[..n][i] == args[i];
          }
        }
      }
    }
  }

  /** The parameter/argument loop reports at most one diagnostic per
      argument, each at one of the arguments. */
  lemma {:induction false} ArgChecksAtArguments(p: Policy, params: seq<Ty>, args: seq<Expr>, types: seq<Ty>)
    requires |params| == |args| && ArgsSlotted(args, |types|)
    ensures |ArgChecks(p, params, args, types)| <= |args|
    ensures forall d <- ArgChecks(p, params, args, types) :: exists i | 0 <= i < |args| :: d.at == args[i].id
  {
    if args != [] {
      var n := |args| - 1;
      ArgChecksAtArguments(p, params[..n], args[..n], types);
      var prefix := ArgChecks(p, params[..n], args[..n], types);
      var last := CheckFlow(p, args[n].id, params[n], types[args[n].id]);
      assert ArgChecks(p, params, args, types) == prefix + last;
      forall d: Diag | d in prefix + last ensures exists i | 0 <= i < |args| :: d.at == args[i].id {
        if d in prefix {
          var i :| 0 <= i < n && d.at == args[..n][i].id;
          assert d.at == args[i].id;
        } else {
          assert d.at == args[n].id;
        }
      }
    }
  }

  /** VisitDeclStmt reports nothing exactly when every initialised variable
      accepts its initialiser. */
  lemma {:induction false} DeclChecksEmptyIff(p: Policy, decls: seq<Decl>, types: seq<Ty>)
    requires DeclsSlotted(decls, |types|)
    ensures DeclChecks(p, decls, types) == [] <==>
              forall d <- decls | d.Var? && d.init.Some? :: IsCompatible(p, d.declType, types[d.init.value.id])
  {
    if decls != [] {
      var n := |decls| - 1;
      var d := decls[n];
      var init := decls[..n];
      assert forall x <- init :: x in decls;
      DeclChecksEmptyIff(p, init, types);
      var prefix := DeclChecks(p, init, types);
      var last := if d.Var? && d.init.Some? then CheckFlow(p, d.init.value.id, d.declType, types[d.init.value.id]) else [];
      assert DeclChecks(p, decls, types) == prefix + last;
      assert decls == init + [d];
    }
  }

  /** VisitDeclStmt reports at most one diagnostic per declaration, each at
      one of the initialisers. */
  lemma {:induction false} DeclChecksAtInitialisers(p: Policy, decls: seq<Decl>, types: seq<Ty>)
    requires DeclsSlotted(decls, |types|)
    ensures |DeclChecks(p, decls, types)| <= |decls|
    ensures forall diag <- DeclChecks(p, decls, types) ::
              exists i | 0 <= i < |decls| :: decls[i].Var? && decls[i].init.Some? && diag.at == decls[i].init.value.id
  {
    if decls != [] {
      var n := |decls| - 1;
      var d := decls[n];
      var init := decls[..n];
      assert forall x <- init :: x in decls;
      DeclChecksAtInitialisers(p, init, types);
      var prefix := DeclChecks(p, init, types);
      var last := if d.Var? && d.init.Some? then CheckFlow(p, d.init.value.id, d.declType, types[d.init.value.id]) else [];
      assert DeclChecks(p, decls, types) == prefix + last;
      forall diag: Diag | diag in prefix + last
        ensures exists i | 0 <= i < |decls| :: decls[i].Var? && decls[i].init.Some? && diag.at == decls[i].init.value.id
      {
        if diag in prefix {
          var i :| 0 <= i < n && init[i].Var? && init[i].init.Some? && diag.at == init[i].init.value.id;
          assert init[i] == decls[i];
        } else {
          assert decls[n].Var? && decls[n].init.Some? && diag.at == decls[n].init.value.id;
        }
      }
    }
  }

  /** An indirect call, or a direct one whose parameter and argument counts
      differ, is not checked at all: the visit adds no diagnostic. */
  lemma UncheckedCalls(p: Policy, e: Expr, s: State)
    requires e.Call? && NodeIdsBelow(ExprNode(e), |s.types|)
    requires e.callee.None? || |e.callee.value.params| != |e.args|
    ensures VisitOutcome(p, e, s).1.diags == s.diags
    ensures !p.TaintPolicy? ==> VisitOutcome(p, e, s) == (CallLabel(p, e.callee), s)
    ensures e.callee.None? && !p.TaintPolicy? ==> VisitOutcome(p, e, s).0 == NoLabel
  {
  }

  /** A direct call with matching counts is checked position by position
      (parameter i against argument i) and, outside the taint policy, takes
      the label of the callee's return type. */
  lemma CheckedCalls(p: Policy, e: Expr, s: State)
    requires e.Call? && NodeIdsBelow(ExprNode(e), |s.types|)
    requires e.callee.Some? && |e.callee.value.params| == |e.args|
    requires forall a <- e.args :: a.id != e.id
    ensures VisitOutcome(p, e, s).1.diags == s.diags + ArgChecks(p, e.callee.value.params, e.args, s.types)
    ensures !p.TaintPolicy? ==> VisitOutcome(p, e, s).0 == LabelOf(p, e.callee.value.returnType)
  {
    assert forall a <- e.args :: a in Children(e);
    if p.TaintPolicy? && Taint.IsEndorsement(e.callee, e.args) {
      var t := s.types[e.id := Taint.Endorse(p.removeAnnotation, s.types[e.id])];
      ArgChecksUnchangedSlot(p, e.callee.value.params, e.args, s.types, e.id, t[e.id]);
    }
  }

  /** The argument checks do not look at a slot that is not an argument's. */
  lemma {:induction false} ArgChecksUnchangedSlot(p: Policy, params: seq<Ty>, args: seq<Expr>, types: seq<Ty>, id: nat, t: Ty)
    requires |params| == |args| && ArgsSlotted(args, |types|) && id < |types|
    requires forall a <- args :: a.id != id
    ensures ArgChecks(p, params, args, types[id := t]) == ArgChecks(p, params, args, types)
  {
    if args != [] {
      var n := |args| - 1;
      assert forall a <- args[..n] :: a in args;
      ArgChecksUnchangedSlot(p, params[..n], args[..n], types, id, t);
    }
  }

  /** The last function declaration of `ns`, or `before` if there is none. */
  function LastFunction(ns: seq<Node>, before: Option<FunctionSig>): Option<FunctionSig>
  {
    if ns == [] then before
    else if ns[|ns| - 1].FunctionNode? then Some(ns[|ns| - 1].f)
    else LastFunction(ns[..|ns| - 1], before)
  }

  /** The current function after a walk is the last function declaration
      the walk visited (or the one before the walk when it visited none):
      VisitFunctionDecl overwrites, it does not keep a stack. */
  lemma {:induction false} SweepCurFunc(p: Policy, ns: seq<Node>, s: State)
    requires Slotted(ns, |s.types|)
    ensures Sweep(p, ns, s).curFunc == LastFunction(ns, s.curFunc)
  {
    if ns != [] {
      var n := |ns| - 1;
      SweepCurFunc(p, ns[..n], s);
    }
  }

  /** The ids of the expression nodes a walk visits. */
  function StampedIds(ns: seq<Node>): set<nat>
  {
    set i | 0 <= i < |ns| && ns[i].ExprNode? :: ns[i].e.id
  }

  /** A walk retypes only the expressions it visits (statements and
      declarations are never retyped). */
  lemma {:induction false} SweepFrame(p: Policy, ns: seq<Node>, s: State)
    requires Slotted(ns, |s.types|)
    ensures forall j | 0 <= j < |s.types| && j !in StampedIds(ns) :: Sweep(p, ns, s).types[j] == s.types[j]
  {
    if ns != [] {
      var n := |ns| - 1;
      SweepFrame(p, ns[..n], s);
      assert StampedIds(ns[..n]) <= StampedIds(ns) by {
        forall j | j in StampedIds(ns[..n]) ensures j in StampedIds(ns) {
          var i :| 0 <= i < n && ns[..n][i].ExprNode? && ns[..n][i].e.id == j;
          assert ns[i] == ns[..n][i];
        }
      }
      if ns[n].ExprNode? {
        assert ns[n].e.id in StampedIds(ns);
      }
    }
  }

  /** A visit's outcome does not depend on the diagnostics already
      reported: it only appends to them. */
  lemma VisitPrefixIndependent(p: Policy, e: Expr, s: State, d: seq<Diag>)
    requires NodeIdsBelow(ExprNode(e), |s.types|)
    ensures var v := VisitOutcome(p, e, s);
      VisitOutcome(p, e, s.(diags := d + s.diags)) == (v.0, v.1.(diags := d + v.1.diags))
  {
    var t := s.(diags := d + s.diags);
    match e
    case Call(id, callee, _, args) =>
      assert forall a <- args :: a in Children(e);
      var endorsed :=
        if p.TaintPolicy? && Taint.IsEndorsement(callee, args)
        then s.types[id := Taint.Endorse(p.removeAnnotation, s.types[id])]
        else s.types;
      var checks := CallChecks(p, callee, args, endorsed);
      assert VisitOutcome(p, e, s).1.diags == s.diags + checks;
      assert VisitOutcome(p, e, t).1.diags == t.diags + checks;
      assert t.diags + checks == d + (s.diags + checks);
    case Binary(id, op, lhs, rhs) =>
      var checks := CheckFlow(p, id, s.types[lhs.id], s.types[rhs.id]);
      assert t.diags + checks == d + (s.diags + checks);
    case Unary(id, op, sub) =>
      var checks := Nullness.UnaryOperatorDiags(id, op, s.types[sub.id]);
      assert t.diags + checks == d + (s.diags + checks);
    case _ =>
  }

  lemma StepPrefixIndependent(p: Policy, n: Node, s: State, d: seq<Diag>)
    requires NodeIdsBelow(n, |s.types|)
    ensures Step(p, n, s.(diags := d + s.diags)) == Step(p, n, s).(diags := d + Step(p, n, s).diags)
  {
    match n
    case ExprNode(e) => VisitPrefixIndependent(p, e, s, d);
    case StmtNode(st) =>
      match st {
        case DeclStmt(decls) =>
          var checks := DeclChecks(p, decls, s.types);
          assert (d + s.diags) + checks == d + (s.diags + checks);
        case Return(id, value) =>
          if value.Some? && s.curFunc.Some? {
            var checks := CheckFlow(p, id, s.curFunc.value.returnType, s.types[value.value.id]);
            assert (d + s.diags) + checks == d + (s.diags + checks);
          }
        case _ =>
      }
    case FunctionNode(_) =>
  }

  /** The diagnostics a walk adds do not depend on those reported before
      it: walking after `d` was reported ends with `d` followed by what the
      same walk reports on its own. */
  lemma {:induction false} SweepDiags(p: Policy, ns: seq<Node>, s: State, d: seq<Diag>)
    requires Slotted(ns, |s.types|)
    ensures Sweep(p, ns, s.(diags := d + s.diags)) == Sweep(p, ns, s).(diags := d + Sweep(p, ns, s).diags)
  {
    if ns != [] {
      var n := |ns| - 1;
      SweepDiags(p, ns[..n], s, d);
      var mid := Sweep(p, ns[..n], s);
      assert NodeIdsBelow(ns[n], |mid.types|) by { assert ns[n] in ns; }
      StepPrefixIndependent(p, ns[n], mid, d);
    }
  }

  /** The base annotator as written never reports anything, whatever it
      walks. */
  lemma {:induction false} DefaultNeverReports(ns: seq<Node>, s: State)
    requires Slotted(ns, |s.types|)
    ensures Sweep(Default, ns, s).diags == s.diags
  {
    if ns != [] {
      var n := |ns| - 1;
      DefaultNeverReports(ns[..n], s);
      var mid := Sweep(Default, ns[..n], s);
      assert NodeIdsBelow(ns[n], |mid.types|) by { assert ns[n] in ns; }
      match ns[n]
      case ExprNode(e) =>
        if e.Call? {
          assert forall a <- e.args :: a in Children(e);
          if e.callee.Some? && |e.callee.value.params| == |e.args| {
            ArgChecksEmptyIff(Default, e.callee.value.params, e.args, mid.types);
          }
        }
      case StmtNode(st) =>
        if st.DeclStmt? {
          DeclChecksEmptyIff(Default, st.decls, mid.types);
        }
      case FunctionNode(_) =>
    }
  }

  /** TraverseStmt gives every expression the label its visit computed:
      after the step, looking the node up yields the visitor's result label
      (when it has one and the policy's implicit hook does not override it). */
  lemma StampedLabelVisible(p: Policy, e: Expr, s: State)
    requires NodeIdsBelow(ExprNode(e), |s.types|)
    requires VisitOutcome(p, e, s).0 != NoLabel
    requires ImplicitOf(p)(Some(Step(p, ExprNode(e), s).types[e.id])) == NoLabel
    ensures LabelOf(p, Step(p, ExprNode(e), s).types[e.id]) == VisitOutcome(p, e, s).0
  {
  }
}
