/** The part of the host syntax tree the annotator visits. Every expression
    carries an `id`: the index of its type slot in the annotator's table
    (the host's Expr::getType/setType), which is where labels are stamped. */
module Syntax {
  import opened Types

  /** The parts of a function declaration the annotator reads. */
  datatype FunctionSig = FunctionSig(params: seq<Ty>, returnType: Ty, isBuiltinAnnotation: bool)

  datatype UnaryOp = Deref | AddrOf | OtherUnaryOp

  /** `Assign` is `=`, `CompoundAssign` any of `+=`, `*=`, ...; every other
      binary operator (arithmetic, comparison, logical, comma) is `OtherBinaryOp`. */
  datatype BinaryOp = Assign | CompoundAssign | OtherBinaryOp

  datatype Expr =
    | DeclRef(id: nat)
    | IntegerLiteral(id: nat, value: int)
    | StringLiteral(id: nat, text: string)
    | GNUNull(id: nat)
    | Unary(id: nat, uop: UnaryOp, sub: Expr)
    | Binary(id: nat, bop: BinaryOp, lhs: Expr, rhs: Expr)
    | ImplicitCast(id: nat, sub: Expr)
      /** `callee` is the directly called function, None for an indirect
          call; `fn` is the callee sub-expression itself. */
    | Call(id: nat, callee: Option<FunctionSig>, fn: Expr, args: seq<Expr>)
      /** Any other expression kind: the annotator has no rule for it. */
    | OtherExpr(id: nat, children: seq<Expr>)

  /** A declaration inside a declaration statement. A local function
      declaration is visited like any other function declaration. */
  datatype Decl =
    | Var(declType: Ty, init: Option<Expr>)
    | FunctionDeclaration(sig: FunctionSig)
    | OtherDecl

  /** Statements. An expression is itself a statement (`ExprStmt`); the
      statement kinds the annotator has no rule for (compound, if, while,
      ...) are all `Block`s of their sub-statements. `Return.id` is the
      node the return diagnostic points at. */
  datatype Stmt =
    | ExprStmt(e: Expr)
    | DeclStmt(decls: seq<Decl>)
    | Return(id: nat, value: Option<Expr>)
    | Block(body: seq<Stmt>)

  /** A declaration at translation-unit level. */
  datatype TopDecl =
    | Function(sig: FunctionSig, body: Option<Stmt>)
    | GlobalVar(declType: Ty, init: Option<Expr>)

  /** One visit the traversal makes: an expression, a statement that is not
      an expression, or a function declaration. */
  datatype Node = ExprNode(e: Expr) | StmtNode(s: Stmt) | FunctionNode(f: FunctionSig)

  /** The direct sub-expressions of `e`, in source order. */
  function Children(e: Expr): seq<Expr>
  {
    match e
    case Unary(_, _, sub) => [sub]
    case Binary(_, _, lhs, rhs) => [lhs, rhs]
    case ImplicitCast(_, sub) => [sub]
    case Call(_, _, fn, args) => [fn] + args
    case OtherExpr(_, children) => children
    case _ => []
  }

  function ExprNodes(es: seq<Expr>): (ns: seq<Node>)
    ensures |ns| == |es|
  {
    seq(|es|, i requires 0 <= i < |es| => ExprNode(es[i]))
  }

  /** The node an expression statement or any other statement is visited as. */
  function StmtRoot(s: Stmt): Node
  {
    if s.ExprStmt? then ExprNode(s.e) else StmtNode(s)
  }

  function StmtRoots(ss: seq<Stmt>): (ns: seq<Node>)
    ensures |ns| == |ss|
  {
    seq(|ss|, i requires 0 <= i < |ss| => StmtRoot(ss[i]))
  }

  function DeclRoots(decls: seq<Decl>): seq<Node>
  {
    if decls == [] then []
    else
      var d := decls[|decls| - 1];
      DeclRoots(decls[..|decls| - 1])
      + match d
        case Var(_, init) => if init.Some? then [ExprNode(init.value)] else []
        case FunctionDeclaration(f) => [FunctionNode(f)]
        case OtherDecl => []
  }

  /** The nodes the traversal must have finished before it visits `n`. */
  function SubNodes(n: Node): seq<Node>
  {
    match n
    case ExprNode(e) => ExprNodes(Children(e))
    case StmtNode(s) =>
      (match s
       case ExprStmt(e) => [ExprNode(e)]
       case DeclStmt(decls) => DeclRoots(decls)
       case Return(_, value) => if value.Some? then [ExprNode(value.value)] else []
       case Block(body) => StmtRoots(body))
    case FunctionNode(_) => []
  }

  /** The visits of a postorder walk of `e`: each child's walk in source
      order, then `e` itself. */
  function Postorder(e: Expr): (ns: seq<Node>)
    ensures |ns| > 0 && ns[|ns| - 1] == ExprNode(e)
  {
    match e
    case Unary(_, _, sub) => Postorder(sub) + [ExprNode(e)]
    case Binary(_, _, lhs, rhs) => Postorder(lhs) + Postorder(rhs) + [ExprNode(e)]
    case ImplicitCast(_, sub) => Postorder(sub) + [ExprNode(e)]
    case Call(_, _, fn, args) => Postorder(fn) + PostorderAll(args) + [ExprNode(e)]
    case OtherExpr(_, children) => PostorderAll(children) + [ExprNode(e)]
    case _ => [ExprNode(e)]
  }

  /** The visits of a postorder walk of `e` before `e` itself. */
  function ChildWalk(e: Expr): seq<Node>
  {
    match e
    case Unary(_, _, sub) => Postorder(sub)
    case Binary(_, _, lhs, rhs) => Postorder(lhs) + Postorder(rhs)
    case ImplicitCast(_, sub) => Postorder(sub)
    case Call(_, _, fn, args) => Postorder(fn) + PostorderAll(args)
    case OtherExpr(_, children) => PostorderAll(children)
    case _ => []
  }

  lemma PostorderSplit(e: Expr)
    ensures Postorder(e) == ChildWalk(e) + [ExprNode(e)]
  {
  }

  function PostorderAll(es: seq<Expr>): seq<Node>
  {
    if es == [] then [] else PostorderAll(es[..|es| - 1]) + Postorder(es[|es| - 1])
  }

  /** The visits of a walk of a declaration statement's declarations: the
      function-declaration visit, or the walk of a variable's initialiser. */
  function PostorderDecls(decls: seq<Decl>): seq<Node>
  {
    if decls == [] then []
    else PostorderDecls(decls[..|decls| - 1]) + DeclWalk(decls[|decls| - 1])
  }

  /** The visits of one declaration of a declaration statement. */
  function DeclWalk(d: Decl): seq<Node>
  {
    match d
    case Var(_, init) => if init.Some? then Postorder(init.value) else []
    case FunctionDeclaration(f) => [FunctionNode(f)]
    case OtherDecl => []
  }

  /** The visits of a postorder walk of a statement. */
  function PostorderStmt(s: Stmt): (ns: seq<Node>)
    ensures |ns| > 0 && ns[|ns| - 1] == StmtRoot(s)
  {
    match s
    case ExprStmt(e) => Postorder(e)
    case DeclStmt(decls) => PostorderDecls(decls) + [StmtNode(s)]
    case Return(_, value) => (if value.Some? then Postorder(value.value) else []) + [StmtNode(s)]
    case Block(body) => PostorderStmts(body) + [StmtNode(s)]
  }

  function PostorderStmts(ss: seq<Stmt>): seq<Node>
  {
    if ss == [] then [] else PostorderStmts(ss[..|ss| - 1]) + PostorderStmt(ss[|ss| - 1])
  }

  /** The visits of a walk of a translation unit: a function declaration is
      visited before its body is walked (declarations are visited preorder);
      a global variable's initialiser is walked. */
  function UnitOrder(tu: seq<TopDecl>): seq<Node>
  {
    if tu == [] then [] else UnitOrder(tu[..|tu| - 1]) + TopWalk(tu[|tu| - 1])
  }

  /** The visits of one translation-unit-level declaration. */
  function TopWalk(d: TopDecl): seq<Node>
  {
    match d
    case Function(sig, body) => [FunctionNode(sig)] + (if body.Some? then PostorderStmt(body.value) else [])
    case GlobalVar(_, init) => if init.Some? then Postorder(init.value) else []
  }

  /** The type slots a visit of `n` reads or writes are all below `k`. */
  predicate NodeIdsBelow(n: Node, k: nat)
  {
    match n
    case ExprNode(e) => e.id < k && forall c <- Children(e) :: c.id < k
    case StmtNode(s) =>
      (match s
       case DeclStmt(decls) => forall d <- decls :: d.Var? && d.init.Some? ==> d.init.value.id < k
       case Return(_, value) => value.Some? ==> value.value.id < k
       case _ => true)
    case FunctionNode(_) => true
  }

  /** Every visit in `ns` has its type slots among the first `k`. */
  predicate Slotted(ns: seq<Node>, k: nat)
  {
    forall n <- ns :: NodeIdsBelow(n, k)
  }

  /** A walk lists every node after the nodes it depends on. */
  predicate ChildrenFirst(ns: seq<Node>)
  {
    forall i | 0 <= i < |ns| :: DoneBefore(ns[i], ns[..i])
  }

  /** Every node that `n` depends on is among `done`. */
  predicate DoneBefore(n: Node, done: seq<Node>)
  {
    forall c <- SubNodes(n) :: c in done
  }

  lemma ChildrenFirstConcat(a: seq<Node>, b: seq<Node>)
    requires ChildrenFirst(a) && ChildrenFirst(b)
    ensures ChildrenFirst(a + b)
  {
    var ab := a + b;
    forall i | 0 <= i < |ab| ensures DoneBefore(ab[i], ab[..i]) {
      if i < |a| {
        assert ab[i] == a[i] && ab[..i] == a[..i];
        assert DoneBefore(a[i], a[..i]);
      } else {
        var k := i - |a|;
        assert ab[i] == b[k] && ab[..i] == a + b[..k];
        assert DoneBefore(b[k], b[..k]);
      }
    }
  }

  lemma ChildrenFirstSnoc(xs: seq<Node>, n: Node)
    requires ChildrenFirst(xs) && DoneBefore(n, xs)
    ensures ChildrenFirst(xs + [n])
  {
    var ys := xs + [n];
    forall i | 0 <= i < |ys| ensures DoneBefore(ys[i], ys[..i]) {
      if i < |xs| {
        assert ys[i] == xs[i] && ys[..i] == xs[..i];
        assert DoneBefore(xs[i], xs[..i]);
      } else {
        assert ys[..i] == xs;
      }
    }
  }

  /** A postorder walk of an expression lists every child before its parent
      and ends with the expression itself. */
  lemma {:induction false} PostorderChildrenFirst(e: Expr)
    ensures ChildrenFirst(Postorder(e))
    decreases e, 1
  {
    var root := ExprNode(e);
    match e
    case Unary(_, _, sub) =>
      PostorderChildrenFirst(sub);
      ChildrenFirstSnoc(Postorder(sub), root);
    case Binary(_, _, lhs, rhs) =>
      PostorderChildrenFirst(lhs);
      PostorderChildrenFirst(rhs);
      ChildrenFirstConcat(Postorder(lhs), Postorder(rhs));
      ChildrenFirstSnoc(Postorder(lhs) + Postorder(rhs), root);
    case ImplicitCast(_, sub) =>
      PostorderChildrenFirst(sub);
      ChildrenFirstSnoc(Postorder(sub), root);
    case Call(_, _, fn, args) =>
      PostorderChildrenFirst(fn);
      PostorderAllChildrenFirst(args);
      ChildrenFirstConcat(Postorder(fn), PostorderAll(args));
      var xs := Postorder(fn) + PostorderAll(args);
      forall j | 0 <= j < |SubNodes(root)| ensures SubNodes(root)[j] in xs {
        if j > 0 {
          assert SubNodes(root)[j] == ExprNode(args[j - 1]);
        }
      }
      ChildrenFirstSnoc(xs, root);
    case OtherExpr(_, children) =>
      PostorderAllChildrenFirst(children);
      ChildrenFirstSnoc(PostorderAll(children), root);
    case DeclRef(_) =>
    case IntegerLiteral(_, _) =>
    case StringLiteral(_, _) =>
    case GNUNull(_) =>
  }

  lemma {:induction false} PostorderAllChildrenFirst(es: seq<Expr>)
    ensures ChildrenFirst(PostorderAll(es))
    ensures forall i | 0 <= i < |es| :: ExprNode(es[i]) in PostorderAll(es)
    decreases es, 0
  {
    if es != [] {
      var init, last := es[..|es| - 1], es[|es| - 1];
      PostorderAllChildrenFirst(init);
      PostorderChildrenFirst(last);
      ChildrenFirstConcat(PostorderAll(init), Postorder(last));
      forall i | 0 <= i < |es| ensures ExprNode(es[i]) in PostorderAll(es) {
        if i < |es| - 1 {
          assert es[i] == init[i];
        }
      }
    }
  }

  /** A walk of a statement lists every sub-statement, initialiser and
      local function declaration before the statement that contains it. */
  lemma {:induction false} PostorderStmtChildrenFirst(s: Stmt)
    ensures ChildrenFirst(PostorderStmt(s))
    decreases s, 1
  {
    var root := StmtNode(s);
    match s
    case ExprStmt(e) =>
      PostorderChildrenFirst(e);
    case DeclStmt(decls) =>
      PostorderDeclsChildrenFirst(decls);
      ChildrenFirstSnoc(PostorderDecls(decls), root);
    case Return(_, value) =>
      if value.Some? {
        PostorderChildrenFirst(value.value);
        ChildrenFirstSnoc(Postorder(value.value), root);
      } else {
        ChildrenFirstSnoc([], root);
      }
    case Block(body) =>
      PostorderStmtsChildrenFirst(body);
      ChildrenFirstSnoc(PostorderStmts(body), root);
  }

  lemma {:induction false} PostorderStmtsChildrenFirst(ss: seq<Stmt>)
    ensures ChildrenFirst(PostorderStmts(ss))
    ensures forall i | 0 <= i < |ss| :: StmtRoot(ss[i]) in PostorderStmts(ss)
    decreases ss, 0
  {
    if ss != [] {
      var init, last := ss[..|ss| - 1], ss[|ss| - 1];
      PostorderStmtsChildrenFirst(init);
      PostorderStmtChildrenFirst(last);
      ChildrenFirstConcat(PostorderStmts(init), PostorderStmt(last));
      forall i | 0 <= i < |ss| ensures StmtRoot(ss[i]) in PostorderStmts(ss) {
        if i < |ss| - 1 {
          assert ss[i] == init[i];
        }
      }
    }
  }

  lemma {:induction false} PostorderDeclsChildrenFirst(decls: seq<Decl>)
    ensures ChildrenFirst(PostorderDecls(decls))
    ensures forall n <- DeclRoots(decls) :: n in PostorderDecls(decls)
    decreases decls, 0
  {
    if decls != [] {
      var init, d := decls[..|decls| - 1], decls[|decls| - 1];
      PostorderDeclsChildrenFirst(init);
      match d
      case Var(_, value) =>
        if value.Some? {
          PostorderChildrenFirst(value.value);
          ChildrenFirstConcat(PostorderDecls(init), Postorder(value.value));
        } else {
          assert PostorderDecls(decls) == PostorderDecls(init);
        }
      case FunctionDeclaration(f) =>
        ChildrenFirstSnoc(PostorderDecls(init), FunctionNode(f));
      case OtherDecl =>
        assert PostorderDecls(decls) == PostorderDecls(init);
    }
  }

  /** A walk of the first `i` expressions is a prefix of the walk of all of
      them. */
  lemma {:induction false} PostorderAllPrefixes(es: seq<Expr>)
    ensures forall i | 0 <= i <= |es| :: PostorderAll(es[..i]) <= PostorderAll(es)
  {
    if es != [] {
      var n := |es| - 1;
      PostorderAllPrefixes(es[..n]);
      forall i | 0 <= i <= |es| ensures PostorderAll(es[..i]) <= PostorderAll(es) {
        if i <= n {
          assert es[..n][..i] == es[..i];
        } else {
          assert es[..i] == es;
        }
      }
    }
  }

  lemma SlottedPrefix(a: seq<Node>, b: seq<Node>, k: nat)
    requires a <= b && Slotted(b, k)
    ensures Slotted(a, k)
  {
    assert forall n <- a :: n in b by {
      forall n <- a ensures n in b {
        var i :| 0 <= i < |a| && a[i] == n;
        assert b[i] == n;
      }
    }
  }

  lemma {:induction false} PostorderStmtsPrefixes(ss: seq<Stmt>)
    ensures forall i | 0 <= i <= |ss| :: PostorderStmts(ss[..i]) <= PostorderStmts(ss)
  {
    if ss != [] {
      var n := |ss| - 1;
      PostorderStmtsPrefixes(ss[..n]);
      forall i | 0 <= i <= |ss| ensures PostorderStmts(ss[..i]) <= PostorderStmts(ss) {
        if i <= n {
          assert ss[..n][..i] == ss[..i];
        } else {
          assert ss[..i] == ss;
        }
      }
    }
  }

  lemma {:induction false} PostorderDeclsPrefixes(decls: seq<Decl>)
    ensures forall i | 0 <= i <= |decls| :: PostorderDecls(decls[..i]) <= PostorderDecls(decls)
  {
    if decls != [] {
      var n := |decls| - 1;
      PostorderDeclsPrefixes(decls[..n]);
      forall i | 0 <= i <= |decls| ensures PostorderDecls(decls[..i]) <= PostorderDecls(decls) {
        if i <= n {
          assert decls[..n][..i] == decls[..i];
        } else {
          assert decls[..i] == decls;
        }
      }
    }
  }

  lemma {:induction false} UnitOrderPrefixes(tu: seq<TopDecl>)
    ensures forall i | 0 <= i <= |tu| :: UnitOrder(tu[..i]) <= UnitOrder(tu)
  {
    if tu != [] {
      var n := |tu| - 1;
      UnitOrderPrefixes(tu[..n]);
      forall i | 0 <= i <= |tu| ensures UnitOrder(tu[..i]) <= UnitOrder(tu) {
        if i <= n {
          assert tu[..n][..i] == tu[..i];
        } else {
          assert tu[..i] == tu;
        }
      }
    }
  }

  /** The nodes of the tree of `e`, in no order: `e` itself and every
      expression below it, each counted once per occurrence. */
  function Tree(e: Expr): multiset<Node>
  {
    match e
    case Unary(_, _, sub) => Tree(sub) + multiset{ExprNode(e)}
    case Binary(_, _, lhs, rhs) => Tree(lhs) + Tree(rhs) + multiset{ExprNode(e)}
    case ImplicitCast(_, sub) => Tree(sub) + multiset{ExprNode(e)}
    case Call(_, _, fn, args) => Tree(fn) + Forest(args) + multiset{ExprNode(e)}
    case OtherExpr(_, children) => Forest(children) + multiset{ExprNode(e)}
    case _ => multiset{ExprNode(e)}
  }

  function Forest(es: seq<Expr>): multiset<Node>
  {
    if es == [] then multiset{} else Forest(es[..|es| - 1]) + Tree(es[|es| - 1])
  }

  /** The nodes of a statement's tree: the statement (an expression
      statement is its expression), its expressions, and the local function
      declarations it contains. */
  function StmtTree(s: Stmt): multiset<Node>
  {
    match s
    case ExprStmt(e) => Tree(e)
    case DeclStmt(decls) => DeclForest(decls) + multiset{StmtNode(s)}
    case Return(_, value) => (if value.Some? then Tree(value.value) else multiset{}) + multiset{StmtNode(s)}
    case Block(body) => StmtForest(body) + multiset{StmtNode(s)}
  }

  function StmtForest(ss: seq<Stmt>): multiset<Node>
  {
    if ss == [] then multiset{} else StmtForest(ss[..|ss| - 1]) + StmtTree(ss[|ss| - 1])
  }

  /** The nodes of a declaration: a local function declaration, or the tree
      of a variable's initialiser. */
  function DeclTree(d: Decl): multiset<Node>
  {
    match d
    case Var(_, init) => if init.Some? then Tree(init.value) else multiset{}
    case FunctionDeclaration(f) => multiset{FunctionNode(f)}
    case OtherDecl => multiset{}
  }

  function DeclForest(decls: seq<Decl>): multiset<Node>
  {
    if decls == [] then multiset{} else DeclForest(decls[..|decls| - 1]) + DeclTree(decls[|decls| - 1])
  }

  /** The nodes of a translation unit: each function declaration with its
      body's tree, and each global initialiser's tree. */
  function UnitTree(tu: seq<TopDecl>): multiset<Node>
  {
    if tu == [] then multiset{}
    else
      var d := tu[|tu| - 1];
      UnitTree(tu[..|tu| - 1])
      + match d
        case Function(sig, body) => multiset{FunctionNode(sig)} + (if body.Some? then StmtTree(body.value) else multiset{})
        case GlobalVar(_, init) => if init.Some? then Tree(init.value) else multiset{}
  }

  /** The walk of an expression visits every node of its tree exactly as
      often as it occurs there, and nothing else: each sub-expression is
      visited, and so stamped, once. */
  lemma {:induction false} PostorderVisitsTreeOnce(e: Expr)
    ensures multiset(Postorder(e)) == Tree(e)
    decreases e, 1
  {
    match e
    case Unary(_, _, sub) =>
      PostorderVisitsTreeOnce(sub);
    case Binary(_, _, lhs, rhs) =>
      PostorderVisitsTreeOnce(lhs);
      PostorderVisitsTreeOnce(rhs);
    case ImplicitCast(_, sub) =>
      PostorderVisitsTreeOnce(sub);
    case Call(_, _, fn, args) =>
      PostorderVisitsTreeOnce(fn);
      PostorderAllVisitsForestOnce(args);
    case OtherExpr(_, children) =>
      PostorderAllVisitsForestOnce(children);
    case DeclRef(_) =>
    case IntegerLiteral(_, _) =>
    case StringLiteral(_, _) =>
    case GNUNull(_) =>
  }

  lemma {:induction false} PostorderAllVisitsForestOnce(es: seq<Expr>)
    ensures multiset(PostorderAll(es)) == Forest(es)
    decreases es, 0
  {
    if es != [] {
      PostorderAllVisitsForestOnce(es[..|es| - 1]);
      PostorderVisitsTreeOnce(es[|es| - 1]);
    }
  }

  /** The walk of a statement visits every node of its tree exactly once
      per occurrence, and nothing else. */
  lemma {:induction false} PostorderStmtVisitsTreeOnce(s: Stmt)
    ensures multiset(PostorderStmt(s)) == StmtTree(s)
    decreases s, 1
  {
    match s
    case ExprStmt(e) =>
      PostorderVisitsTreeOnce(e);
    case DeclStmt(decls) =>
      PostorderDeclsVisitsTreeOnce(decls);
    case Return(_, value) =>
      if value.Some? {
        PostorderVisitsTreeOnce(value.value);
      }
    case Block(body) =>
      PostorderStmtsVisitsTreeOnce(body);
  }

  lemma {:induction false} PostorderStmtsVisitsTreeOnce(ss: seq<Stmt>)
    ensures multiset(PostorderStmts(ss)) == StmtForest(ss)
    decreases ss, 0
  {
    if ss != [] {
      PostorderStmtsVisitsTreeOnce(ss[..|ss| - 1]);
      PostorderStmtVisitsTreeOnce(ss[|ss| - 1]);
    }
  }

  /** The walk of a declaration statement's declarations visits each local
      function declaration and each initialiser's tree exactly once. */
  lemma {:induction false} PostorderDeclsVisitsTreeOnce(decls: seq<Decl>)
    ensures multiset(PostorderDecls(decls)) == DeclForest(decls)
  {
    if decls != [] {
      var d := decls[|decls| - 1];
      PostorderDeclsVisitsTreeOnce(decls[..|decls| - 1]);
      match d {
        case Var(_, init) =>
          if init.Some? {
            PostorderVisitsTreeOnce(init.value);
          }
        case FunctionDeclaration(_) =>
        case OtherDecl =>
      }
    }
  }

  /** The walk of a translation unit visits every node of every top-level
      declaration's tree exactly once per occurrence, and nothing else. */
  lemma {:induction false} UnitOrderVisitsTreeOnce(tu: seq<TopDecl>)
    ensures multiset(UnitOrder(tu)) == UnitTree(tu)
  {
    if tu != [] {
      var d := tu[|tu| - 1];
      UnitOrderVisitsTreeOnce(tu[..|tu| - 1]);
      match d {
        case Function(_, body) =>
          if body.Some? {
            PostorderStmtVisitsTreeOnce(body.value);
          }
        case GlobalVar(_, init) =>
          if init.Some? {
            PostorderVisitsTreeOnce(init.value);
          }
      }
    }
  }
}
