# quala qualifier annotator: a Dafny model

quala is a Clang plugin framework for "qualifier" type systems. A policy
attaches string labels such as `nullable` or `tainted` to C types. A
generic annotator walks every function body bottom-up and stamps each
expression's type with the label its policy computes. It reports a
diagnostic wherever a value flows into a destination that the policy
judges incompatible: assignments, compound assignments, initialisers,
call arguments and returns.

This project models that annotator and its two example policies, and
proves properties of them:

- `types.dfy` (module `Types`): host types as
  `Base | Ptr | Annotated(inner, label)`, with `""` meaning "no label".
  It also holds the host's pointer queries, which look through
  annotation sugar, and `UnwrapSimilarPointerTypes`.
- `syntax.dfy` (module `Syntax`): the expressions, statements and
  declarations the annotator visits. Each expression carries the id of
  its type slot. The module defines the postorder walk the traversal
  performs, as a list of visits, and proves that a walk lists children
  before parents.
- `annotations.dfy` (module `Annotations`):
  - label storage (`AddAnnotation`, `AddAnnotationOrImplicit`);
  - the `AnnotationOf` lookups: implicit label first, then the outermost
    annotation;
  - the default incompatibility diagnostic.
- `nullness.dfy` (module `Nullness`) and `taint.dfy` (module `Taint`): the
  decision rules of the two policies. `Taint.Compatible` keeps its
  pointer-peeling `while` loop and is proved against the recursive
  judgment `Taint.MayFlow`.
- `typing.dfy` (module `Typing`): the policy in use, as a closed datatype
  that stands in for the class template's static dispatch. It also holds
  the state of the annotator (type slots, diagnostics, current function)
  and two specification functions:
  - `Step`: one visit;
  - `Sweep`: a whole walk.

  The lemmas here cover call, declaration and return checks, the frame of
  a walk, and the silence of the base annotator.
- `policy_steps.dfy` (module `PolicySteps`): what one visit does to an
  expression node under each policy.
- `annotator.dfy` (module `Annotating`): the imperative annotator.
  - Class `Annotator` keeps the type slots in an `array`, appends
    diagnostics to a `seq` and overwrites `curFunc`. Each of its `Visit*`
    methods is proved against `Typing.VisitOutcome`/`Typing.Step`.
  - Class `TAVisitor` is the recursive traversal. Each `Traverse*` method
    is proved to leave the annotator in the state `Typing.Sweep` gives for
    its walk.
- `expectations.dfy` (module `Expectations`): the diagnostics that the
  repository's test programs expect, derived from the walk rules for the
  trees the host builds for those lines.

Two host calls are not defined in the repository's files:
`CheckPointerInvariance` (nullness) and `RemoveAnnotation` (taint). They
are parameters of the policy, so no proof depends on what they compute.

`VisitFunctionDecl` (TypeAnnotations.h:232-235) overwrites `CurFunc` on
every function declaration visited; nothing restores it
(`Typing.LastFunction`, `Typing.SweepCurFunc`).

## Model

| member | source | states |
|---|---|---|
| Types.Pointee | examples/nullness/Nullness.cpp:73 | a type has a pointee exactly when it has a pointer layer once annotations are looked through, and the pointee has one layer fewer |
| Types.UnwrapSimilarPointerTypes | examples/tainting/TaintTracking.cpp:50 | progress exactly when both sides are pointers, in which case the result is the pair of their pointees, one layer fewer on each side |
| Syntax.Postorder | TypeAnnotations.h:214-229 | a walk of an expression is never empty and ends with the expression itself |
| Syntax.PostorderStmt | TypeAnnotations.h:214-229 | a walk of a statement ends with the statement's own visit |
| Syntax.PostorderChildrenFirst | TypeAnnotations.h:214-229 | in an expression's walk, every child is visited before its parent |
| Syntax.PostorderStmtChildrenFirst | TypeAnnotations.h:214-229 | in a statement's walk, every sub-statement, initialiser and expression is visited before its parent |
| Syntax.PostorderDeclsChildrenFirst | TypeAnnotations.h:157-168 | a declaration statement's walk lists every initialiser and local function declaration |
| Syntax.PostorderVisitsTreeOnce | TypeAnnotations.h:214-229 | an expression's walk visits every node of its tree exactly as often as it occurs there and nothing else, so each sub-expression is visited and stamped once |
| Syntax.PostorderAllVisitsForestOnce | TypeAnnotations.h:214-216 | the walk of a list of expressions visits each node of their trees exactly once per occurrence |
| Syntax.PostorderStmtVisitsTreeOnce | TypeAnnotations.h:214-229 | a statement's walk visits the statement, each of its expressions and each local function declaration exactly once per occurrence, and nothing else |
| Syntax.PostorderStmtsVisitsTreeOnce | TypeAnnotations.h:214-216 | the walk of a statement list visits each node of the statements' trees exactly once per occurrence |
| Syntax.PostorderDeclsVisitsTreeOnce | TypeAnnotations.h:214-235 | a declaration statement's walk visits each local function declaration and each node of each initialiser exactly once |
| Syntax.UnitOrderVisitsTreeOnce | TypeAnnotations.h:214-235 | a translation unit's walk visits each function declaration, each node of each body and each global initialiser exactly once per occurrence |
| Annotations.AnnotationOfType | TypeAnnotations.h:68-76 | only the outermost type node is examined: its label when it is an annotation, none otherwise |
| Annotations.AnnotationOfQual | TypeAnnotations.h:78-92 | a non-empty implicit label wins; otherwise the outermost annotation, or none for a null or unannotated type |
| Annotations.AnnotationOfNode | TypeAnnotations.h:94-108 | a null expression or declaration has no label and its implicit hook is not asked; otherwise exactly the `QualType` lookup on its type, the implicit label first |
| Annotations.AddAnnotation | TypeAnnotations.h:45-50 | an empty label leaves the type unchanged; otherwise exactly one annotation layer is added over the untouched old type |
| Annotations.AddAnnotationOrImplicit | TypeAnnotations.h:52-58 | a non-empty label is attached; an empty one is replaced by the implicit label of the node's current type; the old type is kept inside |
| Annotations.AddThenLookup | TypeAnnotations.h:45-92 | round trip: a non-empty label just attached is what the lookup returns, unless an implicit label takes precedence |
| Annotations.ImplicitFirst | TypeAnnotations.h:78-84 | a non-empty implicit label shadows every attached one |
| Annotations.LookupSeesMostRecent | TypeAnnotations.h:45-76 | after any sequence of attachments, the lookup sees the most recent non-empty label |
| Annotations.LabelOrUnannotated | TypeAnnotations.h:138-139 | a label is spelled as itself, a missing one as "unannotated" |
| Annotations.DefaultIncompatibleDiag | TypeAnnotations.h:129-141 | the default diagnostic is an Error at the flow point whose text is the source's label, " incompatible with ", the destination's label |
| Nullness.Compatible | examples/nullness/Nullness.cpp:72-77 | for a pointer destination, a flow is refused exactly when the source is nullable and the destination is not; any other destination is CheckPointerInvariance's verdict |
| Nullness.IncompatibleDiag | examples/nullness/Nullness.cpp:79-89 | a warning at the flow point with the fixed text "non-null pointer may become null", whatever the labels |
| Nullness.IntegerLiteralLabel | examples/nullness/Nullness.cpp:46-50 | the literal 0 gets "nullable", any other literal no label |
| Nullness.UnaryOperatorDiags | examples/nullness/Nullness.cpp:24-43 | one "dereferencing nullable pointer" warning exactly for a dereference of a nullable operand; address-of and other operators report nothing |
| Nullness.SimpleAssignments | examples/nullness/test/simple.c:9-12 | `a = 0` and `a = b` are refused; `b = 0` and `b = a` are accepted |
| Taint.BinaryOperatorLabel | examples/tainting/TaintTracking.cpp:26-31 | the operator is labelled tainted exactly when either operand is tainted, and otherwise gets no label |
| Taint.UnaryOperatorPropagates | examples/tainting/TaintTracking.cpp:34-37 | the operator shows its operand's label; an unlabelled operand leaves it unchanged |
| Taint.Compatible | examples/tainting/TaintTracking.cpp:40-61 | the imperative judgment with its unwrap loop returns exactly `MayFlow`: no tainted-to-untainted flow at the top, same taint at every peeled layer |
| Taint.PointeesAgreeAtEveryDepth | examples/tainting/TaintTracking.cpp:46-55 | the lockstep loop accepts exactly when the pointees agree in taint at every depth both types reach |
| Taint.PointeesAgreeReflexive | examples/tainting/TaintTracking.cpp:46-55 | the unwrap loop accepts a type against itself |
| Taint.PointeesAgreeSymmetric | examples/tainting/TaintTracking.cpp:46-55 | the unwrap loop's verdict does not depend on the side |
| Taint.MayFlowReflexive | examples/tainting/TaintTracking.cpp:40-61 | every type may flow into itself (`b = b`, `c = c`) |
| Taint.NonPointerFlow | examples/tainting/TaintTracking.cpp:42-60 | unless both sides are pointers, a flow is refused exactly when a tainted source meets an untainted destination |
| Taint.PointerInvariance | examples/tainting/TaintTracking.cpp:46-55 | pointers whose pointees differ in taint cannot flow in either direction |
| Taint.MutualFlow | examples/tainting/TaintTracking.cpp:40-61 | a flow is accepted both ways exactly when the types agree in taint at the top and at every common pointee depth |
| Taint.SimpleFlows | examples/tainting/test/simple.c:10-35 | `y = x` refused, `x = y` accepted; `b = c` and `c = b` refused, `b = b` and `c = c` accepted |
| Taint.IsEndorsement | examples/tainting/TaintTracking.cpp:65-68 | a call is an endorsement exactly when it calls the annotation builtin and its second argument is the string literal "endorse" |
| Taint.Endorse | examples/tainting/TaintTracking.cpp:64-80 | an endorsed call's outermost label is "untainted", so it is not tainted, whatever lies below |
| Taint.EndorsedFlows | examples/tainting/test/endorsement.c:12 | an endorsed value may flow into any non-pointer destination |
| Typing.AssertCompatibleReports | TypeAnnotations.h:119-141 | exactly one diagnostic at the flow point when the policy refuses the flow, none otherwise; the fixed nullness warning or the default error |
| Typing.VisitOutcome | TypeAnnotations.h:143-207 | a visit retypes at most its own node, only appends diagnostics and never changes the current function |
| Typing.ArgChecksEmptyIff | TypeAnnotations.h:180-185 | the argument loop reports nothing exactly when every parameter accepts its argument |
| Typing.ArgChecksAtArguments | TypeAnnotations.h:180-185 | the argument loop reports at most once per argument, each time at an argument |
| Typing.DeclChecksEmptyIff | TypeAnnotations.h:157-168 | a declaration statement reports nothing exactly when every initialised variable accepts its initialiser |
| Typing.DeclChecksAtInitialisers | TypeAnnotations.h:157-168 | a declaration statement reports at most once per declaration, each time at an initialiser |
| Typing.UncheckedCalls | TypeAnnotations.h:186-197 | an indirect call or a count mismatch is not checked; outside taint it yields the return-type label, or none for an indirect call |
| Typing.CheckedCalls | TypeAnnotations.h:177-191 | a direct call with matching counts checks parameter i against argument i in order and yields the callee's return-type label |
| Typing.ArgChecksUnchangedSlot | examples/tainting/TaintTracking.cpp:64-79 | retyping the call node, as the endorsement does, does not change the argument checks that follow |
| Typing.Step | TypeAnnotations.h:214-235 | one visit retypes at most the visited expression (statements and function declarations retype nothing), only appends diagnostics, and changes the current function exactly when it visits a function declaration |
| Typing.Sweep | TypeAnnotations.h:214-235 | a walk keeps one type slot per node and only appends diagnostics |
| Typing.SweepCurFunc | TypeAnnotations.h:232-235 | after a walk, the current function is the last function declaration visited, because each visit overwrites it |
| Typing.SweepAppend | TypeAnnotations.h:214-229 | walking one list of nodes and then another is walking their concatenation |
| Typing.SweepFrame | TypeAnnotations.h:214-229 | a walk retypes only the expressions it visits |
| Typing.VisitPrefixIndependent | TypeAnnotations.h:143-207 | a visit rule's label and retyping do not depend on the diagnostics already reported, which it only extends |
| Typing.StepPrefixIndependent | TypeAnnotations.h:119-123 | a visit only appends to the diagnostics already reported, whatever they are |
| Typing.SweepDiags | TypeAnnotations.h:214-229 | walking after diagnostics `d` were reported ends with `d` followed by exactly what the same walk reports on its own |
| Typing.DefaultNeverReports | TypeAnnotations.h:113-123 | the base annotator, whose Compatible is always true, never reports anything on any walk |
| Typing.StampedLabelVisible | TypeAnnotations.h:218-225 | after a visit, looking the expression up yields the label its visit computed |
| PolicySteps.AssignmentStep | TypeAnnotations.h:146-154 | under any policy without implicit labels, an assignment checks the LHS against the RHS at the operator and ends with the LHS's label |
| PolicySteps.ImplicitCastStep | TypeAnnotations.h:171-173 | under any policy without implicit labels, an implicit cast reports nothing and ends with its operand's label |
| PolicySteps.NullLiteralStep | examples/nullness/Nullness.cpp:46-50 | under nullness, the literal 0 ends nullable and any other literal is left as it was |
| PolicySteps.GNUNullStep | examples/nullness/Nullness.cpp:53-55 | under nullness, GNU `__null` ends nullable |
| PolicySteps.DerefStep | examples/nullness/Nullness.cpp:24-43 | under nullness, a unary operator retypes nothing and adds one warning exactly for a dereference of a nullable operand |
| PolicySteps.TaintBinaryStep | examples/tainting/TaintTracking.cpp:26-31 | under taint, a non-assigning binary operator ends tainted when either operand is, and is unchanged otherwise |
| PolicySteps.TaintUnaryStep | examples/tainting/TaintTracking.cpp:34-37 | under taint, a unary operator ends with its operand's label |
| PolicySteps.EndorseStep | examples/tainting/TaintTracking.cpp:64-80 | an endorsed call ends labelled "untainted" and not tainted, and its arguments are not checked against the builtin's empty parameter list |
| PolicySteps.TaintCallStep | examples/tainting/TaintTracking.cpp:64-80 | under taint, any other call keeps the type it had |
| Annotating.Annotator.constructor | TypeAnnotations.h:36-41 | a new annotator has no diagnostics and no current function |
| Annotating.Annotator.AddAnnotation | TypeAnnotations.h:45-50 | only the node's own slot changes, to the type with the label attached |
| Annotating.Annotator.AddAnnotationOrImplicit | TypeAnnotations.h:52-58 | the node gets the given label, or its implicit label when the given one is empty |
| Annotating.Annotator.Compatible | TypeAnnotations.h:113-115 | the policy's judgment, including the taint policy's loop |
| Annotating.Annotator.EmitIncompatibleError | TypeAnnotations.h:129-141 | appends exactly the policy's incompatibility diagnostic |
| Annotating.Annotator.AssertCompatible | TypeAnnotations.h:119-123 | appends a diagnostic exactly when the policy refuses the flow |
| Annotating.Annotator.VisitAssign | TypeAnnotations.h:146-154 | checks LHS against RHS and yields the LHS label |
| Annotating.Annotator.VisitDeclStmt | TypeAnnotations.h:157-168 | the loop checks every initialised variable in order and yields no label |
| Annotating.Annotator.VisitImplicitCastExpr | TypeAnnotations.h:171-173 | yields the operand's label |
| Annotating.Annotator.VisitCallExpr | TypeAnnotations.h:175-198 | the lockstep parameter/argument loop performs exactly the call's checks and yields the return-type label |
| Annotating.Annotator.VisitReturnStmt | TypeAnnotations.h:200-207 | a return with a value is checked against the current function's return type |
| Annotating.Annotator.NullnessVisitUnaryOperator | examples/nullness/Nullness.cpp:24-43 | appends the dereference warning exactly for a nullable dereference |
| Annotating.Annotator.NullnessVisitIntegerLiteral | examples/nullness/Nullness.cpp:46-50 | labels the literal 0 nullable and leaves others |
| Annotating.Annotator.NullnessVisitGNUNullExpr | examples/nullness/Nullness.cpp:53-55 | labels `__null` nullable |
| Annotating.Annotator.TaintVisitBinaryOperator | examples/tainting/TaintTracking.cpp:26-31 | labels the operator tainted when an operand is tainted |
| Annotating.Annotator.TaintVisitUnaryOperator | examples/tainting/TaintTracking.cpp:34-37 | gives the operator its operand's label |
| Annotating.Annotator.TaintVisitCallExpr | examples/tainting/TaintTracking.cpp:64-80 | endorses the call when it is an endorsement, then runs the base call checks, yielding no label |
| Annotating.Annotator.Visit | TypeAnnotations.h:143-207 | dispatches an expression to the policy's visit rule with exactly the outcome `VisitOutcome` specifies |
| Annotating.Annotator.VisitStmt | TypeAnnotations.h:157-207 | a statement visit performs exactly one `Step` |
| Annotating.TAVisitor.VisitFunctionDecl | TypeAnnotations.h:232-235 | overwrites the current function |
| Annotating.TAVisitor.TraverseExpr | TypeAnnotations.h:214-229 | traverses the children, visits, stamps: the state is that of the postorder walk |
| Annotating.TAVisitor.TraverseChildren | TypeAnnotations.h:214-216 | the children's traversals together are the walk before the parent |
| Annotating.TAVisitor.TraverseExprs | TypeAnnotations.h:214-216 | traversing a list of expressions in order is the concatenated walk |
| Annotating.TAVisitor.TraverseStmt | TypeAnnotations.h:214-229 | a statement's traversal is its postorder walk followed by its own visit |
| Annotating.TAVisitor.TraverseStmts | TypeAnnotations.h:214-216 | traversing a statement list in order is the concatenated walk |
| Annotating.TAVisitor.TraverseDecls | TypeAnnotations.h:214-235 | traversing a declaration statement's declarations visits function declarations and walks initialisers |
| Annotating.TAVisitor.TraverseDecl | TypeAnnotations.h:214-235 | one declaration: its function visit or its initialiser's walk |
| Annotating.TAVisitor.TraverseUnit | TypeAnnotations.h:284-286 | traversing a translation unit is the walk of its declarations in order |
| Annotating.TAVisitor.TraverseTopDecl | TypeAnnotations.h:214-235 | a function is visited before its body is walked; a global's initialiser is walked |
| Expectations.AssignNullRun | TypeAnnotations.h:146-173 | under the nullness policy, walking `p = 0` for a pointer `p` warns at the assignment exactly when `p` is not nullable |
| Expectations.NullnessSimpleLiterals | examples/nullness/test/simple.c:9 | `a = 0` yields one "non-null pointer may become null" warning |
| Expectations.NullnessNullIntoNullable | examples/nullness/test/simple.c:10 | `b = 0` yields no diagnostic |
| Expectations.AssignVarRun | TypeAnnotations.h:146-173 | under any policy without implicit labels, walking `dst = src` checks the destination against the cast stamped with `src`'s label |
| Expectations.NullnessSimpleVariables | examples/nullness/test/simple.c:11-12 | `a = b` warns and `b = a` does not |
| Expectations.TaintedIntoPlain | TypeAnnotations.h:129-141 | a tainted int into a plain int gives the error "tainted incompatible with unannotated" |
| Expectations.TaintSimpleRefused | examples/tainting/test/simple.c:10 | `y = x` is one error at the assignment |
| Expectations.TaintSimpleAccepted | examples/tainting/test/simple.c:13 | `x = y` is accepted |
| Expectations.TaintSimpleBinary | examples/tainting/test/simple.c:16 | `y = x + 3` is one error at the assignment |
| Expectations.TaintEndorsement | examples/tainting/test/endorsement.c:12 | `y = ENDORSE(x)` is accepted |
| Expectations.TaintCallArgument | examples/tainting/test/funcs.c:31 | `i(x)` is one error at the argument |
| Expectations.TaintReturn | examples/tainting/test/funcs.c:15-17 | `return p;` in `int h(tainted int p)` is one error at the return |

## Left out

- `HackyMultiplexConsumer` and the consumer reordering of `TAConsumer::Initialize` (TypeAnnotations.h:20-26, 257-282) are frontend plumbing over Clang internals. The `Instrument` flag only drives them, so it is not modelled either.
- `TAConsumer::HandleTranslationUnit` hands the translation unit to the traversal. It is modelled only as `TAVisitor.TraverseUnit`. `RecursiveASTVisitor`'s own dispatch, `shouldUseDataRecursionFor` and the `DEBUG` logging are host machinery.
- Statement kinds without a rule (compound, `if`, `while`, ...) are `Block`s of their sub-statements. Expression kinds without a rule are `OtherExpr`. Subtrees are walked in source order.
- Clang's `DiagnosticsEngine`, source locations and ranges are not modelled. A diagnostic is (node id, severity, message), appended to a sequence.
- Clang's `Expr::getType`/`setType` become a type slot per expression id in the annotator's array. Slot ids are required to be in range (`Slotted`), as every node of the host tree has a type.
- `getAnnotatedType` builds `Annotated(t, a)`. Typedef desugaring is not modelled, as the lookup at TypeAnnotations.h:68-76 does not perform it. C++ references are not modelled.
- `CheckPointerInvariance` and `RemoveAnnotation` are not defined in the repository's files. They are uninterpreted parameters of the policy.
- `VisitCXXMemberCallExpr` of the nullness policy (examples/nullness/Nullness.cpp:58-69) depends on C++ record and conversion declarations, so the `nullptr_t` conversion is not modelled.
- examples/nullness/NullChecks.cpp (IR instrumentation), AnnotationInfo.cpp/.h (a stub pass) and plugin registration are not part of this model. Nor are the condition errors expected by examples/tainting/test/cond.c, which no shown code produces.
- Typing.Step: a `return` with a value outside any function is not checked. The source asserts that this cannot happen (TypeAnnotations.h:203).
- The policies' `void` visit overrides (examples/nullness/Nullness.cpp:24-55, examples/tainting/TaintTracking.cpp:26-80) are modelled as yielding the empty label. The taint policy's call visit therefore yields no label, even though it runs the base call checks.
- Taint.IsEndorsement: the source's `cast<StringLiteral>` of the builtin's second argument (examples/tainting/TaintTracking.cpp:67) would abort on a non-literal. The model treats a non-literal as no endorsement.
- The `__builtin_annotation` callee is modelled with no declared parameters, so its two arguments go unchecked (a count mismatch).
- Expectations: the host's types for each test line (the implicit casts' converted types, the call's type) are given as inputs, not computed by a model of Clang's type checker.
