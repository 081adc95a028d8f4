/** The annotation store of the generic annotator: how a label is attached
    to an expression's type and looked up again, and the default wording of
    an incompatibility diagnostic (TypeAnnotations.h). */
module Annotations {
  import opened Types

  /** A policy's ImplicitAnnotation hook: a label that a type carries
      wherever it appears, or NoLabel. `None` stands for a null type. */
  type Implicit = Option<Ty> -> Label

  /** The base annotator's hook: no type carries an implicit label. */
  const NoImplicit: Implicit := qt => NoLabel

  /** AnnotationOf(const Type *): the outermost type node's label when that
      node is an annotation. Typedef sugar is not stepped through. */
  function AnnotationOfType(t: Ty): (a: Label)
    ensures t.Annotated? ==> a == t.annotation
    ensures !t.Annotated? ==> a == NoLabel
  {
    if t.Annotated? then t.annotation else NoLabel
  }

  /** AnnotationOf(QualType): the implicit label comes first; then a null
      type has no label; otherwise the outermost annotation of the type. */
  function AnnotationOfQual(implicit: Implicit, qt: Option<Ty>): (a: Label)
    ensures implicit(qt) != NoLabel ==> a == implicit(qt)
    ensures implicit(qt) == NoLabel && qt.Some? && qt.value.Annotated? ==> a == qt.value.annotation
    ensures implicit(qt) == NoLabel && !(qt.Some? && qt.value.Annotated?) ==> a == NoLabel
  {
    var implicitAnn := implicit(qt);
    if |implicitAnn| > 0 then implicitAnn
    else
      match qt
      case None => NoLabel
      case Some(t) => AnnotationOfType(t)
  }

  /** AnnotationOf(const Expr *) and AnnotationOf(const ValueDecl *): a null
      node has no label and the implicit hook is not asked; otherwise the
      lookup on the node's type. `node` is the node's type, None for null. */
  function AnnotationOfNode(implicit: Implicit, node: Option<Ty>): (a: Label)
    ensures node.None? ==> a == NoLabel
    ensures node.Some? && implicit(node) != NoLabel ==> a == implicit(node)
    ensures node.Some? ==> a == AnnotationOfQual(implicit, node)
  {
    match node
    case None => NoLabel
    case Some(t) => AnnotationOfQual(implicit, Some(t))
  }

  /** The label of an expression or declaration whose type is `t`. */
  function AnnotationOf(implicit: Implicit, t: Ty): Label
  {
    AnnotationOfNode(implicit, Some(t))
  }

  /** AddAnnotation: the expression's type after label `a` is attached. An
      empty label changes nothing; any other label wraps the old type in one
      more annotation layer and leaves the old type inside untouched. */
  function AddAnnotation(t: Ty, a: Label): (r: Ty)
    ensures a == NoLabel ==> r == t
    ensures a != NoLabel ==> r.Annotated? && r.inner == t && AnnotationOfType(r) == a
  {
    if |a| > 0 then Annotated(t, a) else t
  }

  /** AddAnnotationOrImplicit: attach `a`, or, when `a` is empty, the
      implicit label of the expression's current type. */
  function AddAnnotationOrImplicit(implicit: Implicit, t: Ty, a: Label): (r: Ty)
    ensures a != NoLabel ==> r == AddAnnotation(t, a)
    ensures a == NoLabel ==> r == AddAnnotation(t, implicit(Some(t)))
    ensures r == t || (r.Annotated? && r.inner == t && r.annotation != NoLabel)
  {
    if |a| > 0 then AddAnnotation(t, a) else AddAnnotation(t, implicit(Some(t)))
  }

  /** Round trip: a non-empty label just attached is what the lookup
      returns, whatever was attached before, unless the policy's implicit
      label for the new type takes precedence. */
  lemma AddThenLookup(implicit: Implicit, t: Ty, a: Label)
    requires a != NoLabel
    requires implicit(Some(AddAnnotation(t, a))) == NoLabel
    ensures AnnotationOf(implicit, AddAnnotation(t, a)) == a
  {
  }

  /** An implicit label always shadows attached ones. */
  lemma ImplicitFirst(implicit: Implicit, t: Ty)
    requires implicit(Some(t)) != NoLabel
    ensures AnnotationOf(implicit, t) == implicit(Some(t))
  {
  }

  /** The type after the labels `labels` have been attached in turn. */
  function AddAnnotations(t: Ty, labels: seq<Label>): Ty
  {
    if labels == [] then t
    else AddAnnotation(AddAnnotations(t, labels[..|labels| - 1]), labels[|labels| - 1])
  }

  /** The last non-empty label of `labels`, or `before` if there is none. */
  function MostRecent(labels: seq<Label>, before: Label): (a: Label)
    ensures a == before || a in labels
  {
    if labels == [] then before
    else if labels[|labels| - 1] != NoLabel then labels[|labels| - 1]
    else MostRecent(labels[..|labels| - 1], before)
  }

  /** Under the base annotator's lookup, a node's label is always the most
      recently attached non-empty label (or what its type carried before
      any was attached): exactly one label is visible, the newest. */
  lemma {:induction false} LookupSeesMostRecent(t: Ty, labels: seq<Label>)
    ensures AnnotationOf(NoImplicit, AddAnnotations(t, labels))
         == MostRecent(labels, AnnotationOf(NoImplicit, t))
  {
    if labels != [] {
      LookupSeesMostRecent(t, labels[..|labels| - 1]);
    }
  }

  datatype Severity = Warning | Error

  /** A reported diagnostic: the node it points at, its severity and text. */
  datatype Diag = Diag(at: nat, severity: Severity, message: string)

  /** How the default diagnostic spells a label: the label itself, or
      "unannotated" for a missing one. */
  function LabelOrUnannotated(a: Label): (s: string)
    ensures a != NoLabel ==> s == a
    ensures a == NoLabel ==> s == "unannotated"
  {
    if |a| > 0 then a else "unannotated"
  }

  /** The base annotator's EmitIncompatibleError for a flow of a value of
      type `r` into a destination of type `l`: an error at the flow point
      whose text names the source's label first and the destination's
      label last. */
  function DefaultIncompatibleDiag(implicit: Implicit, at: nat, l: Ty, r: Ty): (d: Diag)
    ensures d.at == at && d.severity == Error
    ensures d.message == LabelOrUnannotated(AnnotationOf(implicit, r)) + " incompatible with "
                         + LabelOrUnannotated(AnnotationOf(implicit, l))
  {
    Diag(at, Error,
         LabelOrUnannotated(AnnotationOf(implicit, r)) + " incompatible with "
         + LabelOrUnannotated(AnnotationOf(implicit, l)))
  }
}
