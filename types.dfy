/** Host-language types as the qualifier annotator sees them, and the few
    type operations it borrows from the host compiler. */
module Types {

  /** A qualifier label. The empty string stands for "no label", as an empty
      StringRef does in the annotator. */
  type Label = string

  const NoLabel: Label := ""

  datatype Option<T> = None | Some(value: T)

  /** A type. `Base` is any non-pointer type (int, float, a record, ...),
      `Ptr` a pointer to its pointee, and `Annotated` the sugar node that
      attaches one label on top of an inner type without changing it. */
  datatype Ty =
    | Base(name: string)
    | Ptr(pointee: Ty)
    | Annotated(inner: Ty, annotation: Label)

  /** Number of pointer layers of `t`, looking through annotation sugar. */
  function PointerDepth(t: Ty): nat
  {
    match t
    case Base(_) => 0
    case Ptr(p) => 1 + PointerDepth(p)
    case Annotated(inner, _) => PointerDepth(inner)
  }

  /** The pointee of `t` when `t` is a pointer once annotation sugar is
      looked through (what the host's pointer-type query returns). */
  function Pointee(t: Ty): (r: Option<Ty>)
    ensures r.Some? <==> PointerDepth(t) > 0
    ensures r.Some? ==> PointerDepth(r.value) == PointerDepth(t) - 1
  {
    match t
    case Base(_) => None
    case Ptr(p) => Some(p)
    case Annotated(inner, _) => Pointee(inner)
  }

  /** The host's "is a pointer type" test; it sees through annotations. */
  predicate IsPointer(t: Ty)
  {
    Pointee(t).Some?
  }

  /** The host's UnwrapSimilarPointerTypes: when both types are pointers,
      peel one pointer layer from each side; otherwise report no progress. */
  function UnwrapSimilarPointerTypes(l: Ty, r: Ty): (u: Option<(Ty, Ty)>)
    ensures u.Some? <==> IsPointer(l) && IsPointer(r)
    ensures u.Some? ==> PointerDepth(u.value.0) == PointerDepth(l) - 1
    ensures u.Some? ==> PointerDepth(u.value.1) == PointerDepth(r) - 1
    ensures u.Some? ==> u.value == (Pointee(l).value, Pointee(r).value)
  {
    if IsPointer(l) && IsPointer(r) then Some((Pointee(l).value, Pointee(r).value)) else None
  }
}
