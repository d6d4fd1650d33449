/**
  The shape of one toast notice (`ToastProps` in toast.types.ts).
  Every field is optional, as in the source; the store itself interprets only `id`.
 */
module ToastTypes {
  import opened Wrappers

  /** The closed set of visual variants a notice may ask for. */
  datatype Variant = Default | Destructive

  /**
    The interactive affordance of a notice. The source pairs the label with a
    zero-argument callback; the store never calls it, so only the label is kept (`label` is a Dafny keyword, hence `labelText`).
   */
  datatype ToastAction = ToastAction(labelText: string)

  /**
    One toast notice. `duration` is a host-language number that is carried
    through uninterpreted; `className` is an opaque styling hint.
   */
  datatype ToastProps = ToastProps(
    id: Option<string>,
    title: Option<string>,
    description: Option<string>,
    action: Option<ToastAction>,
    duration: Option<real>,
    className: Option<string>,
    variant: Option<Variant>
  )

  /** True when `a` and `b` agree on every field except possibly `id`. */
  predicate SameExceptId(a: ToastProps, b: ToastProps)
  {
    && a.title == b.title
    && a.description == b.description
    && a.action == b.action
    && a.duration == b.duration
    && a.className == b.className
    && a.variant == b.variant
  }
}
