/**
 * Shared vocabulary of the property system: opaque values, the boxed
 * `UnsetValue` sentinel, binding notifications, the binding priority tiers and
 * the errors the operations can raise.
 */
module Base {

  /** An opaque property value; only equality is observable. `Null` stands for
      both `null` and `default(T)`. */
  datatype Value = Null | Val(n: int)

  /** An `object?` that may be the `AvaloniaProperty.UnsetValue` sentinel, or
      the private "finished" sentinel a style binding instance stores once its
      binding has completed. */
  datatype Boxed = UnsetValue | FinishedValue | Boxed(value: Value)

  datatype Option<+T> = None | Some(value: T)

  /** `Optional<T>` as the typed stores use it. */
  type Optional = Option<Value>

  /** A `BindingValue<T>` pushed by a binding: either it carries a value, or it
      is a binding error without value, or some other valueless notification
      (unset, do-nothing, data-validation error). */
  datatype BindingValue = WithValue(value: Value) | BindingError | Valueless

  /** The exceptions the modelled code throws. */
  datatype Error =
    | NameContainsPeriod
    | InvalidDefaultValue
    | MetadataAlreadySet
    | InvalidValue
    | DuplicateKey
    | SetterPropertyUnset
    | InvalidSetterValue
    | UnownedBindingValue
    | NullReference
    | InvalidCast

  datatype Result<+T> = Ok(value: T) | Fail(error: Error)

  type PropId = int
  type TypeId = nat
  type ObjId = nat
  type FrameId = nat
  type EntryId = nat
  /** An observable a binding subscribes to. */
  type SourceId = nat
  /** A style activator (the per-target trigger of a style with classes or
      pseudo-classes). */
  type ActivatorId = nat
  /** An `IBinding` a style setter holds. */
  type BindingId = nat

  /** `BindingPriority`: a smaller number is a stronger tier. */
  const Animation: int := -1
  const LocalValue: int := 0
  const StyleTrigger: int := 1
  const TemplatedParent: int := 2
  const Style: int := 3
  const Inherited: int := 4
  const Unset: int := 0x7fff_ffff

  const Int32Min: int := -0x8000_0000
  const Int32Max: int := 0x7fff_ffff

  predicate IsInt32(x: int) {
    Int32Min <= x <= Int32Max
  }

  /** Two's-complement wrap-around of a C# `int` result. */
  function Wrap32(x: int): (r: int)
    ensures IsInt32(r)
    ensures IsInt32(x) ==> r == x
    ensures (r - x) % 0x1_0000_0000 == 0
  {
    (x + 0x8000_0000) % 0x1_0000_0000 - 0x8000_0000
  }

  /** The value an `Optional` holds, or the given fallback. */
  function OrElse(o: Optional, fallback: Value): (r: Value)
    ensures o.Some? ==> r == o.value
    ensures o.None? ==> r == fallback
  {
    if o.Some? then o.value else fallback
  }
}
