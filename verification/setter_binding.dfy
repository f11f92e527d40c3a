/**
 * `SetterBindingInstance`: the per-target entry a binding-valued style setter
 * produces. Its binding is initiated lazily against the store that owns the
 * style instance; the values it pushes are stored as objects, with the
 * `UnsetValue` sentinel for "no value" and a private sentinel once the
 * binding has finished.
 */
module SetterBindings {
  import opened Base
  import opened Effects

  /** A value a binding can push: anything but the private sentinel. */
  type Pushed = b: Boxed | !b.FinishedValue? witness UnsetValue

  datatype SetterBinding = SetterBinding(prop: PropId, binding: BindingId, instanced: bool, value: Boxed)

  function Create(prop: PropId, binding: BindingId): (sb: SetterBinding)
    ensures !sb.instanced && sb.value == UnsetValue && sb.prop == prop && sb.binding == binding
  {
    SetterBinding(prop, binding, false, UnsetValue)
  }

  /** `StartIfNecessary`: the binding is initiated against the owning style
      instance's store, once. Without a store the dereference fails. */
  function Start(sb: SetterBinding, hasStore: bool): (r: Result<(SetterBinding, seq<Effect>)>)
    ensures sb.instanced ==> r == Ok((sb, []))
    ensures !sb.instanced && !hasStore ==> r == Fail(NullReference)
    ensures !sb.instanced && hasStore ==>
      r == Ok((sb.(instanced := true), [InitiateBinding(sb.binding)]))
  {
    if sb.instanced then Ok((sb, []))
    else if !hasStore then Fail(NullReference)
    else Ok((sb.(instanced := true), [InitiateBinding(sb.binding)]))
  }

  /** `TryGetValue`: an error without a store; no value (and no start) once
      finished; otherwise start, and report whether the stored object is a
      value. */
  function TryGetValue(sb: SetterBinding, hasStore: bool): (r: Result<(Option<Value>, SetterBinding, seq<Effect>)>)
    ensures !hasStore ==> r == Fail(UnownedBindingValue)
    ensures hasStore ==> r.Ok?
    ensures hasStore && sb.value.FinishedValue? ==> r == Ok((None, sb, []))
    ensures r.Ok? ==> (r.value.0.Some? <==> sb.value.Boxed?)
    ensures r.Ok? && sb.value.Boxed? ==> r.value.0 == Some(sb.value.value)
    ensures r.Ok? ==> r.value.1.value == sb.value
  {
    if !hasStore then Fail(UnownedBindingValue)
    else if sb.value.FinishedValue? then Ok((None, sb, []))
    else
      var (sb', fx) := Start(sb, hasStore).value;
      Ok((if sb'.value.Boxed? then Some(sb'.value.value) else None, sb', fx))
  }

  /** `HasValue` as written: start, then compare the stored object with
      `UnsetValue` only — so the finished sentinel counts as a value. */
  function HasValueAsWritten(sb: SetterBinding, hasStore: bool): (r: Result<(bool, SetterBinding, seq<Effect>)>)
    ensures r.Ok? <==> sb.instanced || hasStore
    ensures r.Ok? ==> (r.value.0 <==> sb.value != UnsetValue) && r.value.1.value == sb.value
  {
    match Start(sb, hasStore)
    case Fail(err) => Fail(err)
    case Ok((sb', fx)) => Ok((sb'.value != UnsetValue, sb', fx))
  }

  /** `HasValue` as evidently intended: the same start, but a value is present
      only when the stored object is neither sentinel. */
  function HasValue(sb: SetterBinding, hasStore: bool): (r: Result<(bool, SetterBinding, seq<Effect>)>)
    ensures r.Ok? <==> sb.instanced || hasStore
    ensures r.Ok? ==> (r.value.0 <==> sb.value.Boxed?) && r.value.1.value == sb.value
  {
    match Start(sb, hasStore)
    case Fail(err) => Fail(err)
    case Ok((sb', fx)) => Ok((sb'.value.Boxed?, sb', fx))
  }

  /** `OnNext`: store the object and tell the owning store, if any, with the
      object stored before. */
  function OnNext(sb: SetterBinding, v: Pushed, hasStore: bool): (r: (SetterBinding, seq<Effect>))
    ensures r.0 == sb.(value := v)
    ensures r.1 == (if hasStore then [ValueChangedUntyped(sb.prop, sb.value)] else [])
  {
    (sb.(value := v), if hasStore then [ValueChangedUntyped(sb.prop, sb.value)] else [])
  }

  /** `OnCompleted`, and `OnError` too (the source's two bodies are the
      same): mark the instance finished, silently. */
  function OnCompleted(sb: SetterBinding): (r: SetterBinding)
    ensures r.value.FinishedValue? && r.(value := sb.value) == sb
  {
    sb.(value := FinishedValue)
  }

  /** The corrected `HasValue` agrees with `TryGetValue` on every instance
      whose store is present. */
  lemma HasValueAgreesWithTryGetValue(sb: SetterBinding)
    ensures HasValue(sb, true).Ok? && TryGetValue(sb, true).Ok?
    ensures HasValue(sb, true).value.0 <==> TryGetValue(sb, true).value.0.Some?
  {
  }

  /** As written, a finished instance claims a value that `TryGetValue` then
      refuses: the store's scan picks it as the winner and reads `default`. */
  lemma FinishedInstanceClaimsValue()
    ensures var sb := OnCompleted(SetterBinding(0, 0, true, Boxed(Val(1))));
      HasValueAsWritten(sb, true) == Ok((true, sb, []))
      && TryGetValue(sb, true) == Ok((None, sb, []))
      && HasValue(sb, true) == Ok((false, sb, []))
  {
  }

  /** The binding is initiated at most once, whatever reads and values come. */
  lemma InitiatedOnce(sb: SetterBinding, v: Pushed)
    requires sb.instanced
    ensures HasValue(sb, true).Ok? && HasValue(sb, true).value.2 == []
    ensures TryGetValue(sb, true).Ok? && TryGetValue(sb, true).value.2 == []
    ensures OnNext(sb, v, true).0.instanced
  {
  }
}
