/**
 * The prototype stores' `LocalValueEntry`: an `Optional`-backed local value
 * with at most one binding subscription. Unlike the main store's entry it is
 * never removed from its frame; completion and errors only clear it. The
 * typed prototype receives `BindingValue`s, the boxing one raw objects with
 * the `DoNothing` and `UnsetValue` sentinels.
 */
module PrototypeLocalEntries {
  import opened Base
  import opened Effects

  datatype ProtoLocal = ProtoLocal(prop: PropId, subscription: Option<SourceId>, value: Optional)

  /** What the boxing store's bindings push: `BindingOperations.DoNothing`,
      `AvaloniaProperty.UnsetValue`, or a value. */
  datatype PushedObject = DoNothing | UnsetPush | ValuePush(v: Value)

  function Create(prop: PropId): (e: ProtoLocal)
    ensures e.value.None? && e.subscription.None? && e.prop == prop
  {
    ProtoLocal(prop, None, None)
  }

  /** `TryGetValue`: the value when there is one, else `default`. */
  function TryGetValue(e: ProtoLocal): (r: (bool, Value))
    ensures r.0 <==> e.value.Some?
    ensures r.1 == OrElse(e.value, Null)
  {
    if e.value.Some? then (true, e.value.value) else (false, Null)
  }

  /** `SetValue`: the store is asked to re-evaluate exactly when the optional
      value changes. */
  function SetValue(e: ProtoLocal, v: Value): (r: (ProtoLocal, seq<Effect>))
    ensures r.0 == e.(value := Some(v))
    ensures r.1 == (if e.value != Some(v) then [Reevaluate(e.prop)] else [])
  {
    if e.value != Some(v) then (e.(value := Some(v)), [Reevaluate(e.prop)]) else (e, [])
  }

  /** `ClearValue`: drops a present value, asking for re-evaluation then. */
  function ClearValue(e: ProtoLocal): (r: (ProtoLocal, seq<Effect>))
    ensures r.0 == e.(value := None)
    ensures r.1 == (if e.value.Some? then [Reevaluate(e.prop)] else [])
  {
    if e.value.Some? then (e.(value := None), [Reevaluate(e.prop)]) else (e, [])
  }

  /** `AddBinding`: any previous subscription is disposed first. */
  function AddBinding(e: ProtoLocal, source: SourceId): (r: (ProtoLocal, seq<Effect>))
    ensures r.0 == e.(subscription := Some(source))
    ensures r.1 == (if e.subscription.Some? then [Unsubscribe(e.subscription.value)] else []) + [Subscribe(source)]
  {
    var dispose := if e.subscription.Some? then [Unsubscribe(e.subscription.value)] else [];
    (e.(subscription := Some(source)), dispose + [Subscribe(source)])
  }

  /** `Dispose`: the subscription is disposed (the field is kept) and the
      value cleared. */
  function Dispose(e: ProtoLocal): (r: (ProtoLocal, seq<Effect>))
    ensures r.0 == e.(value := None)
    ensures r.1 == (if e.subscription.Some? then [Unsubscribe(e.subscription.value)] else []) + ClearValue(e).1
  {
    var dispose := if e.subscription.Some? then [Unsubscribe(e.subscription.value)] else [];
    var (e', fx) := ClearValue(e);
    (e', dispose + fx)
  }

  /** `OnCompleted`, and `OnError` too (the source's two bodies are the
      same): only clear the value. */
  function OnCompleted(e: ProtoLocal): (r: (ProtoLocal, seq<Effect>))
    ensures r == ClearValue(e)
  {
    ClearValue(e)
  }

  /** The typed prototype's `OnNext`: a value sets, a binding error clears,
      anything else is ignored. */
  function OnNextTyped(e: ProtoLocal, v: BindingValue): (r: (ProtoLocal, seq<Effect>))
    ensures v.WithValue? ==> r == SetValue(e, v.value)
    ensures v.BindingError? ==> r == ClearValue(e)
    ensures v.Valueless? ==> r == (e, [])
  {
    match v
    case WithValue(x) => SetValue(e, x)
    case BindingError => ClearValue(e)
    case Valueless => (e, [])
  }

  /** The boxing prototype's `OnNext`: `DoNothing` is ignored, `UnsetValue`
      clears, any other object sets. */
  function OnNextObject(e: ProtoLocal, v: PushedObject): (r: (ProtoLocal, seq<Effect>))
    ensures v.DoNothing? ==> r == (e, [])
    ensures v.UnsetPush? ==> r == ClearValue(e)
    ensures v.ValuePush? ==> r == SetValue(e, v.v)
  {
    match v
    case DoNothing => (e, [])
    case UnsetPush => ClearValue(e)
    case ValuePush(x) => SetValue(e, x)
  }

  /** Setting and clearing are idempotent and report a change exactly when
      `TryGetValue`'s answer changes. */
  lemma ChangeReported(e: ProtoLocal, v: Value)
    ensures var (e1, fx) := SetValue(e, v);
      (fx != [] <==> TryGetValue(e1) != TryGetValue(e)) && SetValue(e1, v) == (e1, [])
    ensures var (e1, fx) := ClearValue(e);
      (fx != [] <==> TryGetValue(e1) != TryGetValue(e)) && ClearValue(e1) == (e1, [])
  {
  }
}
