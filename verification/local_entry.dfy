/**
 * `LocalValueEntry<T>` of the main store: the per-property entry of the
 * local-value frame. It holds an optional value and at most one binding
 * subscription; the binding's notifications arrive as `OnNext`,
 * `OnCompleted` and `OnError`.
 */
module LocalValueEntries {
  import opened Base
  import opened Effects

  datatype LocalEntry = LocalEntry(prop: PropId, subscription: Option<SourceId>, hasValue: bool, value: Value)

  /** What `TryGetValue` reports: the value when there is one. */
  function Current(e: LocalEntry): Optional {
    if e.hasValue then Some(e.value) else None
  }

  /** A cleared entry holds `default(T)`. */
  predicate Valid(e: LocalEntry) {
    !e.hasValue ==> e.value == Null
  }

  function Create(prop: PropId): (e: LocalEntry)
    ensures Valid(e) && Current(e).None? && e.subscription.None? && e.prop == prop
  {
    LocalEntry(prop, None, false, Null)
  }

  /** `SetValue`: afterwards the entry holds `v`; the store is told, with the
      previous value, exactly when the observable value changed. */
  function SetValue(e: LocalEntry, v: Value): (r: (LocalEntry, seq<Effect>))
    ensures Current(r.0) == Some(v) && Valid(r.0)
    ensures r.0.prop == e.prop && r.0.subscription == e.subscription
    ensures Current(e) != Some(v) ==> r.1 == [ValueChanged(e.prop, Current(e))]
    ensures Current(e) == Some(v) ==> r.1 == [] && r.0 == e
  {
    if !e.hasValue || e.value != v then
      (e.(value := v, hasValue := true), [ValueChanged(e.prop, Current(e))])
    else (e, [])
  }

  /** `ClearValue`: the entry asks to be dropped from its frame only when no
      binding subscription is live; it then loses its value, and the store is
      told exactly when there was one. */
  function ClearValue(e: LocalEntry): (r: (LocalEntry, seq<Effect>))
    ensures Current(r.0).None? && (Valid(e) ==> Valid(r.0))
    ensures r.0.prop == e.prop && r.0.subscription == e.subscription
    ensures RemoveFromFrame(e.prop) in r.1 <==> e.subscription.None?
    ensures ValueChanged(e.prop, Current(e)) in r.1 <==> Current(e).Some?
    ensures forall x :: x in r.1 ==> x == RemoveFromFrame(e.prop) || x == ValueChanged(e.prop, Current(e))
    ensures |r.1| <= 2 && (|r.1| == 2 ==> r.1[0].RemoveFromFrame?)
  {
    var removal := if e.subscription.None? then [RemoveFromFrame(e.prop)] else [];
    if e.hasValue then
      (e.(hasValue := false, value := Null), removal + [ValueChanged(e.prop, Current(e))])
    else
      (e, removal)
  }

  /** `AddBinding`: any previous subscription is disposed before the new
      source is subscribed, so the entry holds exactly one subscription. */
  function AddBinding(e: LocalEntry, source: SourceId): (r: (LocalEntry, seq<Effect>))
    ensures r.0 == e.(subscription := Some(source))
    ensures |r.1| >= 1 && r.1[|r.1| - 1] == Subscribe(source)
    ensures e.subscription.None? ==> r.1 == [Subscribe(source)]
    ensures e.subscription.Some? ==> r.1 == [Unsubscribe(e.subscription.value), Subscribe(source)]
  {
    var dispose := if e.subscription.Some? then [Unsubscribe(e.subscription.value)] else [];
    (e.(subscription := Some(source)), dispose + [Subscribe(source)])
  }

  /** The shared end of completion, error and disposal: drop the subscription,
      then clear — which now always asks for removal. */
  function BindingCompleted(e: LocalEntry): (r: (LocalEntry, seq<Effect>))
    ensures r.0.subscription.None? && Current(r.0).None?
    ensures RemoveFromFrame(e.prop) in r.1
  {
    ClearValue(e.(subscription := None))
  }

  /** `OnCompleted`, and `OnError` too: the source routes both to
      `BindingCompleted`. */
  function OnCompleted(e: LocalEntry): (r: (LocalEntry, seq<Effect>))
    ensures r == BindingCompleted(e)
  {
    BindingCompleted(e)
  }

  /** `Dispose`: disposes the live subscription first, then completes. */
  function Dispose(e: LocalEntry): (r: (LocalEntry, seq<Effect>))
    ensures r.0 == BindingCompleted(e).0
    ensures e.subscription.Some? ==> r.1 == [Unsubscribe(e.subscription.value)] + BindingCompleted(e).1
    ensures e.subscription.None? ==> r.1 == BindingCompleted(e).1
  {
    var dispose := if e.subscription.Some? then [Unsubscribe(e.subscription.value)] else [];
    var (e', fx) := BindingCompleted(e);
    (e', dispose + fx)
  }

  /** `OnNext`: a value is set, a binding error clears, and any other
      valueless notification is ignored. */
  function OnNext(e: LocalEntry, v: BindingValue): (r: (LocalEntry, seq<Effect>))
    ensures v.WithValue? ==> r == SetValue(e, v.value)
    ensures v.BindingError? ==> r == ClearValue(e)
    ensures v.Valueless? ==> r == (e, [])
  {
    match v
    case WithValue(x) => SetValue(e, x)
    case BindingError => ClearValue(e)
    case Valueless => (e, [])
  }

  /** What a local entry's binding can deliver: a notification, its end
      (completion or error), or the entry's disposal. */
  datatype Event = Next(v: BindingValue) | Completed | Disposed

  function Step(e: LocalEntry, ev: Event): (r: (LocalEntry, seq<Effect>))
    ensures r.0.prop == e.prop
  {
    match ev
    case Next(v) => OnNext(e, v)
    case Completed => OnCompleted(e)
    case Disposed => Dispose(e)
  }

  /** Completion, error and disposal all end the same way: no subscription,
      no value, a request to leave the frame, and a change notification
      exactly when the entry had a value. */
  lemma CompletionRemovesEntry(e: LocalEntry)
    ensures var r := OnCompleted(e);
      r.0.subscription.None? && Current(r.0).None? && RemoveFromFrame(e.prop) in r.1
      && (ValueChanged(e.prop, Current(e)) in r.1 <==> Current(e).Some?)
    ensures var r := Dispose(e);
      r.0.subscription.None? && Current(r.0).None? && RemoveFromFrame(e.prop) in r.1
      && (ValueChanged(e.prop, Current(e)) in r.1 <==> Current(e).Some?)
  {
    var c := e.(subscription := None);
    assert Current(c) == Current(e);
  }

  /** Setting a value and then clearing it (with no binding live) leaves the
      entry asking for removal and reporting the value it had been set to. */
  lemma SetThenClear(e: LocalEntry, v: Value)
    requires e.subscription.None?
    ensures var (e1, _) := SetValue(e, v);
      ClearValue(e1).1 == [RemoveFromFrame(e.prop), ValueChanged(e.prop, Some(v))]
  {
  }
}
