/**
 * The boxing prototype's `BindingEntry<T>`: a binding frame whose single entry
 * is itself, storing the latest pushed value as an object, with `UnsetValue`
 * for "no value". Completion and errors dispose the entry.
 */
module BoxedBindingEntries {
  import opened Base
  import opened Effects

  /** A stored object: never the style-binding sentinel. */
  type Stored = b: Boxed | !b.FinishedValue? witness UnsetValue

  datatype BoxedBinding = BoxedBinding(prop: PropId, priority: int, source: SourceId, subscribed: bool, owned: bool, value: Stored)

  function Create(prop: PropId, source: SourceId, priority: int): (e: BoxedBinding)
    ensures !e.subscribed && !e.owned && e.value == UnsetValue
    ensures e.prop == prop && e.source == source && e.priority == priority
  {
    BoxedBinding(prop, priority, source, false, false, UnsetValue)
  }

  function SetOwner(e: BoxedBinding, owned: bool): (r: BoxedBinding)
    ensures r == e.(owned := owned)
  {
    e.(owned := owned)
  }

  /** `TryGetValue`: subscribe on first use, then report whether a value
      (anything but `UnsetValue`) is stored. */
  function TryGetValue(e: BoxedBinding): (r: (bool, Boxed, BoxedBinding, seq<Effect>))
    ensures r.0 <==> e.value.Boxed?
    ensures r.1 == e.value
    ensures r.2 == e.(subscribed := true)
    ensures r.3 == (if e.subscribed then [] else [Subscribe(e.source)])
  {
    (e.value != UnsetValue, e.value, e.(subscribed := true), if e.subscribed then [] else [Subscribe(e.source)])
  }

  /** `SetValue`: store the object; an owner is asked to re-evaluate exactly
      when it differs from the stored one. */
  function SetValue(e: BoxedBinding, v: Stored): (r: (BoxedBinding, seq<Effect>))
    ensures r.0 == e.(value := v)
    ensures r.1 == (if e.value != v && e.owned then [Reevaluate(e.prop)] else [])
  {
    if e.value != v then (e.(value := v), if e.owned then [Reevaluate(e.prop)] else []) else (e, [])
  }

  /** `OnNext`: a value is stored; a valueless notification stores `UnsetValue`. */
  function OnNext(e: BoxedBinding, v: BindingValue): (r: (BoxedBinding, seq<Effect>))
    ensures v.WithValue? ==> r == SetValue(e, Boxed(v.value))
    ensures !v.WithValue? ==> r == SetValue(e, UnsetValue)
  {
    if v.WithValue? then SetValue(e, Boxed(v.value)) else SetValue(e, UnsetValue)
  }

  /** `Dispose`: dispose the subscription (the field is kept, so this repeats
      on a second call) and ask an owner to remove the entry. */
  function Dispose(e: BoxedBinding): (r: (BoxedBinding, seq<Effect>))
    ensures r.0 == e
    ensures r.1 == (if e.subscribed then [Unsubscribe(e.source)] else []) + (if e.owned then [RemoveBoxedBindingEntry(e.prop)] else [])
  {
    (e, (if e.subscribed then [Unsubscribe(e.source)] else []) + (if e.owned then [RemoveBoxedBindingEntry(e.prop)] else []))
  }

  /** `OnCompleted`, and `OnError` too (the source's two bodies are the
      same): dispose the entry. */
  function OnCompleted(e: BoxedBinding): (r: (BoxedBinding, seq<Effect>))
    ensures r == Dispose(e)
  {
    Dispose(e)
  }

  /** A change request goes out exactly when `TryGetValue`'s answer changes,
      and the first read is the only one that subscribes. */
  lemma ObservableChanges(e: BoxedBinding, v: BindingValue)
    requires e.owned
    ensures var (e1, fx) := OnNext(e, v);
      fx != [] <==> TryGetValue(e1).0 != TryGetValue(e).0 || TryGetValue(e1).1 != TryGetValue(e).1
    ensures TryGetValue(TryGetValue(e).2).3 == []
  {
  }
}
