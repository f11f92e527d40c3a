/**
 * `BindingEntry<T>` of the main store: a binding at some priority that is at
 * the same time a frame holding one entry, itself. The subscription to the
 * binding's source is started lazily, on the first read of the entry's value.
 */
module BindingEntries {
  import opened Base
  import opened Effects

  /** The `_bindingSubscription` field: null, the `Disposable.Empty`
      placeholder assigned while `Subscribe` runs, or the live subscription. */
  datatype Subscription = NotSubscribed | Placeholder | Live

  datatype BindingEntry = BindingEntry(
    prop: PropId,
    priority: int,
    source: SourceId,
    subscription: Subscription,
    owned: bool,
    hasValue: bool,
    value: Value)

  function Current(e: BindingEntry): Optional {
    if e.hasValue then Some(e.value) else None
  }

  function Create(prop: PropId, source: SourceId, priority: int): (e: BindingEntry)
    ensures e.subscription.NotSubscribed? && !e.owned && Current(e).None?
    ensures e.prop == prop && e.source == source && e.priority == priority
  {
    BindingEntry(prop, priority, source, NotSubscribed, false, false, Null)
  }

  /** As a frame the entry is always active and its one value is itself. */
  predicate IsActive(e: BindingEntry) { true }

  function Values(e: BindingEntry): (r: seq<BindingEntry>)
    ensures |r| == 1 && r[0] == e
  {
    [e]
  }

  /** `SetOwner`: the store the entry reports to, or none. */
  function SetOwner(e: BindingEntry, owned: bool): (r: BindingEntry)
    ensures r.owned == owned && r.(owned := e.owned) == e
  {
    e.(owned := owned)
  }

  /** `StartIfNecessary`: only a null subscription starts one; the placeholder
      goes in before `Subscribe` is called, so a read made while `Subscribe`
      is still running does not subscribe a second time. */
  function StartIfNecessary(e: BindingEntry): (r: (BindingEntry, seq<Effect>))
    ensures e.subscription.NotSubscribed? ==>
      r == (e.(subscription := Placeholder), [Subscribe(e.source)])
    ensures !e.subscription.NotSubscribed? ==> r == (e, [])
  {
    if e.subscription.NotSubscribed? then
      (e.(subscription := Placeholder), [Subscribe(e.source)])
    else (e, [])
  }

  /** `Subscribe` returned: its result replaces the placeholder (or, if the
      source completed while subscribing, the null left by completion). */
  function SubscribeReturned(e: BindingEntry): (r: BindingEntry)
    ensures r.subscription.Live? && r.(subscription := e.subscription) == e
  {
    e.(subscription := Live)
  }

  /** `HasValue` and `TryGetValue`: start the binding, then report the value. */
  function TryGetValue(e: BindingEntry): (r: (Optional, BindingEntry, seq<Effect>))
    ensures r.0 == Current(e) && Current(r.1) == Current(e)
    ensures !r.1.subscription.NotSubscribed?
    ensures Subscribe(e.source) in r.2 <==> e.subscription.NotSubscribed?
  {
    var (e', fx) := StartIfNecessary(e);
    (Current(e'), e', fx)
  }

  /** The owner's callbacks are made only when the entry has an owner. */
  function Notify(e: BindingEntry, fx: Effect): seq<Effect> {
    if e.owned then [fx] else []
  }

  /** `SetValue`: afterwards the entry holds `v`; an owner is told, with the
      previous value, exactly when presence or value changed. */
  function SetValue(e: BindingEntry, v: Value): (r: (BindingEntry, seq<Effect>))
    ensures Current(r.0) == Some(v) && r.0.subscription == e.subscription
    ensures r.1 != [] <==> e.owned && Current(e) != Some(v)
    ensures r.1 != [] ==> r.1 == [ValueChanged(e.prop, Current(e))]
  {
    if !e.hasValue || e.value != v then
      (e.(value := v, hasValue := true), Notify(e, ValueChanged(e.prop, Current(e))))
    else (e, [])
  }

  /** `ClearValue`: with no subscription the entry asks its owner to remove
      it (keeping its value); otherwise it drops a present value and an owner
      is told exactly when there was one. */
  function ClearValue(e: BindingEntry): (r: (BindingEntry, seq<Effect>))
    ensures r.0.subscription == e.subscription
    ensures e.subscription.NotSubscribed? ==>
      r.0 == e && r.1 == Notify(e, RemoveBindingEntry(e.prop, Current(e)))
    ensures !e.subscription.NotSubscribed? ==> Current(r.0).None?
    ensures !e.subscription.NotSubscribed? ==>
      (r.1 != [] <==> e.owned && Current(e).Some?) &&
      (r.1 != [] ==> r.1 == [ValueChanged(e.prop, Current(e))])
  {
    if e.subscription.NotSubscribed? then
      (e, Notify(e, RemoveBindingEntry(e.prop, Current(e))))
    else if e.hasValue then
      (e.(hasValue := false, value := Null), Notify(e, ValueChanged(e.prop, Current(e))))
    else (e, [])
  }

  /** `OnNext`: a value is set, any valueless notification clears. */
  function OnNext(e: BindingEntry, v: BindingValue): (r: (BindingEntry, seq<Effect>))
    ensures v.WithValue? ==> r == SetValue(e, v.value)
    ensures !v.WithValue? ==> r == ClearValue(e)
  {
    if v.WithValue? then SetValue(e, v.value) else ClearValue(e)
  }

  /** `BindingCompleted`, the shared path of `OnCompleted` and `OnError`:
      the subscription is nulled, so clearing asks the owner to remove the
      entry and hands over the value it last had. */
  function BindingCompleted(e: BindingEntry): (r: (BindingEntry, seq<Effect>))
    ensures r.0.subscription.NotSubscribed? && Current(r.0) == Current(e)
    ensures r.1 == Notify(e, RemoveBindingEntry(e.prop, Current(e)))
  {
    ClearValue(e.(subscription := NotSubscribed))
  }

  /** `OnCompleted`, and `OnError` too: the source routes both to
      `BindingCompleted`. */
  function OnCompleted(e: BindingEntry): (r: (BindingEntry, seq<Effect>))
    ensures r == BindingCompleted(e)
  {
    BindingCompleted(e)
  }

  /** `Dispose`: a live subscription is disposed (the placeholder's disposal
      does nothing), then the entry takes the completion path. */
  function Dispose(e: BindingEntry): (r: (BindingEntry, seq<Effect>))
    ensures r.0 == BindingCompleted(e).0
    ensures e.subscription.Live? ==> r.1 == [Unsubscribe(e.source)] + BindingCompleted(e).1
    ensures !e.subscription.Live? ==> r.1 == BindingCompleted(e).1
  {
    var dispose := if e.subscription.Live? then [Unsubscribe(e.source)] else [];
    var (e', fx) := BindingCompleted(e);
    (e', dispose + fx)
  }

  /** Everything that can happen to an entry: a read by the store, the return
      of the `Subscribe` call, and the binding's notifications. */
  datatype Event = Read | Subscribed | Next(v: BindingValue) | Completed | Errored | Disposed

  function Step(e: BindingEntry, ev: Event): (r: (BindingEntry, seq<Effect>))
    ensures r.0.prop == e.prop && r.0.priority == e.priority && r.0.source == e.source && r.0.owned == e.owned
  {
    match ev
    case Read => var (_, e', fx) := TryGetValue(e); (e', fx)
    case Subscribed => (SubscribeReturned(e), [])
    case Next(v) => OnNext(e, v)
    case Completed => OnCompleted(e)
    case Errored => OnCompleted(e)
    case Disposed => Dispose(e)
  }

  /** The entry after a trace of events, and every call it made on the way. */
  function Run(e: BindingEntry, trace: seq<Event>): (r: (BindingEntry, seq<Effect>))
    decreases |trace|
  {
    if trace == [] then (e, [])
    else
      var (e1, fx1) := Step(e, trace[0]);
      var (e2, fx2) := Run(e1, trace[1..]);
      (e2, fx1 + fx2)
  }

  function CountSubscribes(fx: seq<Effect>): nat {
    if fx == [] then 0
    else (if fx[0].Subscribe? then 1 else 0) + CountSubscribes(fx[1..])
  }

  lemma {:induction false} CountSubscribesAppend(a: seq<Effect>, b: seq<Effect>)
    ensures CountSubscribes(a + b) == CountSubscribes(a) + CountSubscribes(b)
  {
    if a == [] {
      assert a + b == b;
    } else {
      assert (a + b)[1..] == a[1..] + b;
      CountSubscribesAppend(a[1..], b);
    }
  }

  predicate Ends(ev: Event) {
    ev.Completed? || ev.Errored? || ev.Disposed?
  }

  /** Until the binding completes or is disposed, any interleaving of reads
      (re-entrant ones included), values and the return of `Subscribe`
      subscribes to the source at most once, and not at all once a
      subscription (or its placeholder) is in place. */
  lemma {:induction false} SubscribesOnce(e: BindingEntry, trace: seq<Event>)
    requires forall i :: 0 <= i < |trace| ==> !Ends(trace[i])
    ensures CountSubscribes(Run(e, trace).1) <= (if e.subscription.NotSubscribed? then 1 else 0)
    ensures !e.subscription.NotSubscribed? ==> !Run(e, trace).0.subscription.NotSubscribed?
    decreases |trace|
  {
    if trace != [] {
      var (e1, fx1) := Step(e, trace[0]);
      var rest := trace[1..];
      assert forall i :: 0 <= i < |rest| ==> !Ends(rest[i]) by {
        forall i | 0 <= i < |rest| ensures !Ends(rest[i]) { assert rest[i] == trace[i + 1]; }
      }
      SubscribesOnce(e1, rest);
      CountSubscribesAppend(fx1, Run(e1, rest).1);
      match trace[0]
      case Read =>
      case Subscribed =>
      case Next(v) =>
        assert CountSubscribes(fx1) == 0 by {
          if v.WithValue? { assert |fx1| <= 1; } else { assert |fx1| <= 1; }
          if fx1 != [] { assert fx1[1..] == []; }
        }
      case Completed =>
      case Errored =>
      case Disposed =>
    }
  }

  /** Completion, error and disposal leave the entry unsubscribed and, when
      owned, asking its store to remove it with the value it last had. */
  lemma CompletionRemovesEntry(e: BindingEntry)
    requires e.owned
    ensures OnCompleted(e).1 == [RemoveBindingEntry(e.prop, Current(e))]
    ensures Dispose(e).0.subscription.NotSubscribed?
    ensures RemoveBindingEntry(e.prop, Current(e)) in Dispose(e).1
  {
    var d := Dispose(e).1;
    assert d[|d| - 1] == RemoveBindingEntry(e.prop, Current(e));
  }
}
