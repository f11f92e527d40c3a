/**
 * `StyleInstance`: the frame a matched style contributes to a store. A style
 * gated by an activator (a trigger on classes or pseudo-classes) sits at the
 * `StyleTrigger` tier and starts inactive; an unconditional one sits at the
 * `Style` tier and is always active.
 */
module StyleInstances {
  import opened Base
  import opened Effects
  import FrameMaps

  datatype StyleInstance = StyleInstance(
    activator: Option<ActivatorId>,
    subscribed: bool,
    active: bool,
    priority: int,
    store: Option<ObjId>,
    values: FrameMaps.FrameMap<EntryId>)

  /** The constructor: the tier and initial activity follow from whether
      there is an activator. */
  function Create(activator: Option<ActivatorId>): (r: StyleInstance)
    ensures r.priority == (if activator.Some? then StyleTrigger else Style)
    ensures r.active <==> activator.None?
    ensures !r.subscribed && r.store.None? && r.values == [] && r.activator == activator
  {
    StyleInstance(activator, false, activator.None?, if activator.Some? then StyleTrigger else Style, None, [])
  }

  /** Reading `IsActive`: the first read subscribes to the activator, and
      every read reports the current activity. */
  function ReadActive(si: StyleInstance): (r: (bool, StyleInstance, seq<Effect>))
    ensures r.0 == si.active
    ensures r.1 == si.(subscribed := si.subscribed || si.activator.Some?)
    ensures r.2 == (if si.activator.Some? && !si.subscribed then [SubscribeActivator(si.activator.value)] else [])
  {
    if si.activator.Some? && !si.subscribed then
      (si.active, si.(subscribed := true), [SubscribeActivator(si.activator.value)])
    else (si.active, si, [])
  }

  /** `SetOwner`: record the store that now holds the instance. */
  function SetOwner(si: StyleInstance, store: Option<ObjId>): (r: StyleInstance)
    ensures r.store == store && r.(store := si.store) == si
  {
    si.(store := store)
  }

  /** `Add`: one entry per property; a second one is rejected. */
  function Add(si: StyleInstance, prop: PropId, entry: EntryId): (r: Result<StyleInstance>)
    ensures r.Fail? <==> prop in FrameMaps.ToMap(si.values)
    ensures r.Fail? ==> r.error == DuplicateKey
    ensures r.Ok? ==> FrameMaps.ToMap(r.value.values) == FrameMaps.ToMap(si.values)[prop := entry]
    ensures r.Ok? ==> r.value.(values := si.values) == si
  {
    match FrameMaps.Add(si.values, prop, entry)
    case Fail(err) => Fail(err)
    case Ok(m) => Ok(si.(values := m))
  }

  /** The activator's `OnNext`: the store is told only when activity flips. */
  function OnNext(si: StyleInstance, value: bool): (r: (StyleInstance, seq<Effect>))
    ensures r.0 == si.(active := value)
    ensures r.1 == (if si.active != value && si.store.Some? then [FrameActivationChanged] else [])
  {
    if si.active != value then
      (si.(active := value), if si.store.Some? then [FrameActivationChanged] else [])
    else (si, [])
  }

  /** The activator subscription is made once: after the first read no
      further read subscribes, and reads never change activity. */
  lemma {:induction false} SubscribesOnce(si: StyleInstance)
    ensures var (_, si1, fx1) := ReadActive(si);
      ReadActive(si1).2 == [] && ReadActive(si1).1 == si1
      && |fx1| <= 1 && si1.active == si.active
  {
  }

  /** Activation notices are edge-triggered: a repeated activator value is
      silent, and toggling twice notifies twice and restores the instance. */
  lemma EdgeTriggered(si: StyleInstance, value: bool)
    requires si.store.Some?
    ensures var (si1, fx1) := OnNext(si, value);
      OnNext(si1, value) == (si1, [])
      && (fx1 == [] <==> si.active == value)
    ensures var (si1, fx1) := OnNext(si, !si.active);
      var (si2, fx2) := OnNext(si1, si.active);
      si2 == si && fx1 == fx2 == [FrameActivationChanged]
  {
  }
}
