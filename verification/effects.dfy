/**
 * The calls an entry or frame makes into the world around it. Entries and
 * frames are modelled as pure state machines: a transition returns the new
 * state and, in order, the calls the source makes from inside it. The store
 * model then carries those calls out.
 */
module Effects {
  import opened Base

  datatype Effect =
      /** `ValueStore.ValueChanged<T>(frame, property, oldValue)` (typed). */
    | ValueChanged(prop: PropId, oldValue: Optional)
      /** `ValueStore.ValueChanged(frame, property, oldValue)` (untyped). */
    | ValueChangedUntyped(prop: PropId, oldObject: Boxed)
      /** The prototype stores' `ValueChanged(frame, property)` and
          `LocalValueChanged(property)`: re-evaluate the property. */
    | Reevaluate(prop: PropId)
      /** A local entry asking its frame to drop it. */
    | RemoveFromFrame(prop: PropId)
      /** `ValueStore.RemoveBindingEntry(entry, oldValue)`. */
    | RemoveBindingEntry(prop: PropId, oldValue: Optional)
      /** The boxing store's `RemoveBindingEntry(entry)`. */
    | RemoveBoxedBindingEntry(prop: PropId)
      /** `ValueStore.FrameActivationChanged(frame)`. */
    | FrameActivationChanged
      /** `source.Subscribe(observer)`. */
    | Subscribe(source: SourceId)
      /** `subscription.Dispose()`. */
    | Unsubscribe(source: SourceId)
      /** `activator.Subscribe(sink)`. */
    | SubscribeActivator(activator: ActivatorId)
      /** `binding.Initiate(target, property)` and a subscription to the
          resulting observable. */
    | InitiateBinding(binding: BindingId)
}
