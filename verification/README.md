# A verified model of Avalonia's property value store

Avalonia resolves one *effective value* per styled property per object. The
contributors are local values, bindings at several priorities, style setters,
trigger-gated styles, and values inherited from the logical parent. This project
models that resolver as pure Dafny functions over immutable data and proves what
it promises. It covers the main implementation and its two simpler prototypes.

What is modelled:

- **The store** (`ValueStores`, on top of `Arena`, `Evaluation` and `Cascade`).
  - Each object's `ValueStore` keeps a frame list sorted weakest first. Frame
    insertion follows `List.BinarySearch` under the source's comparer, which is a
    32-bit wrapped subtraction, so a later frame beats an equal-priority earlier
    one.
  - The store has an effective-value cache keyed by property id, an optional
    local-value frame, an optional inheritance frame, and a styling counter.
  - Frames and entries live in an arena and are referred to by id. The cache and
    the inheritance frames share entries by reference, as the source's `IValue`
    references do.
  - Every operation returns the new world together with the ordered list of what
    the source does outside the store. That list holds property-changed
    notifications, calls into the inheritance children, and calls out to binding
    sources and activators.
  - Reading an entry's `HasValue` or a style's `IsActive` starts it lazily: a
    binding entry subscribes, a setter binding initiates its binding, a style
    instance subscribes to its activator. `Starts` lists the reads each scan
    makes and carries out those starts; their calls come first in the output.
  - Pushes into the store are world-level events: `ValueStores.BindingEvent`,
    `ValueStores.LocalEvent`, `ValueStores.ActivatorNext` and
    `ValueStores.SetterBindingNext`. The entry steps, and `ValueStores.Dispatch`
    carries out the calls it makes into the store.
- **Evaluation.** Single-property evaluation takes the strongest active frame
  that has an entry with a value. An inheriting property otherwise walks the
  parent chain. The batch pass rebuilds the whole cache and diffs it against the
  old one.
- **Frames and entries.**
  - The id-keyed sorted frame map is in `FrameMaps`.
  - The local-value frame is in `LocalValueFrames`.
  - The state machines of the local-value entry, the binding entry and the
    setter binding are in `LocalValueEntries`, `BindingEntries` and
    `SetterBindings`. Their push inputs are explicit events, and their callbacks
    into the store are emitted effects (`Effects`).
  - The inheritance frame chain is in `Arena`.
- **Property descriptors** (`Properties`): registration with the id counter,
  identity by id, metadata overrides resolved along the base-type chain with a
  lookup cache, validation and coercion.
- **Styling.** Style instancing with shared-instance caching is in `Styles`.
  Priority and activation are in `StyleInstances`. Constant and binding setters
  are in `Setters`.
- **Other parts.** The control tree's `Parent` bookkeeping is in `Controls`. The
  change-args pool is in `ChangeArgs`.
- **The boxing prototype** (`BoxedStores`, `BoxedCascade`, `BoxedBindingEntries`).
  It is a second, simpler cascade with no inheritance.
- **The typed prototype local entry** (`PrototypeLocalEntries`).

The central results are:

- `Cascade.RebuildAgreesWithEvaluate` and `BoxedCascade.Rebuild`: the batch
  rebuild agrees, property by property, with single-property evaluation.
- The `OperationProofs` and `StoreProofs` lemmas: every public store operation
  leaves each cache slot of the store it operates on equal to what evaluation
  picks for that property. So does every event on a binding or local entry, every
  activator push, and every value pushed to a setter binding. Three limits apply:
  - it is proved for the corrected `ValueStores.ClearLocalValue`, typed
    re-evaluation and frame change; the as-written versions break it (Findings);
  - it covers the operated store only; a descendant is covered by its own
    corrected `ValueStores.ParentInheritanceFrameChanged` call, and the
    composition over the whole tree is not stated as one lemma;
  - a setter binding's completion raises no store event, so the cache can go
    stale until the next pass (Left out).
- `OperationProofs.ReevaluateAllReports`: the batch pass announces exactly the
  registered properties whose value changes, each with its old and new value.

Priorities are integers where smaller is stronger:

| tier | value |
|---|---|
| `Animation` | -1 |
| `LocalValue` | 0 |
| `StyleTrigger` | 1 |
| `TemplatedParent` | 2 |
| `Style` | 3 |
| `Inherited` | 4 |
| `Unset` | 0x7fff_ffff |

Only their order and the 32-bit comparer matter.

## Model

| member | source | states |
|---|---|---|
| `Base.Wrap32` | Avalonia.Base/PropertyStore/ValueStore.cs:558-566 | The comparer's `int` subtraction: the result is a 32-bit integer congruent to the exact difference modulo 2^32, and equal to it when it fits |
| `Base.OrElse` | Avalonia.Base/PropertyStore/ValueStore.cs:528-556 | Reading an `Optional<T>` with a fallback: its value when present, otherwise the fallback |
| `FrameMaps.Values` | Avalonia.Base/PropertyStore/ValueFrameBase.cs:9-13 | A frame's `Values` list has one element per slot, in storage (ascending property id) order |
| `FrameMaps.TryGet` | Avalonia.Base/PropertyStore/ValueFrameBase.cs:19-22 | Lookup in a frame succeeds exactly when the property has an entry in the frame's reference map, and yields that entry |
| `FrameMaps.Add` | Avalonia.Base/PropertyStore/ValueFrameBase.cs:24 | Adding fails with a duplicate-key error exactly when the property already has an entry; otherwise the map gains exactly that entry and one slot |
| `FrameMaps.Remove` | Avalonia.Base/PropertyStore/ValueFrameBase.cs:25 | Removal reports whether the property had an entry, and the map afterwards is the old map without that key |
| `FrameMaps.Set` | Avalonia.Base/PropertyStore/ValueFrameBase.cs:26 | Setting overwrites or inserts: the map afterwards is the old map updated at that key, growing by one slot only when the key was new |
| `FrameMaps.Insert` | Avalonia.Base/PropertyStore/ValueFrameBase.cs:9-13 | Inserting a new key keeps the slots strictly ascending and adds exactly that key to the map |
| `FrameMaps.SlotInMap` | Avalonia.Base/PropertyStore/ValueFrameBase.cs:9-13 | Every slot of a sorted frame is what the frame's map holds under that slot's key |
| `FrameMaps.OneEntryPerKey` | Avalonia.Base/PropertyStore/ValueFrameBase.cs:9-13 | A frame holds at most one entry per property: it has exactly as many slots as distinct keys |
| `FrameMaps.ToMapKeys` | Avalonia.Base/PropertyStore/ValueFrameBase.cs:19-22 | A property is in the frame's map exactly when some slot carries its id |
| `FrameOrder.Compare` | Avalonia.Base/PropertyStore/ValueStore.cs:558-566 | The insertion comparer never answers "equal", and without overflow it is negative exactly when the existing frame is at least as weak as the new one |
| `FrameOrder.BinarySearch` | Avalonia.Base/PropertyStore/ValueStore.cs:185-192 | `List.BinarySearch` under that comparer stays in its range: a hit lies inside it, a miss complements a point between its bounds |
| `FrameOrder.InsertionIndex` | Avalonia.Base/PropertyStore/ValueStore.cs:185-192 | The index `AddFrame` inserts at is always a valid insertion point of the frame list |
| `FrameOrder.BinarySearchSplits` | Avalonia.Base/PropertyStore/ValueStore.cs:185-192 | On a sorted list without overflow the search never reports a hit, and the index it returns has every frame before it at least as weak as the new one and every frame from it on strictly stronger |
| `FrameOrder.InsertionIndexSplits` | Avalonia.Base/PropertyStore/ValueStore.cs:185-192 | The insertion point splits the list: every frame before it is at least as weak as the new frame, every frame from it on is strictly stronger |
| `FrameOrder.InsertAt` | Avalonia.Base/PropertyStore/ValueStore.cs:190 | `List.Insert` puts the frame at the index and shifts the rest up by one, keeping their order |
| `FrameOrder.InsertKeepsOrder` | Avalonia.Base/PropertyStore/ValueStore.cs:185-192 | Inserting at that point keeps the list sorted weakest-first, and the new frame lands after every frame of equal priority, so it outranks them |
| `FrameOrder.WrappedCompareMisorders` | Avalonia.Base/PropertyStore/ValueStore.cs:558-566 | For any two 32-bit priorities whose difference overflows, the comparer reports the reverse of their order, so a frame added beside one frame lands on its strong side exactly when it is weaker |
| `Properties.Register` | Avalonia.Base/AvaloniaProperty.cs:32-52 | A name containing a period is refused without taking an id; otherwise an id is consumed, and the property exists exactly when the validator accepts the default, with that id, name, owner, metadata and no overrides |
| `Properties.AddOwner` | Avalonia.Base/StyledPropertyBase.cs:54-58 | An added-owner copy keeps the id, `Inherits` flag and default metadata, starts with no metadata of its own on the slow lookup path, and loses the validator and `HasCoercion` |
| `Properties.EqualityIsIdentity` | Avalonia.Base/AvaloniaProperty.cs:128-153 | Property equality is reflexive, symmetric and transitive, agrees with the hash code, treats an added-owner copy as its source, and equates null only with null |
| `Properties.ResolveWithoutOverrides` | Avalonia.Base/AvaloniaProperty.cs:299-307 | While a property has no overrides every type resolves to the default metadata, which justifies the fast path |
| `Properties.GetMetadataWithOverrides` | Avalonia.Base/AvaloniaProperty.cs:358-387 | The walk up the base types yields the metadata of the nearest type that has some, caches it for the requested type, and keeps every cached lookup correct |
| `Properties.ResolveIgnoresCache` | Avalonia.Base/AvaloniaProperty.cs:358-387 | What a type resolves to depends on the stored metadata only, never on the lookup cache |
| `Properties.GetMetadata` | Avalonia.Base/AvaloniaProperty.cs:299-307 | Metadata lookup, on either path, yields the metadata of the nearest overriding base type; without overrides it changes nothing and returns the default |
| `Properties.OverrideMetadataBase` | Avalonia.Base/AvaloniaProperty.cs:342-356 | A type that already has metadata is refused and nothing changes; otherwise the metadata is recorded, the cache is cleared and the fast path is left |
| `Properties.OverrideMetadata` | Avalonia.Base/StyledPropertyBase.cs:148-162 | A default the validator refuses is rejected before any change; `HasCoercion` is raised before the base call, so it stays raised even when that call refuses the type; success exactly when both checks pass |
| `Properties.OverrideDefaultValue` | Avalonia.Base/StyledPropertyBase.cs:128-131 | Overriding the default is an override whose metadata carries only that default and no coercion |
| `Properties.HasCoercionMonotone` | Avalonia.Base/StyledPropertyBase.cs:148-162 | `HasCoercion` never falls, and an accepted override with a coercion function raises it |
| `Properties.OverrideResolves` | Avalonia.Base/AvaloniaProperty.cs:342-356 | A successful override keeps every cached lookup correct, and the overridden type now resolves to the new metadata |
| `Properties.CoerceValue` | Avalonia.Base/StyledPropertyBase.cs:79-89 | Coercion returns the base value untouched when the instance type's metadata has no coercion function, and that function's result otherwise |
| `Properties.GetDefaultValue` | Avalonia.Base/StyledPropertyBase.cs:96-99 | A type's default value is the default of the metadata that type resolves to |
| `LocalValueEntries.Create` | Avalonia.Base/PropertyStore/LocalValueEntry.cs:14-18 | A new local entry is for the given property and has no value and no subscription |
| `LocalValueEntries.SetValue` | Avalonia.Base/PropertyStore/LocalValueEntry.cs:51-60 | After setting, the entry reads the value; the store is told, with the old value, exactly when the observable value changed |
| `LocalValueEntries.ClearValue` | Avalonia.Base/PropertyStore/LocalValueEntry.cs:31-43 | Clearing empties the entry; it asks to leave its frame exactly when no binding is live, and reports a change exactly when it had a value |
| `LocalValueEntries.AddBinding` | Avalonia.Base/PropertyStore/LocalValueEntry.cs:24-29 | A new binding replaces the old one: the previous subscription is disposed before the new source is subscribed, so one stays live |
| `LocalValueEntries.BindingCompleted` | Avalonia.Base/PropertyStore/LocalValueEntry.cs:85-89 | When its binding ends the entry holds no subscription and no value and always asks to leave its frame |
| `LocalValueEntries.Dispose` | Avalonia.Base/PropertyStore/LocalValueEntry.cs:45-49 | Disposal disposes the live subscription first and then ends like a completed binding |
| `LocalValueEntries.OnNext` | Avalonia.Base/PropertyStore/LocalValueEntry.cs:77-83 | A notification carrying a value sets it, a binding error clears, any other valueless notification changes nothing |
| `LocalValueEntries.CompletionRemovesEntry` | Avalonia.Base/PropertyStore/LocalValueEntry.cs:74-75 | Completion, error and disposal all leave the entry empty and unsubscribed, ask for its removal, and report a change exactly when it had a value |
| `LocalValueEntries.SetThenClear` | Avalonia.Base/PropertyStore/LocalValueEntry.cs:31-43 | Setting a value and then clearing it with no binding live asks for removal and reports the value that was set |
| `LocalValueFrames.Existing` | NonBoxingValueStore/PropertyStore/LocalValueFrame.cs:17-29 | The property's entry is the one the frame already holds, untouched; or, when it has none, a new empty entry under a fresh id added to the frame for exactly that property |
| `LocalValueFrames.SetValue` | NonBoxingValueStore/PropertyStore/LocalValueFrame.cs:33-44 | Afterwards the frame holds an entry for the property that reads the value, reused when it existed, new otherwise; no other entry changes; a change is reported exactly unless the existing entry already held the value |
| `LocalValueFrames.AddBinding` | NonBoxingValueStore/PropertyStore/LocalValueFrame.cs:17-29 | The property's entry (existing, or new and empty) is subscribed to the source, its previous subscription replaced; no other entry changes |
| `LocalValueFrames.ClearValue` | NonBoxingValueStore/PropertyStore/LocalValueFrame.cs:31 | Clearing drops the property's entry from the frame and reports whether it had one |
| `LocalValueFrames.SetValueReusesEntry` | NonBoxingValueStore/PropertyStore/LocalValueFrame.cs:33-44 | Setting a property twice reuses the entry the first call created, so the frame keeps one entry per property |
| `BindingEntries.Create` | Avalonia.Base/PropertyStore/BindingEntry.cs:21-29 | A new binding entry is for the given property, source and priority, unowned, unsubscribed and without a value |
| `BindingEntries.Values` | Avalonia.Base/PropertyStore/BindingEntry.cs:40-52 | A binding entry is a frame whose only value is itself |
| `BindingEntries.SetOwner` | Avalonia.Base/PropertyStore/BindingEntry.cs:60 | Setting the owner changes nothing else |
| `BindingEntries.StartIfNecessary` | Avalonia.Base/PropertyStore/BindingEntry.cs:122-131 | An unsubscribed entry installs a placeholder before subscribing to its source; an entry with a subscription or placeholder does nothing |
| `BindingEntries.SubscribeReturned` | Avalonia.Base/PropertyStore/BindingEntry.cs:122-131 | When `Subscribe` returns, its result becomes the live subscription and nothing else changes |
| `BindingEntries.TryGetValue` | Avalonia.Base/PropertyStore/BindingEntry.cs:62-74 | Reading yields the entry's current value, leaves it subscribed, and subscribes to the source exactly when the entry was not yet subscribed |
| `BindingEntries.SetValue` | Avalonia.Base/PropertyStore/BindingEntry.cs:111-120 | The entry afterwards holds the value; an owning store is told, with the old value, exactly when presence or value changed |
| `BindingEntries.ClearValue` | Avalonia.Base/PropertyStore/BindingEntry.cs:97-109 | Without a subscription the entry keeps its value and asks its owner to remove it; otherwise it drops the value and an owner is told exactly when there was one |
| `BindingEntries.OnNext` | Avalonia.Base/PropertyStore/BindingEntry.cs:89-95 | A notification with a value sets it; any valueless notification clears |
| `BindingEntries.BindingCompleted` | Avalonia.Base/PropertyStore/BindingEntry.cs:133-137 | After completion the entry is unsubscribed, keeps its value, and (when owned) asks to be removed with that value |
| `BindingEntries.Dispose` | Avalonia.Base/PropertyStore/BindingEntry.cs:54-58 | Disposal disposes a live subscription and then takes the completion path |
| `BindingEntries.SubscribesOnce` | Avalonia.Base/PropertyStore/BindingEntry.cs:122-131 | Over any run of reads (re-entrant ones included), values and the return of `Subscribe`, an entry subscribes at most once, and never once a subscription or placeholder is in place |
| `BindingEntries.CountSubscribesAppend` | Avalonia.Base/PropertyStore/BindingEntry.cs:122-131 | Subscriptions counted over two runs of calls add up |
| `BindingEntries.CompletionRemovesEntry` | Avalonia.Base/PropertyStore/BindingEntry.cs:86-87 | Completion and error both ask the owning store to remove the entry with the value it last had; disposal leaves it unsubscribed and asks the same |
| `PrototypeLocalEntries.Create` | NonBoxingValueStore/PropertyStore/LocalValueEntry.cs:23-28 | A new prototype local entry is for its property and has no value and no subscription |
| `PrototypeLocalEntries.TryGetValue` | NonBoxingValueStore/PropertyStore/LocalValueEntry.cs:54-64 | Reading succeeds exactly when the entry has a value, and yields it (or the default) |
| `PrototypeLocalEntries.SetValue` | NonBoxingValueStore/PropertyStore/LocalValueEntry.cs:45-52 | The entry holds the value afterwards and asks for re-evaluation exactly when it changed |
| `PrototypeLocalEntries.ClearValue` | NonBoxingValueStore/PropertyStore/LocalValueEntry.cs:30-37 | The entry is empty afterwards and asks for re-evaluation exactly when it had a value |
| `PrototypeLocalEntries.AddBinding` | NonBoxingValueStore/PropertyStore/LocalValueEntry.cs:23-28 | A new binding disposes the previous subscription, if any, then subscribes to the new source |
| `PrototypeLocalEntries.Dispose` | NonBoxingValueStore/PropertyStore/LocalValueEntry.cs:39-43 | Disposal disposes the live subscription, then clears the value |
| `PrototypeLocalEntries.OnCompleted` | NonBoxingValueStore/PropertyStore/LocalValueEntry.cs:78-79 | Completion and error only clear the value; unlike the main store's entry nothing asks to leave the frame |
| `PrototypeLocalEntries.OnNextTyped` | NonBoxingValueStore/PropertyStore/LocalValueEntry.cs:81-87 | A `BindingValue` with a value sets it, a binding error clears, anything else is ignored |
| `PrototypeLocalEntries.OnNextObject` | BoxingValueStore/PropertyStore/LocalValueEntry.cs:68-76 | A pushed `DoNothing` is ignored, `UnsetValue` clears, any other object sets |
| `PrototypeLocalEntries.ChangeReported` | BoxingValueStore/PropertyStore/LocalValueEntry.cs:29-51 | Setting or clearing asks for re-evaluation exactly when what `TryGetValue` answers changes, and doing it again changes nothing |
| `BoxedBindingEntries.Create` | BoxingValueStore/PropertyStore/BindingEntry.cs:17-27 | A new boxing binding entry holds `UnsetValue`, is unsubscribed and unowned, and carries its property, source and priority |
| `BoxedBindingEntries.SetOwner` | BoxingValueStore/PropertyStore/BindingEntry.cs:49 | Setting the owner changes nothing else |
| `BoxedBindingEntries.TryGetValue` | BoxingValueStore/PropertyStore/BindingEntry.cs:51-56 | Reading subscribes on first use only, returns the stored object, and succeeds exactly when that object is not `UnsetValue` |
| `BoxedBindingEntries.SetValue` | BoxingValueStore/PropertyStore/BindingEntry.cs:79-86 | The entry stores the object and asks its owner to re-evaluate exactly when the object differs from the stored one |
| `BoxedBindingEntries.OnNext` | BoxingValueStore/PropertyStore/BindingEntry.cs:71-77 | A notification with a value stores it; any valueless one stores `UnsetValue` |
| `BoxedBindingEntries.Dispose` | BoxingValueStore/PropertyStore/BindingEntry.cs:43-47 | Disposal disposes a live subscription and asks an owner to remove the entry, leaving the entry's state as it was |
| `BoxedBindingEntries.OnCompleted` | BoxingValueStore/PropertyStore/BindingEntry.cs:68-69 | Completion and error both dispose the entry |
| `BoxedBindingEntries.ObservableChanges` | BoxingValueStore/PropertyStore/BindingEntry.cs:71-86 | An owned entry asks for re-evaluation exactly when what `TryGetValue` answers changes, and only the first read subscribes |
| `ChangeArgs.Create` | BoxingValueStore/AvaloniaPropertyChangedEventArgs.cs:13-26 | New change arguments carry exactly the given sender, property, values and priority and count as an effective-value change |
| `ChangeArgs.Initialize` | BoxingValueStore/AvaloniaPropertyChangedEventArgs.cs:76-89 | Re-initialising a recycled object gives it the same contents a new one would have, under its old identity |
| `ChangeArgs.MarkNonEffectiveValue` | BoxingValueStore/AvaloniaPropertyChangedEventArgs.cs:73 | Marking clears the effective-value flag and nothing else |
| `ChangeArgs.Recycle` | BoxingValueStore/AvaloniaPropertyChangedEventArgs.cs:91-96 | Recycling drops the sender, property and both values and keeps the identity, priority and flag |
| `ChangeArgs.Get` | BoxingValueStore/AvaloniaPropertyChangedEventArgsPool.cs:18-27 | An empty pool yields a fresh object; otherwise the top object is popped and re-initialised; either way it carries exactly the given arguments, and the pool stays bounded and recycled |
| `ChangeArgs.Release` | BoxingValueStore/AvaloniaPropertyChangedEventArgsPool.cs:30-37 | A released object is recycled and pushed while the pool holds fewer than its maximum, and dropped otherwise; the bound is kept |
| `ChangeArgs.ReleaseThenGetReuses` | BoxingValueStore/AvaloniaPropertyChangedEventArgsPool.cs:18-37 | Releasing and then getting hands back the same object with the new arguments and none of the old, and the pool returns to its former state |
| `Controls.RemoveFirst` | Avalonia.Base/Controls/Control.cs:29-31 | `List.Remove` drops one occurrence of the child when present and leaves every other element |
| `Controls.RemoveFirstNoDuplicates` | Avalonia.Base/Controls/Control.cs:29-31 | Removing a child from a duplicate-free list removes it entirely |
| `Controls.Detach` | Avalonia.Base/Controls/Control.cs:29-31 | Detaching removes the control from its old parent's child list and changes no other list or parent |
| `Controls.Attach` | Avalonia.Base/Controls/Control.cs:32 | Attaching sets the control's parent and appends it to the new parent's child list, changing no other list or parent |
| `Controls.SetParent` | Avalonia.Base/Controls/Control.cs:22-35 | Setting the parent reports a change exactly when the parent differs; then the control is detached and re-attached, otherwise nothing changes |
| `Controls.DetachLeavesDetached` | Avalonia.Base/Controls/Control.cs:29-31 | After detaching, a coherent tree lists the control in no child list |
| `Controls.AttachCoherent` | Avalonia.Base/Controls/Control.cs:32 | Attaching a detached control keeps the tree coherent |
| `Controls.SetParentCoherent` | Avalonia.Base/Controls/Control.cs:22-35 | After a parent change every control's parent lists it exactly once, the control appears in its new parent's list and in no other, and no list has a duplicate |
| `Controls.InheritanceChild` | Avalonia.Base/Controls/Control.cs:46-47 | The store's inheritance children are the control's child list, element by element |
| `Setters.Instance` | Avalonia.Base/Styling/Setter.cs:24-38 | A setter without a property fails; a binding-valued setter yields a new per-target binding instance; a constant yields the setter itself exactly when the value suits the property, and an invalid-value error otherwise |
| `Setters.TryGetValue` | Avalonia.Base/Styling/Setter.cs:40-44 | A constant setter always has a value, the one it was written with |
| `SetterBindings.Create` | Avalonia.Base/Styling/SetterBindingInstance.cs:15-20 | A new setter binding instance has not initiated its binding and holds `UnsetValue` |
| `SetterBindings.Start` | Avalonia.Base/Styling/SetterBindingInstance.cs:70-77 | The binding is initiated against the owning store's object once; later starts do nothing; without a store the dereference fails |
| `SetterBindings.TryGetValue` | Avalonia.Base/Styling/SetterBindingInstance.cs:33-47 | Without a store the read throws; a finished instance reports no value without starting; otherwise it succeeds exactly when the stored object is a value, and yields it |
| `SetterBindings.HasValueAsWritten` | Avalonia.Base/Styling/SetterBindingInstance.cs:22-29 | As written, `HasValue` is true whenever the stored object is not `UnsetValue`, the finished sentinel included |
| `SetterBindings.HasValue` | Avalonia.Base/Styling/SetterBindingInstance.cs:22-29 | Corrected `HasValue`: true exactly when the stored object is a value, neither sentinel |
| `SetterBindings.OnNext` | Avalonia.Base/Styling/SetterBindingInstance.cs:57-68 | A pushed object is stored, and an owning store is told the property changed, with the old object |
| `SetterBindings.OnCompleted` | Avalonia.Base/Styling/SetterBindingInstance.cs:49-55 | Completion and error store the finished sentinel and change nothing else |
| `SetterBindings.HasValueAgreesWithTryGetValue` | Avalonia.Base/Styling/SetterBindingInstance.cs:22-47 | With a store present, the corrected `HasValue` is true exactly when `TryGetValue` yields a value |
| `SetterBindings.FinishedInstanceClaimsValue` | Avalonia.Base/Styling/SetterBindingInstance.cs:22-29 | After completion, `HasValue` as written answers true while `TryGetValue` yields nothing; the corrected `HasValue` answers false |
| `SetterBindings.InitiatedOnce` | Avalonia.Base/Styling/SetterBindingInstance.cs:70-77 | Once initiated, neither reads nor pushed values initiate the binding again |
| `StyleInstances.Create` | Avalonia.Base/Styling/StyleInstance.cs:14-19 | An instance with an activator sits at the `StyleTrigger` tier and starts inactive; one without sits at the `Style` tier and is active; it starts empty, unowned and unsubscribed |
| `StyleInstances.ReadActive` | Avalonia.Base/Styling/StyleInstance.cs:21-33 | Reading the activity subscribes to the activator on the first read only and returns the current activity |
| `StyleInstances.SetOwner` | Avalonia.Base/Styling/StyleInstance.cs:40 | Setting the owner changes nothing else |
| `StyleInstances.Add` | Avalonia.Base/Styling/StyleInstance.cs:39 | Adding an entry fails exactly when the property already has one; otherwise exactly that entry is added |
| `StyleInstances.OnNext` | Avalonia.Base/Styling/StyleInstance.cs:42-49 | The activator's signal sets the activity, and an owning store hears of it exactly when it changed |
| `StyleInstances.SubscribesOnce` | Avalonia.Base/Styling/StyleInstance.cs:21-33 | After the first read no read subscribes again, and reading never changes the activity |
| `StyleInstances.EdgeTriggered` | Avalonia.Base/Styling/StyleInstance.cs:42-49 | Repeating a signal is silent, a signal notifies exactly when it changes the activity, and toggling twice notifies twice and restores the instance |
| `Styles.InstanceSetters` | Avalonia.Base/Styling/Style.cs:34-45 | Instancing the setters succeeds exactly when every setter instances and no two share a property; the frame then gains exactly the setters' properties, and reports in-place exactly when every setter was a constant |
| `Styles.InstanceSettersEntries` | Avalonia.Base/Styling/Style.cs:34-45 | The built frame holds each constant setter under its own entry and each new binding instance, numbered in setter order, under its property |
| `Styles.InstanceAsWritten` | Avalonia.Base/Styling/Style.cs:24-51 | As written: no selector match gives nothing; a cached instance is reused; otherwise a new one is built and cached whenever every setter was a constant, even when the match carried a per-target activator |
| `Styles.Instance` | Avalonia.Base/Styling/Style.cs:24-51 | Corrected: as above, except only an instance without an activator is cached; a new instance carries the match's activator and exactly the setters' properties |
| `Styles.SharedInstanceIsUnconditional` | Avalonia.Base/Styling/Style.cs:31-32 | Under the corrected rule the cache only ever holds unconditional instances, so a reused instance never carries another target's trigger |
| `Styles.SharedTriggerCounterexample` | Avalonia.Base/Styling/Style.cs:47-48 | As written, a style of constant setters matched with an activator caches that instance and hands it, trigger and all, to a second target with a different activator |
| `Styles.PrototypeInstance` | NonBoxingValueStore/Styling/Style.cs:25-46 | The prototype reuses its cached instance, or builds an always-active `Style`-tier instance holding exactly the setters' properties, cached exactly when every setter was a constant |
| `Arena.ReadObject` | Avalonia.Base/PropertyStore/ValueStore.cs:528-556 | Reading an entry as an object: an entry that has a value yields a boxed value, and the finished sentinel never leaks out |
| `Arena.ReadTyped` | Avalonia.Base/PropertyStore/ValueStore.cs:528-556 | Reading an entry typed agrees with reading it as an object whenever that yields a value |
| `Arena.ChainFrom` | Avalonia.Base/PropertyStore/InheritanceFrame.cs:19-32 | The walk up the inheritance frames starts at the given frame and visits only inheritance frames, none of them already visited |
| `Arena.ChainFromWalksParents` | Avalonia.Base/PropertyStore/InheritanceFrame.cs:19-32 | Each frame of the walk is followed by its own parent, and no frame appears twice |
| `Arena.ChainFromStable` | Avalonia.Base/PropertyStore/InheritanceFrame.cs:19-32 | Arenas that keep every inheritance frame's kind and parent (and whose parents resolve) give the same chain, however many other frames are added |
| `Arena.FirstHoldingSpec` | Avalonia.Base/PropertyStore/InheritanceFrame.cs:19-32 | `TryGetFromThisOrAncestor` finds nothing exactly when no frame of the chain holds the property; otherwise it returns what the nearest frame holding it stores |
| `Arena.SetParent` | Avalonia.Base/PropertyStore/InheritanceFrame.cs:34 | Re-parenting an inheritance frame changes its parent only, keeping its owner and entries |
| `Arena.SetInheritedValue` | Avalonia.Base/PropertyStore/InheritanceFrame.cs:35 | Recording an inherited entry changes that property in this frame only, keeping its owner and parent |
| `Evaluation.Layers` | Avalonia.Base/PropertyStore/ValueStore.cs:252-272 | The store's frames are scanned in list order, each read as its priority, activity and entries |
| `Evaluation.MapCandidates` | Avalonia.Base/PropertyStore/ValueStore.cs:259-268 | A frame's entries are scanned in storage order, each with its property and whether it has a value |
| `Evaluation.HitOfFrame` | Avalonia.Base/PropertyStore/ValueStore.cs:252-272 | A frame decides a property exactly when it is active and holds an entry with a value for it, and then wins at its own priority |
| `Evaluation.FirstPresentOfFrame` | Avalonia.Base/PropertyStore/ValueStore.cs:259-268 | Scanning a frame's entries finds the entry the frame holds for the property, when that entry has a value |
| `Cascade.FirstPresent` | Avalonia.Base/PropertyStore/ValueStore.cs:259-268 | A frame yields nothing for a property exactly when none of its entries for it has a value |
| `Cascade.FirstPresentIsFirst` | Avalonia.Base/PropertyStore/ValueStore.cs:259-268 | The entry a frame yields is the first one for the property that has a value |
| `Cascade.ScanLayersSpec` | Avalonia.Base/PropertyStore/ValueStore.cs:252-272 | The frame scan finds nothing exactly when no active frame supplies the property; otherwise the winner comes, at its frame's priority, from an active supplying frame with no supplying active frame after it |
| `Cascade.ScanLayersNone` | Avalonia.Base/PropertyStore/ValueStore.cs:252-272 | The frame scan finds nothing exactly when no active frame supplies the property |
| `Cascade.ScanLayersSome` | Avalonia.Base/PropertyStore/ValueStore.cs:252-272 | A winner of the frame scan comes from the strongest active frame that supplies the property |
| `Cascade.ScanChain` | Avalonia.Base/PropertyStore/ValueStore.cs:274-303 | The inheritance walk finds nothing exactly when no frame of the chain supplies the property, and any winner it finds is at the `Inherited` tier |
| `Cascade.ScanChainWitness` | Avalonia.Base/PropertyStore/ValueStore.cs:274-303 | The inherited winner is an entry some frame of the chain supplies |
| `Cascade.Evaluate` | Avalonia.Base/PropertyStore/ValueStore.cs:247-304 | Evaluation takes the frame scan's winner when there is one; otherwise an inheriting property falls back to the chain, and any other has no value |
| `Cascade.HitOf` | Avalonia.Base/PropertyStore/ValueStore.cs:255-268 | A frame contributes a winner exactly when it is active and supplies the property |
| `Cascade.ScanPointwise` | Avalonia.Base/PropertyStore/ValueStore.cs:252-272 | Two frame lists whose frames decide a property alike, position by position, evaluate it alike |
| `Cascade.ScanInsertMiss` | Avalonia.Base/PropertyStore/ValueStore.cs:185-192 | Inserting, anywhere, a frame that does not supply a property leaves that property's evaluation unchanged |
| `Cascade.ScanSuffixDecides` | Avalonia.Base/PropertyStore/ValueStore.cs:252-272 | Once a frame supplies the property, only that frame and the stronger frames after it matter |
| `Cascade.ScanAboveTier` | Avalonia.Base/PropertyStore/ValueStore.cs:252-272 | On a list sorted weakest-first, a winner stronger than a tier is undisturbed by changes confined to frames of that tier or weaker |
| `Cascade.ChainPointwise` | Avalonia.Base/PropertyStore/ValueStore.cs:274-303 | Two inheritance chains whose frames yield the same entry, frame by frame, inherit the same winner |
| `Cascade.LookupAppend` | Avalonia.Base/PropertyStore/ValueStore.cs:308-357 | In the batch pass's dictionary the first entry added under a key is the one that stays |
| `Cascade.LookupNoneMeansAbsent` | Avalonia.Base/PropertyStore/ValueStore.cs:308-357 | The batch dictionary has no entry for a key exactly when none was added under it |
| `Cascade.CollectFrameLookup` | Avalonia.Base/PropertyStore/ValueStore.cs:318-329 | Sweeping one frame adds, for each property not yet decided, the frame's first entry with a value, at the frame's priority |
| `Cascade.CollectLayersLookup` | Avalonia.Base/PropertyStore/ValueStore.cs:311-330 | Sweeping the frames decides every undecided property exactly as the single-property frame scan would |
| `Cascade.CollectChainLookup` | Avalonia.Base/PropertyStore/ValueStore.cs:332-353 | Sweeping the inheritance chain decides every undecided property exactly as the single-property chain walk would |
| `Cascade.ChainOnlyInheriting` | Avalonia.Base/PropertyStore/ValueStore.cs:332-353 | A chain holding only inheriting properties never supplies a non-inheriting one |
| `Cascade.RebuildAgreesWithEvaluate` | Avalonia.Base/PropertyStore/ValueStore.cs:306-357 | The batch rebuild maps every property to exactly the winner single-property evaluation finds, and omits exactly the properties it finds none for |
| `Cascade.CollectLayersDistinct` | Avalonia.Base/PropertyStore/ValueStore.cs:311-330 | The frame sweep adds each property at most once |
| `Cascade.RebuildDistinct` | Avalonia.Base/PropertyStore/ValueStore.cs:306-357 | The rebuilt dictionary never holds a property twice, so its `Add` never throws |
| `Cascade.ToCache` | Avalonia.Base/PropertyStore/ValueStore.cs:355-357 | The installed cache holds exactly the rebuilt properties, each mapped to its winning entry |
| `Cascade.Substitute` | Avalonia.Base/PropertyStore/ValueStore.cs:479-497 | `UnsetValue` becomes the default before values are compared; any other object is kept |
| `Cascade.RaiseUntyped` | Avalonia.Base/PropertyStore/ValueStore.cs:479-497 | At most one notification, raised exactly when old and new differ after substituting the default, carrying both at the given priority |
| `Cascade.MentionsAppend` | Avalonia.Base/PropertyStore/ValueStore.cs:359-402 | A property is notified by two batches of notices exactly when one of them notifies it |
| `Cascade.NewNoticesSpec` | Avalonia.Base/PropertyStore/ValueStore.cs:359-379 | After a rebuild a registered property with a winner is notified exactly when its old entry's current value (or unset) differs from the winner's after substitution, at the winner's priority |
| `Cascade.StaleNoticesSpec` | Avalonia.Base/PropertyStore/ValueStore.cs:383-402 | A registered property that lost its value is notified, reverting to the default at the `Unset` tier, exactly when its old entry's value differs from that default |
| `BoxedCascade.LocalReadings` | BoxingValueStore/PropertyStore/ValueStore.cs:172-186 | The boxing local frame's entries are read in storage order, one reading per entry |
| `BoxedCascade.FirstValue` | BoxingValueStore/PropertyStore/ValueStore.cs:174-186 | A frame yields nothing for a property exactly when none of its entries for it has a value; any value it yields is one of those entries' |
| `BoxedCascade.LocalOffer` | BoxingValueStore/PropertyStore/ValueStore.cs:172-186 | The local frame offers exactly the value its entry for the property holds, if any |
| `BoxedCascade.BindingOffer` | BoxingValueStore/PropertyStore/BindingEntry.cs:51-56 | A binding frame offers a value only for its own property, and only when it does not hold `UnsetValue` |
| `BoxedCascade.ScanNone` | BoxingValueStore/PropertyStore/ValueStore.cs:160-192 | The boxing scan finds nothing exactly when no active frame supplies a value for the property |
| `BoxedCascade.ScanWinner` | BoxingValueStore/PropertyStore/ValueStore.cs:160-192 | A value found by the scan is the one the strongest supplying frame offers, at that frame's priority |
| `BoxedCascade.ScanTopmost` | BoxingValueStore/PropertyStore/ValueStore.cs:160-192 | The strongest supplying frame always decides the scan |
| `BoxedCascade.ScanSpec` | BoxingValueStore/PropertyStore/ValueStore.cs:160-192 | The scan finds nothing exactly when no frame supplies the property, and otherwise the value and priority of the strongest frame that does |
| `BoxedCascade.ScanSnoc` | BoxingValueStore/PropertyStore/ValueStore.cs:165-187 | Adding a stronger frame on top: it decides the property when it supplies it, otherwise the scan is as before |
| `BoxedCascade.ScanPointwise` | BoxingValueStore/PropertyStore/ValueStore.cs:160-192 | Two frame lists whose frames agree on a property, position by position, scan it alike |
| `BoxedCascade.ScanInsertMiss` | BoxingValueStore/PropertyStore/ValueStore.cs:132-139 | Inserting, anywhere, a frame that does not supply a property leaves its scan unchanged |
| `BoxedCascade.RemoveAt` | BoxingValueStore/PropertyStore/ValueStore.cs:128 | `List.Remove` of a frame keeps the frames before it and shifts the later ones down by one |
| `BoxedCascade.ScanRemoveMiss` | BoxingValueStore/PropertyStore/ValueStore.cs:126-130 | Removing a frame that does not supply a property leaves its scan unchanged |
| `BoxedCascade.LookupAppend` | BoxingValueStore/PropertyStore/ValueStore.cs:212-217 | In the batch dictionary the first value added under a key stays |
| `BoxedCascade.LookupNoneMeansAbsent` | BoxingValueStore/PropertyStore/ValueStore.cs:212-217 | The batch dictionary lacks a key exactly when nothing was added under it |
| `BoxedCascade.CollectFrameLookup` | BoxingValueStore/PropertyStore/ValueStore.cs:206-218 | Sweeping one frame adds, for each property not yet decided, the frame's first value for it, at the frame's priority |
| `BoxedCascade.CollectLookup` | BoxingValueStore/PropertyStore/ValueStore.cs:199-219 | Sweeping the frames decides every undecided property exactly as the targeted scan would |
| `BoxedCascade.CollectDistinct` | BoxingValueStore/PropertyStore/ValueStore.cs:199-219 | The sweep adds each property at most once, so its `Add` calls never throw |
| `BoxedCascade.Rebuild` | BoxingValueStore/PropertyStore/ValueStore.cs:194-223 | The rebuilt dictionary has distinct keys and holds, for every property, exactly what the targeted scan finds |
| `BoxedCascade.Install` | BoxingValueStore/PropertyStore/ValueStore.cs:221-223 | The installed dictionary holds exactly the rebuilt properties with their values |
| `BoxedCascade.Raise` | BoxingValueStore/PropertyStore/ValueStore.cs:267-277 | At most one notification, raised exactly when old and new values differ, carrying both at the given priority |
| `BoxedCascade.NewNoticesSpec` | BoxingValueStore/PropertyStore/ValueStore.cs:225-241 | After a rebuild a registered property with a value is notified exactly when that value differs from its old one (or the default), at its frame's priority |
| `BoxedCascade.StaleNoticesSpec` | BoxingValueStore/PropertyStore/ValueStore.cs:243-259 | A registered property that lost its value is notified, reverting to the default at the `Unset` tier, exactly when its old value differs from that default |
| `BoxedStores.Empty` | BoxingValueStore/PropertyStore/ValueStore.cs:11-16 | A new boxing store has no frames, no styling in progress, and no effective value for any property |
| `BoxedStores.ReadsEffective` | BoxingValueStore/PropertyStore/ValueStore.cs:80-96 | In a consistent store `TryGetValue` answers what the scan finds, and `GetValue` that value or the default |
| `BoxedStores.IsSet` | BoxingValueStore/PropertyStore/ValueStore.cs:98-114 | `IsSet` is true exactly when some frame, active or not, has an entry with a value for the property |
| `BoxedStores.EffectiveIsSet` | BoxingValueStore/PropertyStore/ValueStore.cs:98-114 | A property with an effective value is set; the converse fails for entries of inactive frames |
| `BoxedStores.Owned` | BoxingValueStore/PropertyStore/ValueStore.cs:138 | Handing a frame its owner changes what it offers in no way, and marks a binding entry owned |
| `BoxedStores.AddFrame` | BoxingValueStore/PropertyStore/ValueStore.cs:132-139 | A frame is inserted, owned, at the point the binary search under the frame comparer finds |
| `BoxedStores.AddFrameSorted` | BoxingValueStore/PropertyStore/ValueStore.cs:279-287 | Without overflow, adding keeps the frames sorted weakest-first and places the new frame after every frame of its own priority |
| `BoxedStores.AddFrameMiss` | BoxingValueStore/PropertyStore/ValueStore.cs:132-139 | Adding a frame that does not supply a property leaves that property's scan unchanged |
| `BoxedStores.LocalAt` | BoxingValueStore/PropertyStore/ValueStore.cs:13 | The store's `_localValues` is the one local frame in the list, or none when there is none |
| `BoxedStores.InsertWellFormed` | BoxingValueStore/PropertyStore/ValueStore.cs:132-139 | Inserting a second-to-none local frame, or an owned binding frame, keeps the frame list well formed |
| `BoxedStores.EnsureLocal` | BoxingValueStore/PropertyStore/ValueStore.cs:71-75 | Afterwards the store has a local frame: the existing one, or a new empty one added as a frame |
| `BoxedStores.EnsureLocalHarmless` | BoxingValueStore/PropertyStore/ValueStore.cs:71-75 | Creating the local frame keeps the list well formed and changes no property's scan |
| `BoxedStores.LocalEditOutside` | BoxingValueStore/PropertyStore/LocalValueEntry.cs:29-51 | Editing the local frame's entries for some properties leaves every other property's scan alone |
| `BoxedStores.Reevaluate` | BoxingValueStore/PropertyStore/ValueStore.cs:141-158 | Targeted re-evaluation caches what the scan finds for the property, leaves every other cached value alone, and raises one notification exactly when what `GetValue` reads moved, with old and new value |
| `BoxedStores.ReevaluateRepairs` | BoxingValueStore/PropertyStore/ValueStore.cs:141-158 | A dictionary that was right except at one property is right everywhere after re-evaluating it |
| `BoxedStores.ReevaluateAllConsistent` | BoxingValueStore/PropertyStore/ValueStore.cs:194-260 | The batch pass leaves the dictionary agreeing with the scan for every property, whatever it held before |
| `BoxedStores.ReevaluateAllReports` | BoxingValueStore/PropertyStore/ValueStore.cs:194-260 | The batch pass notifies a registered property exactly when what `GetValue` reads for it changed, and then with the old and new value and the new value's priority |
| `BoxedStores.BeginStyling` | BoxingValueStore/PropertyStore/ValueStore.cs:21 | Opening the styling bracket raises the counter and changes nothing else |
| `BoxedStores.ApplyStyle` | BoxingValueStore/PropertyStore/ValueStore.cs:23-29 | The style frame is added; outside a styling bracket the dictionary is then rebuilt, inside it nothing is re-evaluated or reported |
| `BoxedStores.EndStyling` | BoxingValueStore/PropertyStore/ValueStore.cs:37-41 | Closing the bracket lowers the counter, and the batch pass runs exactly when it reaches zero |
| `BoxedStores.StylingDeferred` | BoxingValueStore/PropertyStore/ValueStore.cs:21-41 | Styles applied inside a bracket report nothing and leave the dictionary until the bracket closes, after which the store is consistent with both styles added |
| `BoxedStores.SetStyleActive` | BoxingValueStore/PropertyStore/ValueStore.cs:121-124 | A style instance whose activity really changes triggers the batch pass and leaves the store consistent; a repeated signal changes nothing |
| `BoxedStores.ClearLocalValue` | BoxingValueStore/PropertyStore/ValueStore.cs:31-35 | Clearing a property the local frame does not hold changes nothing; otherwise its entry is removed from the local frame only and the property is re-evaluated |
| `BoxedStores.ClearLocalValueConsistent` | BoxingValueStore/PropertyStore/ValueStore.cs:31-35 | Clearing keeps the store consistent and well formed and leaves the local frame without an entry for the property |
| `BoxedStores.LocalEntry` | BoxingValueStore/PropertyStore/LocalValueFrame.cs:11-39 | The local frame's entry for a property: the existing one, or a new empty one |
| `BoxedStores.Requested` | BoxingValueStore/PropertyStore/ValueStore.cs:116-119 | The property an entry asked to re-evaluate, if it asked at all |
| `BoxedStores.Outward` | BoxingValueStore/PropertyStore/LocalValueEntry.cs:22-27 | The calls that leave the store are exactly the entry's subscriptions and disposals, in order |
| `BoxedStores.CarryLocal` | BoxingValueStore/PropertyStore/ValueStore.cs:116-119 | The changed entry is stored in the local frame, its calls on observables go out, and without a re-evaluation request the dictionary and notifications are untouched |
| `BoxedStores.CarryLocalConsistent` | BoxingValueStore/PropertyStore/ValueStore.cs:116-119 | Storing a local entry keeps the store consistent when the entry either asked for re-evaluation of its own property or left its value alone |
| `BoxedStores.SetLocalValue` | BoxingValueStore/PropertyStore/ValueStore.cs:69-78 | Afterwards the store has a local frame whose entry for the property holds the value |
| `BoxedStores.SetLocalValueConsistent` | BoxingValueStore/PropertyStore/ValueStore.cs:69-78 | Setting a local value keeps the store consistent, and `GetValue` then reads the value unless a stronger frame supplies the property |
| `BoxedStores.LocalNext` | BoxingValueStore/PropertyStore/LocalValueEntry.cs:68-76 | A pushed `DoNothing` changes neither the dictionary nor the notifications, and no notification leaves the store as a call |
| `BoxedStores.LocalCompleted` | BoxingValueStore/PropertyStore/LocalValueEntry.cs:65-66 | Completion or error of a local binding leaves the entry in the frame with no value |
| `BoxedStores.LocalDispose` | BoxingValueStore/PropertyStore/LocalValueEntry.cs:38-42 | Disposing a local entry disposes its live subscription and leaves it without a value |
| `BoxedStores.LocalNextConsistent` | BoxingValueStore/PropertyStore/LocalValueEntry.cs:68-76 | Any pushed object keeps the store consistent and well formed |
| `BoxedStores.LocalCompletedConsistent` | BoxingValueStore/PropertyStore/LocalValueEntry.cs:65-66 | Completion of a local binding keeps the store consistent and well formed |
| `BoxedStores.LocalDisposeConsistent` | BoxingValueStore/PropertyStore/LocalValueEntry.cs:38-42 | Disposal of a local entry keeps the store consistent and well formed |
| `BoxedStores.AddBinding` | BoxingValueStore/PropertyStore/ValueStore.cs:43-67 | A local-value binding goes to the local frame's entry, replacing its subscription; any other priority adds a new owned binding frame; either way the property's dictionary slot is re-evaluated |
| `BoxedStores.AddBindingConsistent` | BoxingValueStore/PropertyStore/ValueStore.cs:43-67 | Adding a binding at any priority keeps the store consistent and well formed |
| `BoxedStores.RemoveBindingEntry` | BoxingValueStore/PropertyStore/ValueStore.cs:126-130 | The binding frame is removed from the list and its property re-evaluated |
| `BoxedStores.RemoveWellFormed` | BoxingValueStore/PropertyStore/ValueStore.cs:128 | Removing a frame keeps the list well formed |
| `BoxedStores.RemoveBindingEntryConsistent` | BoxingValueStore/PropertyStore/ValueStore.cs:126-130 | Removing a binding entry keeps the store consistent and well formed |
| `BoxedStores.BindingNext` | BoxingValueStore/PropertyStore/BindingEntry.cs:71-86 | A binding's value (or `UnsetValue`) is stored in its frame without disturbing the list's length |
| `BoxedStores.BindingNextConsistent` | BoxingValueStore/PropertyStore/BindingEntry.cs:71-86 | A pushed binding value keeps the store consistent and well formed |
| `BoxedStores.BindingCompleted` | BoxingValueStore/PropertyStore/BindingEntry.cs:68-69 | A completed binding disposes a live subscription, and an owned entry is removed from the frame list |
| `BoxedStores.BindingCompletedConsistent` | BoxingValueStore/PropertyStore/BindingEntry.cs:68-69 | Completion removes exactly one frame and keeps the store consistent and well formed |
| `ValueStores.Announce` | Avalonia.Base/PropertyStore/ValueStore.cs:359-402 | Every notice of a pass is raised on the owner, one call per notice, in order |
| `ValueStores.Priorities` | Avalonia.Base/PropertyStore/ValueStore.cs:558-566 | The comparer reads each frame of the list by its priority, position by position |
| `ValueStores.SetOwner` | Avalonia.Base/PropertyStore/ValueStore.cs:185-192 | Handing a frame its owner touches neither the stores nor which frames and entries exist |
| `ValueStores.AddFrame` | Avalonia.Base/PropertyStore/ValueStore.cs:185-192 | The frame is inserted into this store's list at the binary-search insertion point for its priority; every other store, the property registry and the id counter stay as they were |
| `ValueStores.RemoveFrame` | Avalonia.Base/PropertyStore/ValueStore.cs:179-183 | Removing a frame that is not in the list changes nothing; removing one that is shortens the list by exactly one |
| `ValueStores.RemoveFrameSplits` | Avalonia.Base/PropertyStore/ValueStore.cs:179-183 | `List.Remove` cuts out the first occurrence and keeps everything before and after it in order |
| `ValueStores.IndexOf` | Avalonia.Base/PropertyStore/ValueStore.cs:179-183 | The position found holds the frame, and no earlier position does |
| `ValueStores.FrameChangedCalls` | Avalonia.Base/PropertyStore/ValueStore.cs:421-432 | Every inheritance child, in order, is told the new frame |
| `ValueStores.InheritedCalls` | Avalonia.Base/PropertyStore/ValueStore.cs:463-472 | Every inheritance child, in order, is told that the property's inherited value changed |
| `ValueStores.SetInheritanceFrame` | Avalonia.Base/PropertyStore/ValueStore.cs:421-432 | The store adopts the frame and nothing else in the world changes; each child is told about that frame |
| `ValueStores.SetInheritanceFrameValue` | Avalonia.Base/PropertyStore/ValueStore.cs:434-443 | Writing an inherited value changes only this store's inheritance frame, never the entries, the registry or the tree, and leaves every other store as it was |
| `StoreProofs.SetInheritanceFrameValueWrites` | Avalonia.Base/PropertyStore/ValueStore.cs:434-443 | Afterwards the store owns its inheritance frame and that frame maps the property to the entry: an owned frame is written in place with its parent and other properties kept, a borrowed one is replaced by a fresh frame over it holding only this property; every child is told the new frame |
| `ValueStores.InheritingEntries` | Avalonia.Base/PropertyStore/ValueStore.cs:194-213 | The frame seeded from the cache holds only inheriting properties, each under the entry the cache held for it |
| `ValueStores.GetInheritanceFrame` | Avalonia.Base/PropertyStore/ValueStore.cs:194-213 | An existing frame is returned and nothing changes; otherwise a fresh owned root frame is made, adopted by the store and inserted into its frame list |
| `ValueStores.RaiseTyped` | Avalonia.Base/PropertyStore/ValueStore.cs:499-526 | Raising a change never touches the cache or the entries and never calls out to a binding source |
| `StoreProofs.RaiseTypedNotifies` | Avalonia.Base/PropertyStore/ValueStore.cs:515-523 | The owner is notified exactly when the old and new values differ once a missing side takes the default, then with both values and the priority; no child hears of the inherited change before the owner's notification |
| `StoreProofs.RaiseTypedInherits` | Avalonia.Base/PropertyStore/ValueStore.cs:507-516 | A value won above the inherited tier by an entry, for an inheriting property of a store with an inheritance frame, is written to that frame and every child is told both the frame and the change; otherwise the arena is untouched and only the owner is notified |
| `ValueStores.EnsureLocalFrame` | Avalonia.Base/PropertyStore/ValueStore.cs:102-106 | Afterwards the store has a local frame; an existing one is reused and nothing changes; the entries stay as they were |
| `ValueStores.SetLocalValue` | Avalonia.Base/PropertyStore/ValueStore.cs:95-109 | Setting a local value fails with an invalid-value error exactly when the property's validator refuses the value, and otherwise keeps the set of stores; the read-back is stated by `OperationProofs.SetLocalValueReadsBack` |
| `ValueStores.ClearLocalValueAsWritten` | Avalonia.Base/PropertyStore/ValueStore.cs:90-93 | Clearing as written changes the local frame only: no store, cache or entry is touched (the frame's removal of the property is assumed; see Left out) |
| `ValueStores.ReevaluateAll` | Avalonia.Base/PropertyStore/ValueStore.cs:306-403 | The batch pass installs the rebuilt dictionary as the cache and changes nothing else |
| `ValueStores.IsSet` | Avalonia.Base/PropertyStore/ValueStore.cs:125-141 | A property is set exactly when some frame of the store, active or not, holds an entry for it that has a value |
| `ValueStores.AnySupplies` | Avalonia.Base/PropertyStore/ValueStore.cs:125-141 | The scan from the strongest frame down finds a supplying frame exactly when one exists |
| `ValueStores.InheritedValueChangedAt` | Avalonia.Base/PropertyStore/ValueStore.cs:453-461 | The call fails with a null-reference error exactly when the store has no inheritance frame |
| `StoreProofs.InheritFramesKept` | Avalonia.Base/PropertyStore/ValueStore.cs:194-213 | Inheritance frames that hold only inheriting properties keep doing so while they are carried over unchanged |
| `StoreProofs.ChainInherits` | Avalonia.Base/PropertyStore/ValueStore.cs:332-353 | The inheritance chain the batch pass sweeps supplies inheriting properties only |
| `StoreProofs.ReevaluateAllConsistent` | Avalonia.Base/PropertyStore/ValueStore.cs:306-403 | After the batch pass every property's cache slot holds exactly the entry single-property evaluation picks, and is empty when nothing wins |
| `StoreProofs.SetCacheTidy` | Avalonia.Base/PropertyStore/ValueStore.cs:405-419 | Replacing the cache keeps the store well formed and changes no property's evaluation |
| `StoreProofs.WinnerAboveInherited` | Avalonia.Base/PropertyStore/ValueStore.cs:434-443 | A winner stronger than `Inherited` stays the winner when only an inheritance-tier frame changes |
| `StoreProofs.OwnedWriteKeepsEvaluation` | Avalonia.Base/PropertyStore/ValueStore.cs:434-443 | Writing the winner into the store's own inheritance frame leaves every property's evaluation on this store unchanged |
| `StoreProofs.ForkWriteKeepsEvaluation` | Avalonia.Base/PropertyStore/ValueStore.cs:434-443 | Forking a borrowed inheritance frame to record the winner leaves every property's evaluation on this store unchanged |
| `StoreProofs.RaiseKeepsEvaluation` | Avalonia.Base/PropertyStore/ValueStore.cs:499-526 | Raising a change, including its write into the inheritance frame, changes no evaluation on this store |
| `StoreProofs.SameChainAfterFork` | Avalonia.Base/PropertyStore/ValueStore.cs:434-443 | The fork's parent is the borrowed frame, so the chain beyond the fork is the one walked before |
| `StoreProofs.SettleFound` | Avalonia.Base/PropertyStore/ValueStore.cs:235-245 | When a winner exists, the typed re-evaluation after its scan caches exactly that winner's entry and changes no other cache slot or evaluation |
| `StoreProofs.SettleMissing` | Avalonia.Base/PropertyStore/ValueStore.cs:235-245 | When nothing wins, the typed re-evaluation after its scan drops the property from the cache and changes no other cache slot or evaluation |
| `StoreProofs.WinnerKeyed` | Avalonia.Base/PropertyStore/ValueStore.cs:247-304 | The winning entry of a well-formed store exists and belongs to the property evaluated |
| `StoreProofs.OwnedWriteTidy` | Avalonia.Base/PropertyStore/ValueStore.cs:434-443 | Writing into an owned inheritance frame keeps the store well formed |
| `StoreProofs.ForkWriteTidy` | Avalonia.Base/PropertyStore/ValueStore.cs:434-443 | Forking a borrowed inheritance frame keeps the store well formed |
| `StoreProofs.ReevaluateTidy` | Avalonia.Base/PropertyStore/ValueStore.cs:235-245 | Re-evaluating one property keeps the store well formed |
| `StoreProofs.ReevaluateAgrees` | Avalonia.Base/PropertyStore/ValueStore.cs:235-245 | Re-evaluation makes the property's cache slot agree with its evaluation and leaves every other property's slot and evaluation as they were |
| `StoreProofs.RepairedConsistent` | Avalonia.Base/PropertyStore/ValueStore.cs:235-245 | A cache wrong at one property only is everywhere right once that property is repaired |
| `StoreProofs.ReevaluateRestores` | Avalonia.Base/PropertyStore/ValueStore.cs:235-245 | If the cache agrees everywhere except at the property, the typed re-evaluation makes it agree everywhere |
| `StoreProofs.ReevaluateUntypedAgrees` | Avalonia.Base/PropertyStore/ValueStore.cs:215-225 | The untyped re-evaluation repairs the property's slot the same way and touches nothing else |
| `StoreProofs.UpdatedCache` | Avalonia.Base/PropertyStore/ValueStore.cs:405-419 | The repaired cache holds the property's winner, or lacks the property when nothing wins, and is unchanged elsewhere |
| `StoreProofs.SetCacheRepairs` | Avalonia.Base/PropertyStore/ValueStore.cs:405-419 | Installing the repaired cache repairs the property and nothing else |
| `StoreProofs.ReevaluateUntypedRestores` | Avalonia.Base/PropertyStore/ValueStore.cs:215-225 | If the cache agrees everywhere except at the property, the untyped re-evaluation makes it agree everywhere |
| `Locality.EvaluateOutside` | Avalonia.Base/PropertyStore/ValueStore.cs:247-304 | A change confined to a set of properties, on a store whose frames and inheritance frame stay put, leaves the evaluation of every property outside the set unchanged |
| `Locality.FrameHitOutside` | Avalonia.Base/PropertyStore/ValueStore.cs:252-272 | Such a change leaves each frame's activity, and what it offers for any property outside the set, unchanged |
| `Locality.ChainIdsOutside` | Avalonia.Base/PropertyStore/InheritanceFrame.cs:19-32 | Such a change leaves the frames of the store's inheritance walk unchanged |
| `Locality.ChangedOnlyTransitive` | Avalonia.Base/PropertyStore/ValueStore.cs:247-304 | Two changes confined to the same properties compose into one |
| `Locality.SameReads` | Avalonia.Base/PropertyStore/ValueStore.cs:247-304 | Evaluation reads the store's frames, its inheritance frame, the arena and the registry, and nothing else of the store |
| `OperationProofs.AddFrameOrdered` | Avalonia.Base/PropertyStore/ValueStore.cs:185-192 | Inserting at the binary-search point keeps the frame list sorted weakest first |
| `OperationProofs.AddFrameTidy` | Avalonia.Base/PropertyStore/ValueStore.cs:185-192 | Adding a frame keeps the store well formed |
| `OperationProofs.AddFrameInheritFrames` | Avalonia.Base/PropertyStore/ValueStore.cs:185-192 | Adding a frame leaves every inheritance frame as it was |
| `OperationProofs.AddFrameKeeps` | Avalonia.Base/PropertyStore/ValueStore.cs:185-192 | Adding a frame that offers nothing keeps the store well formed, its cache and every evaluation |
| `OperationProofs.AddFrameEvaluate` | Avalonia.Base/PropertyStore/ValueStore.cs:185-192 | A frame that does not supply a property leaves that property's evaluation unchanged wherever it is inserted |
| `OperationProofs.AllocateLocalFrame` | Avalonia.Base/PropertyStore/ValueStore.cs:102-106 | The new local frame is empty, sits at the `LocalValue` tier and changes no evaluation |
| `OperationProofs.EnsureLocalFrameKeeps` | Avalonia.Base/PropertyStore/ValueStore.cs:102-106 | Creating the local frame on first use keeps the store well formed, its cache and every evaluation |
| `OperationProofs.ConsistentKept` | Avalonia.Base/PropertyStore/ValueStore.cs:111-116 | A step that keeps the cache and every evaluation keeps them in agreement |
| `OperationProofs.SetValueStep` | NonBoxingValueStore/PropertyStore/LocalValueFrame.cs:33-44 | Setting a value reuses or creates the property's entry and touches no other; it reports nothing exactly when nothing changed, and otherwise one value change for that property |
| `OperationProofs.SetValueStepConsistent` | Avalonia.Base/PropertyStore/ValueStore.cs:95-109 | Setting a value in the local frame and dispatching its change notification restores agreement everywhere |
| `OperationProofs.SetLocalValueConsistent` | Avalonia.Base/PropertyStore/ValueStore.cs:95-109 | A local value the validator accepts leaves the cache agreeing with evaluation for every property |
| `OperationProofs.SoleStrongSupplier` | Avalonia.Base/PropertyStore/ValueStore.cs:252-272 | When a layer supplies the property and no other layer of its priority or stronger does, the frame scan returns that layer's hit |
| `OperationProofs.LocalFrameWins` | Avalonia.Base/PropertyStore/ValueStore.cs:252-272 | When the active local frame holds an entry for the property and no other frame at the local tier or stronger supplies it, evaluation picks that entry at the `LocalValue` priority |
| `OperationProofs.CommitHoldsValue` | NonBoxingValueStore/PropertyStore/LocalValueFrame.cs:33-44 | Committing a local set keeps the store well formed and touches no store; the local frame's entry for the property reads the value, and the notification is nothing or one value change for that property |
| `OperationProofs.ReevaluateKeepsLocalFrame` | Avalonia.Base/PropertyStore/ValueStore.cs:235-272 | Re-evaluating a property leaves every local frame, the store's frame list and local frame, and what each entry holds and reads, unchanged |
| `OperationProofs.DispatchKeepsLocal` | Avalonia.Base/PropertyStore/ValueStore.cs:235-272 | Dispatching a local entry's change notification keeps the local frame, the frame list and what the entry reads |
| `OperationProofs.LocalSetReadsBack` | Avalonia.Base/PropertyStore/ValueStore.cs:95-116 | With the local frame listed, setting a value in it and dispatching the notification keeps it listed; `GetValue` then reads the value unless another frame at the local tier or stronger supplies the property |
| `OperationProofs.EnsureLocalFrameListed` | Avalonia.Base/PropertyStore/ValueStore.cs:102-106 | After the local frame is created on first use, the store is consistent and the local frame is among its frames |
| `OperationProofs.SetLocalValueReadsBack` | Avalonia.Base/PropertyStore/ValueStore.cs:95-116 | After `SetLocalValue` accepts a value, the store has a listed local frame, and `GetValue` reads the value unless another frame at the local tier or stronger supplies the property |
| `OperationProofs.ClearLocalValueConsistent` | Avalonia.Base/PropertyStore/ValueStore.cs:90-93 | Clearing through the entry leaves the cache agreeing with evaluation for every property |
| `OperationProofs.ClearLocalValueStaleCounterexample` | Avalonia.Base/PropertyStore/ValueStore.cs:90-93 | Clearing as written leaves a cache slot naming an entry that is no longer in any frame, so the cache disagrees with evaluation |
| `OperationProofs.AddBindingLocalKeeps` | NonBoxingValueStore/PropertyStore/LocalValueFrame.cs:17-29 | Binding a local entry changes no evaluation until the binding delivers |
| `OperationProofs.BindingAllocatedTidy` | Avalonia.Base/PropertyStore/ValueStore.cs:38-62 | Allocating a binding entry and its frame keeps the store well formed and changes no evaluation |
| `OperationProofs.AddBindingConsistent` | Avalonia.Base/PropertyStore/ValueStore.cs:38-62 | Adding a binding at any tier from `Animation` to `Inherited` leaves the cache agreeing with evaluation and the store well formed |
| `OperationProofs.AddLocalBindingConsistent` | Avalonia.Base/PropertyStore/ValueStore.cs:42-50 | A local-value binding goes into the local frame and keeps agreement without re-evaluation |
| `OperationProofs.AddFrameBindingConsistent` | Avalonia.Base/PropertyStore/ValueStore.cs:52-61 | Any other binding gets its own frame and the property's re-evaluation restores agreement |
| `OperationProofs.ApplyStyleConsistent` | Avalonia.Base/PropertyStore/ValueStore.cs:24-30 | Outside a styling bracket, applying a style leaves the cache agreeing with evaluation; inside one, the frame is inserted and nothing is raised or recached |
| `OperationProofs.BeginStylingKeeps` | Avalonia.Base/PropertyStore/ValueStore.cs:22 | Opening a bracket counts up and changes no evaluation and no agreement |
| `OperationProofs.EndStylingConsistent` | Avalonia.Base/PropertyStore/ValueStore.cs:32-36 | Closing the last bracket restores agreement everywhere; closing an inner one only counts down |
| `OperationProofs.StylingBracketBatches` | Avalonia.Base/PropertyStore/ValueStore.cs:22-36 | A style applied inside a bracket opened on an idle store ends, once the bracket closes, with the same world and notifications as applying it outside any bracket |
| `OperationProofs.AddFrameIgnoresStyling` | Avalonia.Base/PropertyStore/ValueStore.cs:185-192 | Where a frame is inserted does not depend on the styling counter |
| `OperationProofs.GetValueReadsEvaluation` | Avalonia.Base/PropertyStore/ValueStore.cs:111-116 | On an agreeing store the value read is the winning entry's value, or the type's default when nothing wins |
| `OperationProofs.IsAnimatingIsAnimationTier` | Avalonia.Base/PropertyStore/ValueStore.cs:118-123 | On a well-formed store a property is animating exactly when an animation-tier entry wins it |
| `OperationProofs.EffectiveIsSet` | Avalonia.Base/PropertyStore/ValueStore.cs:125-141 | A value that wins from the store's own frames is always seen by `IsSet` |
| `OperationProofs.GetInheritanceFrameInherits` | Avalonia.Base/PropertyStore/ValueStore.cs:194-213 | The frame made on demand holds inheriting properties only, and every other inheritance frame is kept |
| `OperationProofs.SetParentInherits` | Avalonia.Base/PropertyStore/InheritanceFrame.cs:34 | Re-parenting an inheritance frame keeps it holding inheriting properties only |
| `OperationProofs.InheritanceParentChangedConsistent` | Avalonia.Base/PropertyStore/ValueStore.cs:143-156 | After the corrected parent change, the cache agrees with evaluation, inheritance frames still hold inheriting properties only, and every child is first told the store's current frame |
| `OperationProofs.ParentInheritanceFrameChangedConsistent` | Avalonia.Base/PropertyStore/ValueStore.cs:445-451 | After the corrected frame change from a parent, the receiving store's cache agrees with evaluation, inheritance frames still hold inheriting properties only, and every child is first told the store's current frame |
| `OperationProofs.ReparentStaleCounterexample` | Avalonia.Base/PropertyStore/ValueStore.cs:143-156 | A root owns a frame with an inherited value, its child borrows it, and a grandchild borrows it too: detaching the child tells the grandchild, which as written keeps the inherited value in its cache while evaluation finds none; the corrected call leaves the grandchild's cache agreeing |
| `OperationProofs.InheritedValueChangedRestores` | Avalonia.Base/PropertyStore/ValueStore.cs:453-461 | A store whose own frame holds the property stops the propagation untouched; otherwise, from a cache wrong at that property only, the call restores agreement everywhere |
| `OperationProofs.WithoutFrameTidy` | Avalonia.Base/PropertyStore/ValueStore.cs:179-183 | Taking a frame out of the list keeps the store well formed: the rest stays sorted weakest first |
| `OperationProofs.SortedWithout` | Avalonia.Base/PropertyStore/ValueStore.cs:558-566 | A sorted, banded tier list stays sorted and banded with any one tier removed |
| `OperationProofs.WithoutFrameLayers` | Avalonia.Base/PropertyStore/ValueStore.cs:179-183 | The layers before the removal are the layers after it with the removed frame put back where it stood |
| `OperationProofs.BindingFrameOffersOwnProperty` | Avalonia.Base/PropertyStore/BindingEntry.cs:40-52 | A binding entry's frame offers nothing for any property but its own |
| `OperationProofs.WithoutFrameChain` | Avalonia.Base/PropertyStore/ValueStore.cs:179-183 | Removing a frame from the list leaves the inheritance walk unchanged |
| `OperationProofs.WithoutFrameEvaluate` | Avalonia.Base/PropertyStore/ValueStore.cs:179-183 | Removing a binding entry's frame changes the evaluation of no other property |
| `OperationProofs.RemoveBindingEntryConsistent` | Avalonia.Base/PropertyStore/ValueStore.cs:179-183 | After a binding entry is removed and its property re-evaluated, the cache agrees with evaluation everywhere and the store stays well formed |
| `ValueStores.BeginStyling` | Avalonia.Base/PropertyStore/ValueStore.cs:22 | Opening a styling bracket counts it up on this store and changes nothing else in the world |
| `ValueStores.ApplyStyle` | Avalonia.Base/PropertyStore/ValueStore.cs:24-30 | Applying a style keeps the set of stores (bookkeeping only; what it computes is stated by `OperationProofs.ApplyStyleConsistent`) |
| `ValueStores.EndStyling` | Avalonia.Base/PropertyStore/ValueStore.cs:32-36 | Closing a bracket keeps the set of stores (bookkeeping only; see `OperationProofs.EndStylingConsistent`) |
| `ValueStores.AddBinding` | Avalonia.Base/PropertyStore/ValueStore.cs:38-62 | Adding a binding keeps the set of stores, and the handle it returns is an entry of the arena |
| `ValueStores.ClearLocalValue` | Avalonia.Base/PropertyStore/LocalValueEntry.cs:31-43 | Clearing a local value keeps the set of stores (bookkeeping only; see `OperationProofs.ClearLocalValueConsistent`) |
| `ValueStores.IsAnimating` | Avalonia.Base/PropertyStore/ValueStore.cs:118-123 | Asking whether a property is animating changes no store and no set of entries: its reads only start entries |
| `ValueStores.InheritanceParentChanged` | Avalonia.Base/PropertyStore/ValueStore.cs:143-156 | A parent change keeps the set of stores (bookkeeping only; see `OperationProofs.InheritanceParentChangedConsistent`) |
| `ValueStores.ParentInheritanceFrameChanged` | Avalonia.Base/PropertyStore/ValueStore.cs:445-451 | The corrected frame change keeps the set of stores and first tells every child the store's current frame, even when the store re-parents a frame it owns |
| `ValueStores.ParentInheritanceFrameChangedAsWritten` | Avalonia.Base/PropertyStore/ValueStore.cs:445-451 | As written, a store that owns its inheritance frame only re-parents it and tells nobody; otherwise it adopts the given frame and passes it to every child; no cache changes and no other store changes |
| `ValueStores.Reattach` | Avalonia.Base/PropertyStore/ValueStore.cs:445-451 | The corrected frame step leaves the arena as the as-written step does, but tells every child the store's resulting frame in both cases |
| `ValueStores.InheritanceParentChangedAsWritten` | Avalonia.Base/PropertyStore/ValueStore.cs:143-156 | As written, the parent change leaves the arena as the corrected one does, yet when the store owns its frame no child is told anything about frames |
| `ValueStores.Reevaluate` | Avalonia.Base/PropertyStore/ValueStore.cs:235-245 | The typed re-evaluation keeps the set of stores and of entries (bookkeeping only; see `StoreProofs.ReevaluateRestores`) |
| `ValueStores.ReevaluateAsWritten` | Avalonia.Base/PropertyStore/ValueStore.cs:413-418 | As written, the typed re-evaluation fails with an invalid cast exactly when the winner is neither a local value nor a binding entry, and otherwise behaves as the corrected one |
| `ValueStores.ReevaluateCurrent` | Avalonia.Base/PropertyStore/ValueStore.cs:227-233 | Re-evaluating against the cached value keeps the set of stores and of entries (bookkeeping only) |
| `ValueStores.ReevaluateUntyped` | Avalonia.Base/PropertyStore/ValueStore.cs:215-225 | The untyped re-evaluation keeps the set of stores and of entries (bookkeeping only; see `StoreProofs.ReevaluateUntypedRestores`) |
| `ValueStores.RemoveBindingEntry` | Avalonia.Base/PropertyStore/ValueStore.cs:179-183 | Removing a binding entry keeps the set of stores (bookkeeping only; see `OperationProofs.RemoveBindingEntryConsistent`) |
| `ValueStores.Apply` | Avalonia.Base/PropertyStore/ValueStore.cs:158-183 | Carrying out one call from an entry keeps the set of stores |
| `ValueStores.Dispatch` | Avalonia.Base/PropertyStore/ValueStore.cs:158-183 | Carrying out an entry's calls in order keeps the set of stores |
| `ValueStores.BindingEvent` | Avalonia.Base/PropertyStore/BindingEntry.cs:86-95 | An event on a binding entry's frame keeps the set of stores (bookkeeping only; see `OperationProofs.BindingEventConsistent`) |
| `ValueStores.LocalEvent` | Avalonia.Base/PropertyStore/LocalValueEntry.cs:74-83 | An event for a property without a local entry changes nothing and calls nothing; otherwise the set of stores is kept |
| `ValueStores.ActivatorNext` | Avalonia.Base/Styling/StyleInstance.cs:42-49 | An activator push to a frame that is not a style instance changes nothing and calls nothing; otherwise the set of stores is kept |
| `ValueStores.SetterBindingNext` | Avalonia.Base/Styling/SetterBindingInstance.cs:57-68 | A push to a setter binding instance keeps the set of stores (bookkeeping only; see `OperationProofs.SetterBindingNextConsistent`) |
| `BindingEntries.Step` | Avalonia.Base/PropertyStore/BindingEntry.cs:86-95 | No event changes a binding entry's property, priority, source or ownership |
| `LocalValueEntries.Step` | Avalonia.Base/PropertyStore/LocalValueEntry.cs:74-83 | No event changes a local entry's property |
| `FrameOrder.InsertionSplitsTiers` | Avalonia.Base/PropertyStore/ValueStore.cs:185-192 | On a sorted list without overflow, the positions from the insertion index on hold exactly the frames strictly stronger than the new one |
| `Evaluation.ScanAsWritten` | Avalonia.Base/PropertyStore/ValueStore.cs:252-272 | The frame loop as written picks only an entry that sits in an active frame of the list and claims a value by the as-written `HasValue` |
| `Evaluation.ScanAsWrittenAgrees` | Avalonia.Base/PropertyStore/ValueStore.cs:252-272 | Where no entry's as-written `HasValue` differs from the corrected one, the loop as written picks the cascade's winner |
| `Evaluation.FinishedSetterShadowsStyle` | Avalonia.Base/Styling/SetterBindingInstance.cs:22-29 | With a finished setter binding above a constant style setter of 2, the loop as written picks the finished binding, which reads as null, while the corrected evaluation picks the setter's 2 |
| `Starts.StartEntry` | Avalonia.Base/PropertyStore/BindingEntry.cs:122-131 | A first read starts the entry and changes nothing a read can see: a binding subscribes to its source, a setter binding initiates its binding, and a started entry is left alone |
| `Starts.StartsInvisible` | Avalonia.Base/PropertyStore/BindingEntry.cs:31-38 | Starts change no entry's presence, value, property or kind, and no frame's priority, activity or values |
| `Starts.StartsKeepEvaluation` | Avalonia.Base/PropertyStore/ValueStore.cs:247-304 | Starts leave a store's layers, inheritance chain and every property's evaluation as they were |
| `Starts.PerformKeepsEvaluation` | Avalonia.Base/PropertyStore/ValueStore.cs:247-304 | Carrying out a scan's starts only starts entries and changes no evaluation of the store |
| `Starts.PerformSubscribes` | Avalonia.Base/PropertyStore/BindingEntry.cs:122-131 | A scan's reads call `Subscribe` on a source exactly once for each entry of that source that was waiting and is read |
| `Starts.ScanReadsAt` | Avalonia.Base/PropertyStore/ValueStore.cs:252-272 | An entry that only one active frame holds is read exactly when no stronger active frame supplies the property |
| `Starts.EvaluateReadsWinner` | Avalonia.Base/PropertyStore/ValueStore.cs:247-304 | The winning entry of a single-property evaluation is among the entries its scan reads |
| `Starts.BatchReadsWinners` | Avalonia.Base/PropertyStore/ValueStore.cs:306-353 | Every winner of the batch pass is among the entries the pass reads |
| `StoreProofs.StartsKeepTidy` | Avalonia.Base/PropertyStore/ValueStore.cs:247-304 | Starts made while scanning keep the store well formed |
| `StoreProofs.StartsKeepReady` | Avalonia.Base/PropertyStore/ValueStore.cs:247-304 | Starts made while scanning keep fresh ids fresh and local frames holding local entries |
| `StoreProofs.ReevaluateUntypedTidy` | Avalonia.Base/PropertyStore/ValueStore.cs:215-225 | The untyped re-evaluation keeps the store well formed |
| `StoreProofs.ReevaluateAllTidy` | Avalonia.Base/PropertyStore/ValueStore.cs:306-403 | The batch pass keeps the store well formed |
| `OperationProofs.CommitTidy` | Avalonia.Base/PropertyStore/ValueStore.cs:95-109 | Recording a local-frame step keeps the store well formed |
| `OperationProofs.AddBindingSubscribes` | Avalonia.Base/PropertyStore/ValueStore.cs:83-85 | A binding added at a non-local tier is returned as the new entry, which ends up subscribed exactly when no stronger active frame supplies the property and unsubscribed otherwise |
| `OperationProofs.AddBindingSubscribesOnce` | Avalonia.Base/PropertyStore/BindingEntry.cs:122-131 | With no other entry waiting on the source, adding a non-local binding calls `Subscribe` on it once when the new frame is not shadowed, and never when it is |
| `OperationProofs.ReevaluateStartsWinner` | Avalonia.Base/PropertyStore/BindingEntry.cs:31-38 | After a typed re-evaluation the entry cached for the property has been started |
| `OperationProofs.AddBindingCastFails` | Avalonia.Base/PropertyStore/ValueStore.cs:413-418 | Whenever a style setter or setter binding wins the property, the typed re-evaluation after adding a binding fails with an invalid cast as written |
| `OperationProofs.StyleSetterCastCounterexample` | Avalonia.Base/PropertyStore/ValueStore.cs:413-418 | On a consistent store whose constant style setter wins property 0, adding a style-tier binding fails as written, while the corrected operation keeps the store consistent |
| `OperationProofs.Reported` | Avalonia.Base/PropertyStore/ValueStore.cs:365-369 | The value the batch pass reads for a property is never `UnsetValue`, and is the type's default when the cache lacks the property |
| `OperationProofs.ReportedIsGetValue` | Avalonia.Base/PropertyStore/ValueStore.cs:111-116 | On an agreeing store the batch pass's reading of a property is the value `GetValue` returns |
| `OperationProofs.ReevaluateAllReports` | Avalonia.Base/PropertyStore/ValueStore.cs:359-402 | A property is announced exactly when it is registered and its reading changes, and every notice for it carries the old and new readings and the new winner's priority |
| `OperationProofs.ClosingBracketReevaluates` | Avalonia.Base/PropertyStore/ValueStore.cs:32-36 | Closing the only bracket of a store is one batch pass |
| `OperationProofs.BindingStepShape` | Avalonia.Base/PropertyStore/BindingEntry.cs:86-137 | An owned binding entry's step either reports its old value once, or keeps whether it has a value and only calls its source, followed by at most a removal request |
| `OperationProofs.BindingEventConsistent` | Avalonia.Base/PropertyStore/BindingEntry.cs:86-95 | Any event on an owned binding entry (a read, `Subscribe` returning, a value, completion, error or disposal), with its calls carried out, keeps the store agreeing with evaluation and well formed |
| `OperationProofs.LocalSetConsistent` | Avalonia.Base/PropertyStore/LocalValueEntry.cs:51-60 | A value pushed to a local entry keeps the store agreeing with evaluation and well formed |
| `OperationProofs.LocalClearConsistent` | Avalonia.Base/PropertyStore/LocalValueEntry.cs:31-43 | A local entry clearing itself keeps the store agreeing with evaluation and well formed |
| `OperationProofs.LocalEventConsistent` | Avalonia.Base/PropertyStore/LocalValueEntry.cs:74-83 | Any event from a local entry's binding (a value, a binding error, a valueless push, completion, error or disposal) keeps the store agreeing with evaluation and well formed |
| `OperationProofs.ActivatorNextConsistent` | Avalonia.Base/Styling/StyleInstance.cs:42-49 | A repeated activator value changes nothing; a flip re-evaluates everything, and either way the store agrees with evaluation and is well formed |
| `OperationProofs.SetterBindingNextConsistent` | Avalonia.Base/Styling/SetterBindingInstance.cs:57-68 | A value pushed to a setter binding instance of the store's style keeps the store agreeing with evaluation and well formed |

## Left out

- Re-entrancy: the source calls back into the store from inside an entry's callbacks. Here each callback is an `Effects.Effect` that the store applies after the entry's step, in the order it was emitted.
- Lazy subscription on first read in the boxing prototype: its scans are pure. A subscription that a first read would start is not threaded through `BoxedStores.Reevaluate`. The main store does thread them (`Starts`).
- `ValueStores.GetValue`: it reads the cache and nothing else, as the source does. Its cached entry has already been started by the re-evaluation that cached it (`OperationProofs.ReevaluateStartsWinner`), so the read starts nothing and makes no calls.
- Hash order: `Dictionary` enumeration order is unspecified in .NET. A batch pass announces new values in the order it fills the rebuilt dictionary, which is scan order, strongest frame first; that is what the source's `foreach` over a freshly filled dictionary yields in practice. It announces values that went back to the default in ascending property id, where the source's order is unspecified.
- A `null` dictionary or frame list (created lazily in the source) is modelled as an empty one.
- Binding completion: the order of `BindingCompleted` calls relative to the change notices raised in the same step is kept. The thread that delivers a push is not modelled.
- `BoxedStores.ApplyStyle`: it accepts only a style frame, where the source takes any `IValueFrame`. Every caller passes a style instance.
- `Properties.Register`: the registration counter is an unbounded integer. The source's 32-bit `int` counter overflow is not modelled.
- Casts: the source casts local-frame entries to `LocalValueEntry<T>` and values to `T`. These casts are excluded by the `Ready`/`Holds` invariants and the untyped `Value` domain instead of being modelled as exceptions. The typed re-evaluation's cast to `IValue<T>` does fail for style setters; it is listed under Findings.
- `ValueStores.ReevaluateAsWritten`: when the cast fails it returns only the error. The state the source leaves behind (the cache already updated, no notification raised) is not returned.
- Cycles: the inheritance chain walk (`Arena.ChainFrom`) stops at a frame it has already visited. The source does not guard against a cyclic parent chain.
- Propagation: calls to inheritance children are returned as `ValueStores.Output` values in order. They are not executed against the child stores. Calls out to binding sources and activators are returned the same way; what the source pushes back arrives as a separate event (`ValueStores.BindingEvent` and the others).
- `SetterBindings.OnCompleted` at world level: a setter binding's completion makes no call into the store, so it has no world-level event and no consistency lemma. Under the corrected `HasValue` the finished instance stops supplying a value without any re-evaluation, so the cache can go stale until the next pass.
- `Arena.HasValue`: every store evaluation reads a setter binding as holding a value only while it holds one (the corrected test). The test as written is modelled by `Evaluation.ScanAsWritten`; see Findings.
- `Evaluation.MapCandidates`: a setter binding's presence flag is the corrected `HasValue`, not the as-written comparison with `UnsetValue` (see Findings and `Evaluation.ScanAsWrittenAgrees`).
- Preconditions: the consistency lemmas assume the store invariants `ValueStores.Ready` and `StoreProofs.Tidy`, and `StoreProofs.InheritFramesInherit` where inheritance is involved. These invariants hold for every store built through the public operations.
- `OperationProofs.AddBindingConsistent`: it is proved for priorities from `Animation` to `Inherited` only, the tiers the source passes in. The comparer is also modelled for other integers.
- `ValueStores.ParentInheritanceFrameChangedAsWritten`: as in the source (Avalonia.Base/PropertyStore/ValueStore.cs:445-451), it only re-parents or replaces the frame and re-evaluates nothing. The only re-evaluation on a parent change is that of the receiving store (line 155), so a grandchild's cached inherited value can go stale; see Findings.
- Whole-tree propagation: consistency is proved for each store's own call (`OperationProofs.InheritanceParentChangedConsistent`, `OperationProofs.ParentInheritanceFrameChangedConsistent`). That the calls passed on leave every descendant consistent is not proved as one statement, because the calls are returned rather than executed.
- `ValueStores.ClearLocalValueAsWritten`: the store's local frame (Avalonia.Base's `LocalValueFrame`) is not part of this model. Its `ClearValue` is taken to remove the property, as NonBoxingValueStore/PropertyStore/LocalValueFrame.cs:31 does. Avalonia.Base's entry removes itself through a frame method that is not in view (Avalonia.Base/PropertyStore/LocalValueEntry.cs:34), and a test (Avalonia.Base.UnitTests/PropertyStore/ValueStoreTests.cs:134-148) expects a live binding's entry to stay.
- Metadata merging (`metadata.Merge`, Avalonia.Base/AvaloniaProperty.cs:351): an override is stored as given. Merging with the base metadata depends on metadata classes that are not part of this model.
- `AvaloniaObject` (all three versions) and `IAvaloniaObject`: delegation and event plumbing, and several members only throw `NotImplementedException`.
- The third store draft (NonBoxingValueStore/PropertyStore/ValueStore.cs): unfinished. Its batch pass never diffs or notifies.
- Selector matching: it depends on selector, match and activator types that are not part of this model. `Styles.Match` is an input: no match, or a match with an optional activator.
- Validation, coercion and value conversion: the validator, the coercion function and `TryConvertImplicit` are function values carried by the property or passed in (`Properties.Property.validate`, `Properties.Coercer`, `Setters.Convertible`).
- Behaviourally redundant copies: the boxing and non-boxing copies of `ValueFrameBase`, `LocalValueFrame`, `Setter`, `SetterBindingInstance` and `StyleInstance` add no logic beyond the files modelled.
- Non-effective "value under animation" notifications and store-level coercion: no store code implements them (`CoerceValue` throws in Avalonia.Base/AvaloniaObject.cs:44-47).
- The reactive property observable, benchmarks and launcher: publishing through weak references, measurement and console I/O.
- `ValueStores.Reevaluate`: its own contract states only bookkeeping. What it computes is stated by `StoreProofs.ReevaluateRestores`, `StoreProofs.SettleFound` and `StoreProofs.SettleMissing`.
- `ValueStores.ReevaluateCurrent`: its own contract states only bookkeeping. It is `ValueStores.Reevaluate` against the cached value.
- `ValueStores.ReevaluateUntyped`: its own contract states only bookkeeping. What it computes is stated by `StoreProofs.ReevaluateUntypedRestores`.
- `ValueStores.ApplyStyle`: its own contract states only bookkeeping. What it computes is stated by `OperationProofs.ApplyStyleConsistent`.
- `ValueStores.EndStyling`: its own contract states only bookkeeping. What it computes is stated by `OperationProofs.EndStylingConsistent`.
- `ValueStores.AddBinding`: its own contract states only bookkeeping. What it computes is stated by `OperationProofs.AddBindingConsistent` and `OperationProofs.AddBindingSubscribes`.
- `ValueStores.RemoveBindingEntry`: its own contract states only bookkeeping. What it computes is stated by `OperationProofs.RemoveBindingEntryConsistent`.
- `ValueStores.ClearLocalValue`: its own contract states only bookkeeping. What it computes is stated by `OperationProofs.ClearLocalValueConsistent`.
- `ValueStores.InheritanceParentChanged`: its own contract states only bookkeeping. What it computes is stated by `OperationProofs.InheritanceParentChangedConsistent`.
- `ValueStores.IsAnimating`: its own contract states only bookkeeping. What it computes is stated by `OperationProofs.IsAnimatingIsAnimationTier`.
- `ValueStores.Apply`: its own contract states only bookkeeping. What the calls do is stated by `OperationProofs.DispatchChangeRestores` and the event lemmas.
- `ValueStores.Dispatch`: its own contract states only bookkeeping. What the calls do is stated by `OperationProofs.DispatchChangeRestores` and the event lemmas.
- `ValueStores.BindingEvent`: its own contract states only bookkeeping. What it computes is stated by `OperationProofs.BindingEventConsistent`.
- `ValueStores.LocalEvent`: its own contract states only bookkeeping. What it computes is stated by `OperationProofs.LocalEventConsistent`.
- `ValueStores.ActivatorNext`: its own contract states only bookkeeping. What it computes is stated by `OperationProofs.ActivatorNextConsistent`.
- `ValueStores.SetterBindingNext`: its own contract states only bookkeeping. What it computes is stated by `OperationProofs.SetterBindingNextConsistent`.
- `ValueStores.SetLocalValue`: it writes the value through the existing entry and does not dispose a live local binding, as the code does. Its own contract states the validation outcome; the read-back is `OperationProofs.SetLocalValueReadsBack`, which names the frames that may still override the value.
- `OperationProofs.LocalListed`: that a store's local frame is among its frames is taken as a store invariant by `OperationProofs.SetLocalValueReadsBack` and proved re-established there. It is not proved preserved by every other operation.
- `ValueStores.IsSet`: it counts every frame, active or not, as the code does.
- `Properties.AddOwner`: the added-owner copy keeps the id, name, inheritance flag and metadata. As in the code, it drops the validator and the coercion flag.
- `Properties.Register`: as in the code, a registration whose default fails validation still consumes an id, because the id is drawn before the check.

## Findings

| source | as written | input that shows it | evidently intended | confidence | as-written member | corrected member |
|---|---|---|---|---|---|---|
| Avalonia.Base/PropertyStore/ValueStore.cs:90-93 | `ClearLocalValue` asks the local frame to clear the property and does not re-evaluate. Taking the frame's `ClearValue` to remove the property's entry, as the non-boxing draft's frame does (NonBoxingValueStore/PropertyStore/LocalValueFrame.cs:31), the effective-value cache keeps the removed entry, and a live local binding is dropped with it. | One object whose only contribution is local value 1 for property 0: after the clear, evaluation finds nothing, but `GetValue` still returns 1 | The entry's own `ClearValue` runs, which keeps a live binding (as Avalonia.Base.UnitTests/PropertyStore/ValueStoreTests.cs:134-148 expects); the property is then re-evaluated, so the cache agrees with evaluation | low: Avalonia.Base's own `LocalValueFrame` is not part of this model, and the row rests on the assumed frame behaviour; not executed | `ValueStores.ClearLocalValueAsWritten`, `OperationProofs.ClearLocalValueStaleCounterexample` | `ValueStores.ClearLocalValue`, `OperationProofs.ClearLocalValueConsistent` |
| Avalonia.Base/Styling/Style.cs:47-48 | A freshly built instance is cached for sharing whenever every setter instanced in place. This happens even when the match carried an activator, which belongs to that one target. | A style with one constant setter, matched first with activator 1 and then on a second target with activator 2: the second target reuses the instance gated by activator 1 | Only an instance without an activator is shared | not executed | `Styles.InstanceAsWritten`, `Styles.SharedTriggerCounterexample` | `Styles.Instance`, `Styles.SharedInstanceIsUnconditional` |
| Avalonia.Base/Styling/SetterBindingInstance.cs:22-29 | `HasValue` compares the stored object with `UnsetValue` only, so after the source completes, the finished sentinel counts as a value | A setter binding that has completed: `HasValue` is true while `TryGetValue` yields nothing, so the store picks it as the winner and reads the default | `HasValue` is true exactly when `TryGetValue` yields a value | not executed | `SetterBindings.HasValueAsWritten`, `SetterBindings.FinishedInstanceClaimsValue`, `Evaluation.ScanAsWritten`, `Evaluation.FinishedSetterShadowsStyle` | `SetterBindings.HasValue`, `SetterBindings.HasValueAgreesWithTryGetValue`, `Evaluation.ScanAsWrittenAgrees` |
| Avalonia.Base/PropertyStore/ValueStore.cs:413-418 | The typed `SetEffectiveValue<T>` casts the winning entry to `IValue<T>`. A style's `Setter` and a `SetterBindingInstance` are not typed values, so the cast throws whenever one of them wins a typed re-evaluation. | A store whose constant style setter sets property 0 to 2, then `AddBinding` for property 0 at the `Style` tier from a source with no value yet: the setter still wins, and the cast throws | The winner's value is read through the untyped `TryGetValue`, so any entry kind can win | not executed | `ValueStores.ReevaluateAsWritten`, `OperationProofs.AddBindingCastFails`, `OperationProofs.StyleSetterCastCounterexample` | `ValueStores.Reevaluate`, `StoreProofs.ReevaluateRestores` |
| Avalonia.Base/PropertyStore/ValueStore.cs:445-451 | A frame change passed to a child only re-parents or replaces the child's frame and re-evaluates nothing; a store that re-parents a frame it owns tells no child. Only the store whose parent changed is re-evaluated (line 155). | Root 2 owns frame 1 holding inherited property 0 with value 1; object 0 under 2 and object 1 under 0 both use frame 1. Detaching 0 tells 1 that there is no frame: 1's cache still holds 1 while evaluation finds no value | Every descendant is told the current frame and re-evaluates, so every cache agrees with evaluation | not executed | `ValueStores.ParentInheritanceFrameChangedAsWritten`, `ValueStores.InheritanceParentChangedAsWritten`, `OperationProofs.ReparentStaleCounterexample` | `ValueStores.ParentInheritanceFrameChanged`, `ValueStores.InheritanceParentChanged`, `OperationProofs.ParentInheritanceFrameChangedConsistent` |
