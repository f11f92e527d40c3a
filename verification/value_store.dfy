/**
 * `ValueStore` of the main implementation: the per-object resolver. Each
 * operation is a pure transition of the world that returns, in order, what
 * the source does outside the store's own state: property-changed
 * notifications, calls into the inheritance children's stores, and calls out
 * to binding sources.
 */
module ValueStores {
  import opened Base
  import opened Effects
  import FrameMaps
  import FrameOrder
  import C = Cascade
  import Controls
  import Properties
  import L = LocalValueEntries
  import B = BindingEntries
  import SI = StyleInstances
  import SB = SetterBindings
  import LF = LocalValueFrames
  import opened Arena
  import opened Evaluation
  import S = Starts

  datatype Output =
      /** `RaisePropertyChanged` on the owner. */
    | Changed(owner: ObjId, notice: C.Notice)
      /** `child.GetValueStore().ParentInheritanceFrameChanged(frame)`. */
    | ParentFrameChanged(child: ObjId, frame: Option<FrameId>)
      /** `child.GetValueStore().InheritedValueChanged(property)`. */
    | InheritedValueChanged(child: ObjId, prop: PropId)
      /** A call an entry makes to a binding source or activator. */
    | External(owner: ObjId, effect: Effect)

  function Announce(o: ObjId, ns: seq<C.Notice>): (r: seq<Output>)
    ensures |r| == |ns| && forall i :: 0 <= i < |ns| ==> r[i] == Changed(o, ns[i])
  {
    if |ns| == 0 then [] else [Changed(o, ns[0])] + Announce(o, ns[1..])
  }

  function Externals(o: ObjId, fx: seq<Effect>): (r: seq<Output>)
    ensures |r| == |fx| && forall i :: 0 <= i < |fx| ==> r[i] == External(o, fx[i])
  {
    if |fx| == 0 then [] else [External(o, fx[0])] + Externals(o, fx[1..])
  }

  /** Each call an entry makes is passed on once, as a call of its owner. */
  lemma {:induction false} ExternalsCount(o: ObjId, fx: seq<Effect>, x: Effect)
    ensures multiset(Externals(o, fx))[External(o, x)] == multiset(fx)[x]
    decreases |fx|
  {
    if |fx| > 0 {
      ExternalsCount(o, fx[1..], x);
      assert fx == [fx[0]] + fx[1..];
      assert Externals(o, fx) == [External(o, fx[0])] + Externals(o, fx[1..]);
    }
  }

  function ToBoxed(v: Optional): Boxed {
    if v.Some? then Boxed(v.value) else UnsetValue
  }

  function UpdateStore(w: World, o: ObjId, s: Store): (r: World)
    ensures r.stores == w.stores[o := s]
    ensures r == w.(stores := r.stores)
  {
    w.(stores := w.stores[o := s])
  }

  function SetCache(w: World, o: ObjId, cache: FrameMaps.FrameMap<EntryId>): (r: World)
    requires o in w.stores
    ensures r.stores.Keys == w.stores.Keys && r.stores[o].cache == cache
  {
    UpdateStore(w, o, w.stores[o].(cache := cache))
  }

  function ReadTypedId(w: World, e: EntryId): Value {
    if e in w.entries then ReadTyped(w.entries[e]) else Null
  }

  // ---------------------------------------------------------------------------
  // Frames

  function Priorities(w: World, fs: seq<FrameId>): (r: seq<int>)
    ensures |r| == |fs| && forall i :: 0 <= i < |fs| ==> r[i] == FramePriority(w, fs[i])
  {
    if |fs| == 0 then [] else [FramePriority(w, fs[0])] + Priorities(w, fs[1..])
  }

  /** `frame.SetOwner(this)`: a binding entry now reports to its store, a
      style instance records its store; other frames ignore the call. */
  function SetOwner(w: World, o: ObjId, f: FrameId): (r: World)
    ensures r.stores == w.stores && r.next == w.next && r.props == w.props && r.tree == w.tree
    ensures r.frames.Keys == w.frames.Keys && r.entries.Keys == w.entries.Keys
  {
    if f !in w.frames then w
    else match w.frames[f]
      case BindingFrame(e) =>
        if e in w.entries && w.entries[e].Binding? then
          w.(entries := w.entries[e := Binding(B.SetOwner(w.entries[e].binding, true))])
        else w
      case StyleFrame(si) => w.(frames := w.frames[f := StyleFrame(SI.SetOwner(si, Some(o)))])
      case _ => w
  }

  /** `AddFrame`: insert at the point `List.BinarySearch` finds under the
      frame comparer, then hand the frame its owner. */
  function AddFrame(w: World, o: ObjId, f: FrameId): (r: World)
    requires o in w.stores
    ensures r.stores.Keys == w.stores.Keys
    ensures r.stores[o] == w.stores[o].(frames := FrameOrder.InsertAt(w.stores[o].frames,
      FrameOrder.InsertionIndex(Priorities(w, w.stores[o].frames), FramePriority(w, f)), f))
    ensures forall o' :: o' in w.stores && o' != o ==> r.stores[o'] == w.stores[o']
    ensures r.next == w.next && r.props == w.props && r.tree == w.tree
    ensures r.frames.Keys == w.frames.Keys && r.entries.Keys == w.entries.Keys
  {
    var s := w.stores[o];
    var k := FrameOrder.InsertionIndex(Priorities(w, s.frames), FramePriority(w, f));
    SetOwner(UpdateStore(w, o, s.(frames := FrameOrder.InsertAt(s.frames, k, f))), o, f)
  }

  /** `List.Remove`: the first occurrence of the frame goes. */
  function RemoveFrame(fs: seq<FrameId>, f: FrameId): (r: seq<FrameId>)
    ensures f !in fs ==> r == fs
    ensures f in fs ==> |r| == |fs| - 1
  {
    if |fs| == 0 then []
    else if fs[0] == f then fs[1..]
    else [fs[0]] + RemoveFrame(fs[1..], f)
  }

  /** Where `f` first occurs. */
  function IndexOf(fs: seq<FrameId>, f: FrameId): (k: nat)
    requires f in fs
    ensures k < |fs| && fs[k] == f && f !in fs[..k]
  {
    if fs[0] == f then 0
    else
      var k := IndexOf(fs[1..], f) + 1;
      assert fs[..k] == [fs[0]] + fs[1..][..k - 1];
      k
  }

  /** The removal cuts the list at the first occurrence. */
  lemma {:induction false} RemoveFrameSplits(fs: seq<FrameId>, f: FrameId)
    requires f in fs
    ensures RemoveFrame(fs, f) == fs[..IndexOf(fs, f)] + fs[IndexOf(fs, f) + 1..]
  {
    if fs[0] != f {
      var tail := fs[1..];
      RemoveFrameSplits(tail, f);
      var k := IndexOf(tail, f);
      assert fs[..k + 1] == [fs[0]] + tail[..k];
      assert fs[k + 2..] == tail[k + 1..];
    }
  }

  // ---------------------------------------------------------------------------
  // Inheritance

  predicate OwnsFrame(w: World, o: ObjId, f: FrameId) {
    f in w.frames && w.frames[f].InheritFrame? && w.frames[f].owner == o
  }

  function FrameChangedCalls(children: seq<ObjId>, frame: Option<FrameId>): (r: seq<Output>)
    ensures |r| == |children| && forall i :: 0 <= i < |children| ==> r[i] == ParentFrameChanged(children[i], frame)
  {
    if |children| == 0 then [] else [ParentFrameChanged(children[0], frame)] + FrameChangedCalls(children[1..], frame)
  }

  function InheritedCalls(children: seq<ObjId>, p: PropId): (r: seq<Output>)
    ensures |r| == |children| && forall i :: 0 <= i < |children| ==> r[i] == InheritedValueChanged(children[i], p)
  {
    if |children| == 0 then [] else [InheritedValueChanged(children[0], p)] + InheritedCalls(children[1..], p)
  }

  /** `SetInheritanceFrame`: adopt the frame and pass it to every child. */
  function SetInheritanceFrame(w: World, o: ObjId, frame: Option<FrameId>): (r: (World, seq<Output>))
    requires o in w.stores
    ensures r.0.stores.Keys == w.stores.Keys && r.0.stores[o] == w.stores[o].(inheritance := frame)
    ensures forall o' :: o' in w.stores && o' != o ==> r.0.stores[o'] == w.stores[o']
    ensures r.0.frames == w.frames && r.0.entries == w.entries && r.0.next == w.next
    ensures r.0.props == w.props && r.0.types == w.types && r.0.tree == w.tree
    ensures |r.1| == |Children(w, o)|
    ensures forall i :: 0 <= i < |r.1| ==> r.1[i] == ParentFrameChanged(Children(w, o)[i], frame)
  {
    (UpdateStore(w, o, w.stores[o].(inheritance := frame)), FrameChangedCalls(Children(w, o), frame))
  }

  /** `SetInheritanceFrameValue`: write the winning entry into an inheritance
      frame the store owns, creating one over the inherited frame first when
      it owns none (that new frame is not added to the frame list), and pass
      the frame on to the children. */
  function SetInheritanceFrameValue(w: World, o: ObjId, p: PropId, e: EntryId): (r: (World, seq<Output>))
    requires o in w.stores && w.stores[o].inheritance.Some?
    ensures r.0.stores.Keys == w.stores.Keys
    ensures r.0.stores[o] == w.stores[o].(inheritance := r.0.stores[o].inheritance)
    ensures forall o' :: o' in w.stores && o' != o ==> r.0.stores[o'] == w.stores[o']
    ensures r.0.entries == w.entries && r.0.props == w.props && r.0.tree == w.tree
    ensures forall x :: x in r.1 ==> x.ParentFrameChanged?
  {
    var f := w.stores[o].inheritance.value;
    if OwnsFrame(w, o, f) then
      var w1 := w.(frames := w.frames[f := SetInheritedValue(w.frames[f], p, e)]);
      SetInheritanceFrame(w1, o, Some(f))
    else
      var g := w.next;
      var w1 := w.(frames := w.frames[g := SetInheritedValue(InheritFrame(o, Some(f), []), p, e)], next := w.next + 1);
      SetInheritanceFrame(w1, o, Some(g))
  }

  /** `ParentInheritanceFrameChanged` as written: an owned frame is
      re-parented and nothing else happens; a borrowed one is replaced and
      the change passed on down. The store is not re-evaluated, so its cache
      keeps the values the old chain supplied. */
  function ParentInheritanceFrameChangedAsWritten(w: World, o: ObjId, frame: Option<FrameId>): (r: (World, seq<Output>))
    requires o in w.stores
    ensures r.0.stores.Keys == w.stores.Keys && r.0.stores[o].cache == w.stores[o].cache
    ensures forall o' :: o' in w.stores && o' != o ==> r.0.stores[o'] == w.stores[o']
    ensures var f := w.stores[o].inheritance;
      if f.Some? && OwnsFrame(w, o, f.value) then r.0.stores == w.stores && r.1 == []
      else r.0.stores[o].inheritance == frame && r.1 == FrameChangedCalls(Children(w, o), frame)
  {
    var f := w.stores[o].inheritance;
    if f.Some? && OwnsFrame(w, o, f.value) then
      (w.(frames := w.frames[f.value := SetParent(w.frames[f.value], frame)]), [])
    else SetInheritanceFrame(w, o, frame)
  }

  /** The frame step of a parent change, corrected: as written, except that
      an owned frame's new parent is passed on to the children as well,
      since their chains run through that frame. Every child is told the
      store's frame afterwards. */
  function Reattach(w: World, o: ObjId, frame: Option<FrameId>): (r: (World, seq<Output>))
    requires o in w.stores
    ensures r.0.stores.Keys == w.stores.Keys && r.0.stores[o].cache == w.stores[o].cache
    ensures r.0.props == w.props && r.0.tree == w.tree
    ensures r.1 == FrameChangedCalls(Children(w, o), r.0.stores[o].inheritance)
    ensures r.0 == ParentInheritanceFrameChangedAsWritten(w, o, frame).0
  {
    var f := w.stores[o].inheritance;
    if f.Some? && OwnsFrame(w, o, f.value) then
      (w.(frames := w.frames[f.value := SetParent(w.frames[f.value], frame)]), FrameChangedCalls(Children(w, o), f))
    else SetInheritanceFrame(w, o, frame)
  }

  /** `ParentInheritanceFrameChanged`, corrected: the frame step, passed on
      to every child, then the batch pass, so that the store's inherited
      values follow its new chain. */
  function ParentInheritanceFrameChanged(w: World, o: ObjId, frame: Option<FrameId>): (r: (World, seq<Output>))
    requires o in w.stores
    ensures r.0.stores.Keys == w.stores.Keys
    ensures |Children(w, o)| <= |r.1|
    ensures r.1[..|Children(w, o)|] == FrameChangedCalls(Children(w, o), r.0.stores[o].inheritance)
  {
    var (w1, calls) := Reattach(w, o, frame);
    var (w2, ns) := ReevaluateAll(w1, o);
    assert (calls + ns)[..|calls|] == calls;
    (w2, calls + ns)
  }

  /** The cached entries of inheriting properties, keyed by their property. */
  function InheritingEntries(w: World, cache: seq<FrameMaps.Slot<EntryId>>): (r: FrameMaps.FrameMap<EntryId>)
    ensures forall q :: q in FrameMaps.ToMap(r) ==>
      var e := FrameMaps.ToMap(r)[q]; e in w.entries && PropOf(w.entries[e]) == q && Inherits(w, q)
  {
    if |cache| == 0 then []
    else
      var rest := InheritingEntries(w, cache[1..]);
      var e := cache[0].entry;
      if e in w.entries && Inherits(w, PropOf(w.entries[e])) then FrameMaps.Set(rest, PropOf(w.entries[e]), e)
      else rest
  }

  /** `GetInheritanceFrame`: the store's frame; a store without one gets an
      owned frame holding its inheriting effective entries, added to its
      frame list. */
  function GetInheritanceFrame(w: World, o: ObjId): (r: (World, FrameId))
    requires o in w.stores
    ensures r.0.stores.Keys == w.stores.Keys
    ensures r.0.stores[o].inheritance == Some(r.1)
    ensures w.stores[o].inheritance.Some? ==> r == (w, w.stores[o].inheritance.value)
    ensures w.stores[o].inheritance.None? ==>
      r.1 == w.next && r.1 in r.0.frames && r.0.frames[r.1].InheritFrame?
      && r.0.frames[r.1].owner == o && r.0.frames[r.1].parent.None? && r.1 in r.0.stores[o].frames
  {
    var s := w.stores[o];
    if s.inheritance.Some? then (w, s.inheritance.value)
    else
      var g := w.next;
      var w1 := w.(frames := w.frames[g := InheritFrame(o, None, InheritingEntries(w, s.cache))], next := w.next + 1);
      var w2 := UpdateStore(w1, o, s.(inheritance := Some(g)));
      var w3 := AddFrame(w2, o, g);
      assert w3.stores[o].frames[FrameOrder.InsertionIndex(Priorities(w2, s.frames), FramePriority(w2, g))] == g;
      (w3, g)
  }

  function NotifyChildren(w: World, o: ObjId, p: PropId): seq<Output> {
    InheritedCalls(Children(w, o), p)
  }

  // ---------------------------------------------------------------------------
  // Re-evaluation

  /** The typed `RaisePropertyChanged`: a value won below the `Inherited`
      tier for an inheriting property is written to the inheritance frame
      (when the store has one) and the children are told; the owner is
      notified exactly when the two sides differ once unset sides take the
      default. */
  function RaiseTyped(w: World, o: ObjId, p: PropId, entry: Option<EntryId>, oldValue: Optional,
                      newValue: Optional, priority: int): (r: (World, seq<Output>))
    requires o in w.stores
    ensures r.0.stores.Keys == w.stores.Keys && r.0.entries == w.entries
    ensures r.0.stores[o].cache == w.stores[o].cache
    ensures forall x :: x in r.1 ==> !x.External?
  {
    var n := Announce(o, C.RaiseUntyped(p, ToBoxed(oldValue), ToBoxed(newValue), DefaultOf(w, o, p), priority));
    if priority < Inherited && entry.Some? && w.stores[o].inheritance.Some? && Inherits(w, p) then
      var (w1, calls) := SetInheritanceFrameValue(w, o, p, entry.value);
      (w1, calls + n + NotifyChildren(w1, o, p))
    else (w, n)
  }

  /** What the typed `ReevaluateEffectiveValue(property, oldValue)` does
      once its scan has read the frames: cache the winner or drop the
      property, then raise. */
  function Settle(w: World, o: ObjId, p: PropId, oldValue: Optional): (r: (World, seq<Output>))
    requires o in w.stores
    ensures r.0.stores.Keys == w.stores.Keys && r.0.entries == w.entries
    ensures forall x :: x in r.1 ==> !x.External?
  {
    var ev := Evaluate(w, o, p);
    var s := w.stores[o];
    if ev.Some? then
      var w1 := SetCache(w, o, FrameMaps.Set(s.cache, p, ev.value.entry));
      RaiseTyped(w1, o, p, Some(ev.value.entry), oldValue, Some(ReadTypedId(w, ev.value.entry)), ev.value.priority)
    else
      var w1 := SetCache(w, o, FrameMaps.Remove(s.cache, p).0);
      RaiseTyped(w1, o, p, None, oldValue, None, Unset)
  }

  /** The typed `ReevaluateEffectiveValue(property, oldValue)`: the scan's
      reads start what they touch (`Starts.EvaluateReads`), and the calls
      those starts make come first in the output. */
  function Reevaluate(w: World, o: ObjId, p: PropId, oldValue: Optional): (r: (World, seq<Output>))
    requires o in w.stores
    ensures r.0.stores.Keys == w.stores.Keys && r.0.entries.Keys == w.entries.Keys
  {
    var (w1, fx) := S.Perform(w, S.EvaluateReads(w, o, p));
    var (w2, out) := Settle(w1, o, p, oldValue);
    (w2, Externals(o, fx) + out)
  }

  /** The entries `SetEffectiveValue<T>` can cast to `IValue<T>`: local
      values and bindings. A style's `Setter` and `SetterBindingInstance`
      are not typed values. */
  predicate TypedEntry(w: World, e: EntryId) {
    e in w.entries && (w.entries[e].Local? || w.entries[e].Binding?)
  }

  /** The typed `ReevaluateEffectiveValue(property, oldValue)` as written:
      `SetEffectiveValue<T>` caches the winner and then casts it to
      `IValue<T>`, which throws for a style's setter or setter binding.
      The state the call leaves behind when it throws is not returned. */
  function ReevaluateAsWritten(w: World, o: ObjId, p: PropId, oldValue: Optional): (r: Result<(World, seq<Output>)>)
    requires o in w.stores
    ensures r.Fail? <==> Evaluate(w, o, p).Some? && !TypedEntry(w, Evaluate(w, o, p).value.entry)
    ensures r.Fail? ==> r.error == InvalidCast
    ensures r.Ok? ==> r.value == Reevaluate(w, o, p, oldValue)
  {
    var ts := S.EvaluateReads(w, o, p);
    var w1 := S.Perform(w, ts).0;
    S.PerformStartsOnly(w, ts);
    S.StartsKeepEvaluation(w, w1, o);
    S.StartsInvisible(w, w1);
    var ev := Evaluate(w1, o, p);
    if ev.Some? && !TypedEntry(w1, ev.value.entry) then Fail(InvalidCast)
    else Ok(Reevaluate(w, o, p, oldValue))
  }

  /** `ReevaluateEffectiveValue<T>(property)`: the old value is the cached
      entry's current value, if the property is cached. */
  function ReevaluateCurrent(w: World, o: ObjId, p: PropId): (r: (World, seq<Output>))
    requires o in w.stores
    ensures r.0.stores.Keys == w.stores.Keys && r.0.entries.Keys == w.entries.Keys
  {
    var c := FrameMaps.TryGet(w.stores[o].cache, p);
    Reevaluate(w, o, p, if c.Some? then Some(ReadTypedId(w, c.value)) else None)
  }

  /** What the untyped `ReevaluateEffectiveValue(property, oldValue)` does
      once its scan has read the frames: as `Settle`, without touching the
      inheritance frame. */
  function SettleUntyped(w: World, o: ObjId, p: PropId, oldValue: Boxed): (r: (World, seq<Output>))
    requires o in w.stores
    ensures r.0.stores.Keys == w.stores.Keys
    ensures forall x :: x in r.1 ==> !x.External?
  {
    var ev := Evaluate(w, o, p);
    var s := w.stores[o];
    if ev.Some? then
      (SetCache(w, o, FrameMaps.Set(s.cache, p, ev.value.entry)),
       Announce(o, C.RaiseUntyped(p, oldValue, Read(w, ev.value.entry), DefaultOf(w, o, p), ev.value.priority)))
    else
      (SetCache(w, o, FrameMaps.Remove(s.cache, p).0),
       Announce(o, C.RaiseUntyped(p, oldValue, UnsetValue, DefaultOf(w, o, p), Unset)))
  }

  /** The untyped `ReevaluateEffectiveValue(property, oldValue)`. */
  function ReevaluateUntyped(w: World, o: ObjId, p: PropId, oldValue: Boxed): (r: (World, seq<Output>))
    requires o in w.stores
    ensures r.0.stores.Keys == w.stores.Keys && r.0.entries.Keys == w.entries.Keys
  {
    var (w1, fx) := S.Perform(w, S.EvaluateReads(w, o, p));
    var (w2, out) := SettleUntyped(w1, o, p, oldValue);
    (w2, Externals(o, fx) + out)
  }

  /** The dictionary the batch pass builds. */
  function Rebuilt(w: World, o: ObjId): seq<C.Assoc>
    requires o in w.stores
  {
    C.Rebuild(StoreLayers(w, o), StoreChain(w, o))
  }

  /** `ReevaluateEffectiveValues`: rebuild the cache in one sweep (its reads
      start what they touch, `Starts.BatchReads`), replace it, and raise the
      diff against the old cache. Only the cache of the store changes among
      the stores. */
  function ReevaluateAll(w: World, o: ObjId): (r: (World, seq<Output>))
    requires o in w.stores
    ensures r.0.stores == w.stores[o := w.stores[o].(cache := C.ToCache(Rebuilt(w, o)))]
    ensures r.0.entries.Keys == w.entries.Keys && r.0.frames.Keys == w.frames.Keys
  {
    var ts := S.BatchReads(w, o);
    var (w1, fx) := S.Perform(w, ts);
    S.PerformStartsOnly(w, ts);
    S.StartsKeepEvaluation(w, w1, o);
    var acc := Rebuilt(w1, o);
    var ns := C.BatchNotices(w1.stores[o].cache, acc, (e: EntryId) => Read(w1, e), q => DefaultOf(w1, o, q), w1.props.Keys);
    (SetCache(w1, o, C.ToCache(acc)), Externals(o, fx) + Announce(o, ns))
  }

  // ---------------------------------------------------------------------------
  // Calls from entries and frames

  /** The local-value frame's entries, read off the arena. */
  function LocalValuesOf(w: World, g: FrameId): FrameMaps.FrameMap<EntryId> {
    if g in w.frames && w.frames[g].LocalFrame? then w.frames[g].values else []
  }

  /** `RemoveBindingEntry`: the entry's frame leaves the list, then the
      property is re-evaluated against the value the entry had. */
  function RemoveBindingEntry(w: World, o: ObjId, f: FrameId, p: PropId, oldValue: Optional): (r: (World, seq<Output>))
    requires o in w.stores
    ensures r.0.stores.Keys == w.stores.Keys
  {
    var s := w.stores[o];
    Reevaluate(UpdateStore(w, o, s.(frames := RemoveFrame(s.frames, f))), o, p, oldValue)
  }

  /** One call an entry of frame `f` makes into store `o`. */
  function Apply(w: World, o: ObjId, f: FrameId, x: Effect): (r: (World, seq<Output>))
    requires o in w.stores
    ensures r.0.stores.Keys == w.stores.Keys
  {
    match x
    case ValueChanged(p, oldValue) => Reevaluate(w, o, p, oldValue)
    case ValueChangedUntyped(p, oldObject) => ReevaluateUntyped(w, o, p, oldObject)
    case RemoveFromFrame(p) =>
      if f in w.frames && w.frames[f].LocalFrame? then
        (w.(frames := w.frames[f := LocalFrame(LF.ClearValue(w.frames[f].values, p).0)]), [])
      else (w, [])
    case RemoveBindingEntry(p, oldValue) => RemoveBindingEntry(w, o, f, p, oldValue)
    case FrameActivationChanged => ReevaluateAll(w, o)
    case _ => (w, [External(o, x)])
  }

  /** The calls an entry made, carried out in order. */
  function Dispatch(w: World, o: ObjId, f: FrameId, fx: seq<Effect>): (r: (World, seq<Output>))
    requires o in w.stores
    ensures r.0.stores.Keys == w.stores.Keys
    decreases |fx|
  {
    if |fx| == 0 then (w, [])
    else
      var (w1, out1) := Apply(w, o, f, fx[0]);
      var (w2, out2) := Dispatch(w1, o, f, fx[1..]);
      (w2, out1 + out2)
  }

  // ---------------------------------------------------------------------------
  // Pushes from bindings and activators

  /** An event on the binding entry that is frame `f` of store `o` — a
      notification, completion, error or disposal, the store's read, or the
      return of `Subscribe`: the entry takes its step, then the calls it made
      are carried out. Any other frame ignores the event. */
  function BindingEvent(w: World, o: ObjId, f: FrameId, ev: B.Event): (r: (World, seq<Output>))
    requires o in w.stores
    ensures r.0.stores.Keys == w.stores.Keys
  {
    if f in w.frames && w.frames[f].BindingFrame? && w.frames[f].entry in w.entries
       && w.entries[w.frames[f].entry].Binding? then
      var e := w.frames[f].entry;
      var (b, fx) := B.Step(w.entries[e].binding, ev);
      Dispatch(w.(entries := w.entries[e := Binding(b)]), o, f, fx)
    else (w, [])
  }

  /** The entry store `o`'s local-value frame holds for `p`, if any. */
  function LocalEntryId(w: World, o: ObjId, p: PropId): (r: Option<EntryId>)
    requires o in w.stores
    ensures r.Some? ==> r.value in w.entries && w.entries[r.value].Local?
  {
    var g := w.stores[o].local;
    if g.Some? && g.value in w.frames && w.frames[g.value].LocalFrame? then
      var m := FrameMaps.TryGet(w.frames[g.value].values, p);
      if m.Some? && m.value in w.entries && w.entries[m.value].Local? then m else None
    else None
  }

  /** An event on store `o`'s local entry for `p`: the entry takes its step,
      then its calls are carried out on behalf of the local-value frame.
      Without such an entry the event is ignored. */
  function LocalEvent(w: World, o: ObjId, p: PropId, ev: L.Event): (r: (World, seq<Output>))
    requires o in w.stores
    ensures r.0.stores.Keys == w.stores.Keys
    ensures LocalEntryId(w, o, p).None? ==> r == (w, [])
  {
    var m := LocalEntryId(w, o, p);
    if m.Some? then
      var (le, fx) := L.Step(w.entries[m.value].local, ev);
      Dispatch(w.(entries := w.entries[m.value := Local(le)]), o, w.stores[o].local.value, fx)
    else (w, [])
  }

  /** The activator of style frame `f` pushes `value`: the instance records
      it, and a flip is reported to the store the instance belongs to, which
      re-evaluates everything. */
  function ActivatorNext(w: World, f: FrameId, value: bool): (r: (World, seq<Output>))
    ensures r.0.stores.Keys == w.stores.Keys
    ensures !(f in w.frames && w.frames[f].StyleFrame?) ==> r == (w, [])
  {
    if f in w.frames && w.frames[f].StyleFrame? then
      var si := w.frames[f].instance;
      var (si', fx) := SI.OnNext(si, value);
      var w1 := w.(frames := w.frames[f := StyleFrame(si')]);
      if si.store.Some? && si.store.value in w.stores then
        Dispatch(w1, si.store.value, f, fx)
      else (w1, [])
    else (w, [])
  }

  /** A setter binding instance of style frame `f`, filed under `p`, receives
      `v` from its binding: it stores the object and tells the instance's
      store, untyped, with the object it held before. */
  function SetterBindingNext(w: World, f: FrameId, p: PropId, v: SB.Pushed): (r: (World, seq<Output>))
    ensures r.0.stores.Keys == w.stores.Keys
  {
    if f in w.frames && w.frames[f].StyleFrame? then
      var si := w.frames[f].instance;
      var m := FrameMaps.TryGet(si.values, p);
      if m.Some? && m.value in w.entries && w.entries[m.value].SetterBinding? then
        var (sb, fx) := SB.OnNext(w.entries[m.value].instance, v, si.store.Some?);
        var w1 := w.(entries := w.entries[m.value := SetterBinding(sb)]);
        if si.store.Some? && si.store.value in w.stores then Dispatch(w1, si.store.value, f, fx)
        else (w1, [])
      else (w, [])
    else (w, [])
  }

  // ---------------------------------------------------------------------------
  // Public operations

  /** `BeginStyling`: open a styling bracket. */
  function BeginStyling(w: World, o: ObjId): (r: World)
    requires o in w.stores
    ensures r.stores.Keys == w.stores.Keys && r.stores[o].styling == w.stores[o].styling + 1
    ensures r.stores[o].(styling := w.stores[o].styling) == w.stores[o]
    ensures forall o' :: o' in w.stores && o' != o ==> r.stores[o'] == w.stores[o']
    ensures r.frames == w.frames && r.entries == w.entries && r.props == w.props
      && r.types == w.types && r.tree == w.tree && r.next == w.next
  {
    UpdateStore(w, o, w.stores[o].(styling := w.stores[o].styling + 1))
  }

  /** `ApplyStyle`: add the frame; re-evaluate everything unless a styling
      bracket is open. */
  function ApplyStyle(w: World, o: ObjId, f: FrameId): (r: (World, seq<Output>))
    requires o in w.stores
    ensures r.0.stores.Keys == w.stores.Keys
  {
    var w1 := AddFrame(w, o, f);
    if w.stores[o].styling == 0 then ReevaluateAll(w1, o) else (w1, [])
  }

  /** `EndStyling`: close a bracket; the one that brings the counter back to
      zero re-evaluates everything. */
  function EndStyling(w: World, o: ObjId): (r: (World, seq<Output>))
    requires o in w.stores
    ensures r.0.stores.Keys == w.stores.Keys
  {
    var s := w.stores[o];
    var w1 := UpdateStore(w, o, s.(styling := s.styling - 1));
    if s.styling - 1 == 0 then ReevaluateAll(w1, o) else (w1, [])
  }

  /** Ids below `next` are taken; local frames hold local entries. */
  predicate Ready(w: World, o: ObjId) {
    && o in w.stores
    && (forall f :: f in w.frames ==> f < w.next)
    && (forall e :: e in w.entries ==> e < w.next)
    && (w.stores[o].local.Some? ==>
         var g := w.stores[o].local.value;
         g in w.frames && w.frames[g].LocalFrame? && LF.Holds(w.frames[g].values, w.entries))
  }

  /** The local-value frame, created and added on first use. */
  function EnsureLocalFrame(w: World, o: ObjId): (r: (World, FrameId))
    requires Ready(w, o)
    ensures Ready(r.0, o) && r.0.stores[o].local == Some(r.1)
    ensures r.0.stores.Keys == w.stores.Keys && r.0.entries == w.entries
    ensures w.stores[o].local.Some? ==> r == (w, w.stores[o].local.value)
  {
    var s := w.stores[o];
    if s.local.Some? then (w, s.local.value)
    else
      var g := w.next;
      var w1 := w.(frames := w.frames[g := LocalFrame([])], next := w.next + 1);
      var w2 := UpdateStore(w1, o, s.(local := Some(g)));
      (AddFrame(w2, o, g), g)
  }

  /** The world after a local-frame step on frame `g`. */
  function Commit(w: World, g: FrameId, st: LF.Step): World {
    w.(frames := w.frames[g := LocalFrame(st.values)], entries := st.entries, next := st.next)
  }

  /** `SetLocalValue`: a value the property's validator refuses is rejected
      before anything changes; otherwise the local frame's entry takes it and
      its change notification re-evaluates the property. */
  function SetLocalValue(w: World, o: ObjId, p: PropId, v: Value): (r: Result<(World, seq<Output>)>)
    requires Ready(w, o) && p in w.props
    ensures r.Fail? <==> !Properties.Accepts(w.props[p].validate, v)
    ensures r.Fail? ==> r.error == InvalidValue
    ensures r.Ok? ==> r.value.0.stores.Keys == w.stores.Keys
  {
    if !Properties.Accepts(w.props[p].validate, v) then Fail(InvalidValue)
    else
      var (w1, g) := EnsureLocalFrame(w, o);
      var st := LF.SetValue(LocalValuesOf(w1, g), w1.entries, w1.next, p, v);
      Ok(Dispatch(Commit(w1, g, st), o, g, st.effects))
  }

  /** `ClearLocalValue` as written: the frame drops the property's entry,
      nothing is re-evaluated and a live binding is dropped with it. The
      frame's `ClearValue` is taken to remove the property, as the
      non-boxing draft's local frame does; the frame the store compiles
      against is not part of this model. */
  function ClearLocalValueAsWritten(w: World, o: ObjId, p: PropId): (r: World)
    requires o in w.stores
    ensures r.stores == w.stores && r.entries == w.entries
  {
    var g := w.stores[o].local;
    if g.Some? && g.value in w.frames && w.frames[g.value].LocalFrame? then
      w.(frames := w.frames[g.value := LocalFrame(LF.ClearValue(w.frames[g.value].values, p).0)])
    else w
  }

  /** `ClearLocalValue` as the entry's own `ClearValue` intends it: the entry
      leaves the frame only when no binding is live, and a value it had is
      re-evaluated away. */
  function ClearLocalValue(w: World, o: ObjId, p: PropId): (r: (World, seq<Output>))
    requires Ready(w, o)
    ensures r.0.stores.Keys == w.stores.Keys
  {
    var g := w.stores[o].local;
    if g.None? then (w, [])
    else
      match FrameMaps.TryGet(w.frames[g.value].values, p)
      case None => (w, [])
      case Some(e) =>
        var (le, fx) := L.ClearValue(w.entries[e].local);
        Dispatch(w.(entries := w.entries[e := Local(le)]), o, g.value, fx)
  }

  /** `AddBinding`: a local-value binding goes into the local frame's entry
      without re-evaluation; any other priority gets a binding entry of its
      own, added as a frame, and the property is re-evaluated. The id of the
      entry that serves as the subscription handle comes back too. */
  function AddBinding(w: World, o: ObjId, p: PropId, source: SourceId, priority: int)
    : (r: (World, seq<Output>, EntryId))
    requires Ready(w, o)
    ensures r.0.stores.Keys == w.stores.Keys
    ensures r.2 in r.0.entries
  {
    if priority == LocalValue then
      var (w1, g) := EnsureLocalFrame(w, o);
      var st := LF.AddBinding(LocalValuesOf(w1, g), w1.entries, w1.next, p, source);
      (Commit(w1, g, st), Externals(o, st.effects), st.entry)
    else
      var e := w.next;
      var f := w.next + 1;
      var w1 := w.(entries := w.entries[e := Binding(B.Create(p, source, priority))],
                   frames := w.frames[f := BindingFrame(e)], next := w.next + 2);
      var w2 := AddFrame(w1, o, f);
      var (w3, out) := ReevaluateCurrent(w2, o, p);
      (w3, out, e)
  }

  /** `GetValue`: the cached entry's value, otherwise the type's default. */
  function GetValue(w: World, o: ObjId, p: PropId): Value
    requires o in w.stores
  {
    var c := FrameMaps.TryGet(w.stores[o].cache, p);
    if c.Some? then ReadTypedId(w, c.value) else DefaultOf(w, o, p)
  }

  /** `IsAnimating`: the property's value wins above the local-value tier.
      The evaluation's reads start what they touch. */
  function IsAnimating(w: World, o: ObjId, p: PropId): (r: (bool, World, seq<Output>))
    requires o in w.stores
    ensures r.1.stores == w.stores && r.1.entries.Keys == w.entries.Keys
  {
    var (w1, fx) := S.Perform(w, S.EvaluateReads(w, o, p));
    var ev := Evaluate(w1, o, p);
    (ev.Some? && ev.value.priority < LocalValue, w1, Externals(o, fx))
  }

  /** `IsSet`: some frame, active or not, has an entry for `p` with a value.
      The `HasValue` reads start what they touch. */
  function IsSet(w: World, o: ObjId, p: PropId): (r: (bool, World, seq<Output>))
    requires o in w.stores
    ensures r.0 <==> exists i :: 0 <= i < |w.stores[o].frames| && Supplies(w, w.stores[o].frames[i], p)
    ensures r.1.stores == w.stores && r.1.entries.Keys == w.entries.Keys
  {
    var ts := S.IsSetReads(w, w.stores[o].frames, p);
    var (w1, fx) := S.Perform(w, ts);
    S.PerformStartsOnly(w, ts);
    SuppliesUnstarted(w, w1, w.stores[o].frames, p);
    (AnySupplies(w1, w.stores[o].frames, p), w1, Externals(o, fx))
  }

  /** Starting entries changes no frame's answer to `IsSet`. */
  lemma SuppliesUnstarted(w: World, w': World, fs: seq<FrameId>, p: PropId)
    requires S.StartsOnly(w, w')
    ensures forall i :: 0 <= i < |fs| ==> Supplies(w', fs[i], p) == Supplies(w, fs[i], p)
  {
    S.StartsInvisible(w, w');
    forall i | 0 <= i < |fs| ensures Supplies(w', fs[i], p) == Supplies(w, fs[i], p) {
      assert LayerOf(w', fs[i]) == LayerOf(w, fs[i]);
    }
  }

  /** Frame `f` has an entry for `p` that holds a value. */
  predicate Supplies(w: World, f: FrameId, p: PropId) {
    C.FirstPresent(Candidates(w, f), p).Some?
  }

  /** The scan from the strongest frame down. */
  function AnySupplies(w: World, fs: seq<FrameId>, p: PropId): (r: bool)
    ensures r <==> exists i :: 0 <= i < |fs| && Supplies(w, fs[i], p)
  {
    var flags := SupplyFlags(w, fs, p);
    var r := AnyFlag(flags);
    assert r ==> exists i :: 0 <= i < |fs| && Supplies(w, fs[i], p) by {
      if r {
        var i :| 0 <= i < |flags| && flags[i];
        assert Supplies(w, fs[i], p);
      }
    }
    assert (exists i :: 0 <= i < |fs| && Supplies(w, fs[i], p)) ==> r by {
      if exists i :: 0 <= i < |fs| && Supplies(w, fs[i], p) {
        var i :| 0 <= i < |fs| && Supplies(w, fs[i], p);
        assert flags[i];
      }
    }
    r
  }

  /** Frame by frame, whether it supplies `p`. */
  function SupplyFlags(w: World, fs: seq<FrameId>, p: PropId): (r: seq<bool>)
    ensures |r| == |fs| && forall i :: 0 <= i < |fs| ==> r[i] == Supplies(w, fs[i], p)
  {
    seq(|fs|, i requires 0 <= i < |fs| => Supplies(w, fs[i], p))
  }

  /** Some flag is set, looking from the last one down. */
  function AnyFlag(flags: seq<bool>): (r: bool)
    ensures r <==> exists i :: 0 <= i < |flags| && flags[i]
    decreases |flags|
  {
    if |flags| == 0 then false
    else
      var n := |flags| - 1;
      assert forall i :: 0 <= i < n ==> flags[..n][i] == flags[i];
      flags[n] || AnyFlag(flags[..n])
  }

  /** The new parent's inheritance frame, created there when it has none. */
  function ParentFrame(w: World, newParent: Option<ObjId>): (r: (World, Option<FrameId>))
    requires newParent.Some? ==> newParent.value in w.stores
    ensures r.0.stores.Keys == w.stores.Keys
    ensures newParent.None? ==> r == (w, None)
  {
    if newParent.Some? then var (w', g) := GetInheritanceFrame(w, newParent.value); (w', Some(g))
    else (w, None)
  }

  /** `InheritanceParentChanged` as written: take the new parent's
      inheritance frame, re-parent an owned frame or adopt the parent's
      frame, then re-evaluate everything. It reaches the same world as the
      corrected version, but a re-parented owned frame is not passed on: no
      child hears of it. */
  function InheritanceParentChangedAsWritten(w: World, o: ObjId, newParent: Option<ObjId>): (r: (World, seq<Output>))
    requires o in w.stores && (newParent.Some? ==> newParent.value in w.stores)
    ensures r.0 == InheritanceParentChanged(w, o, newParent).0
    ensures var w1 := ParentFrame(w, newParent).0;
      var f := w1.stores[o].inheritance;
      f.Some? && OwnsFrame(w1, o, f.value) ==> forall x :: x in r.1 ==> !x.ParentFrameChanged?
  {
    var (w1, frame) := ParentFrame(w, newParent);
    AsWrittenFrameStep(w1, o, frame);
    var (w2, calls) := ParentInheritanceFrameChangedAsWritten(w1, o, frame);
    var (w3, ns) := ReevaluateAll(w2, o);
    (w3, calls + ns)
  }

  /** The as-written frame step followed by the batch pass reaches the
      corrected world; with an owned frame it tells no child anything. */
  lemma AsWrittenFrameStep(w: World, o: ObjId, frame: Option<FrameId>)
    requires o in w.stores
    ensures var (w2, calls) := ParentInheritanceFrameChangedAsWritten(w, o, frame);
      && ReevaluateAll(w2, o).0 == ParentInheritanceFrameChanged(w, o, frame).0
      && var f := w.stores[o].inheritance;
         (f.Some? && OwnsFrame(w, o, f.value) ==> forall x :: x in calls + ReevaluateAll(w2, o).1 ==> !x.ParentFrameChanged?)
  {
    var (w2, calls) := ParentInheritanceFrameChangedAsWritten(w, o, frame);
    assert w2 == Reattach(w, o, frame).0;
    ReevaluateAllOutputs(w2, o);
    var f := w.stores[o].inheritance;
    if f.Some? && OwnsFrame(w, o, f.value) {
      assert calls + ReevaluateAll(w2, o).1 == ReevaluateAll(w2, o).1;
    }
  }

  /** `InheritanceParentChanged`, corrected: take the new parent's frame,
      then handle it as a changed parent frame (`ParentInheritanceFrameChanged`),
      which re-evaluates the store and tells every child. */
  function InheritanceParentChanged(w: World, o: ObjId, newParent: Option<ObjId>): (r: (World, seq<Output>))
    requires o in w.stores && (newParent.Some? ==> newParent.value in w.stores)
    ensures r.0.stores.Keys == w.stores.Keys
  {
    var (w1, frame) := ParentFrame(w, newParent);
    ParentInheritanceFrameChanged(w1, o, frame)
  }

  /** The batch pass only raises notifications and passes on the calls its
      reads made: it tells no child anything. */
  lemma ReevaluateAllOutputs(w: World, o: ObjId)
    requires o in w.stores
    ensures forall x :: x in ReevaluateAll(w, o).1 ==> x.Changed? || x.External?
  {
    var ts := S.BatchReads(w, o);
    var (w1, fx) := S.Perform(w, ts);
    var out := ReevaluateAll(w, o).1;
    forall x | x in out ensures x.Changed? || x.External? {
      var i :| 0 <= i < |out| && out[i] == x;
    }
  }

  /** `InheritedValueChanged`: a property the owned frame holds stops the
      propagation; otherwise the property is re-evaluated and the children
      are told. A store without an inheritance frame dereferences null. */
  function InheritedValueChangedAt(w: World, o: ObjId, p: PropId): (r: Result<(World, seq<Output>)>)
    requires o in w.stores
    ensures r.Fail? <==> w.stores[o].inheritance.None?
    ensures r.Ok? ==> r.value.0.stores.Keys == w.stores.Keys
  {
    var f := w.stores[o].inheritance;
    if f.None? then Fail(NullReference)
    else if OwnsFrame(w, o, f.value) && FrameMaps.TryGet(w.frames[f.value].values, p).Some? then Ok((w, []))
    else
      var (w1, out) := ReevaluateCurrent(w, o, p);
      Ok((w1, out + NotifyChildren(w1, o, p)))
  }
}
