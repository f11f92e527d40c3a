/**
 * The boxing prototype's `ValueStore`: the sorted frame list, the styling
 * counter that defers the batch pass, and the dictionary of effective values
 * (a null dictionary and an empty one answer every read alike, so the model
 * starts from an empty one). The local-value frame is the one `LocalFrame`
 * in the list. Re-evaluation requests an entry makes (`ValueChanged`,
 * `LocalValueChanged`) are carried out by the operation that caused them;
 * subscriptions and disposals leave the store as calls.
 */
module BoxedStores {
  import opened Base
  import opened Effects
  import FrameMaps
  import FrameOrder
  import C = Cascade
  import PL = PrototypeLocalEntries
  import BB = BoxedBindingEntries
  import opened BoxedCascade

  datatype BoxedStore = BoxedStore(applyingStyles: int, frames: seq<BoxedFrame>, values: FrameMaps.FrameMap<Value>)

  /** A store after an operation, the `PropertyChanged` notifications it
      raised, and the calls it made on observables, in order. */
  datatype Outcome = Outcome(store: BoxedStore, notices: seq<C.Notice>, calls: seq<Effect>)

  function Empty(): (s: BoxedStore)
    ensures s.frames == [] && s.applyingStyles == 0
    ensures forall q :: FrameMaps.TryGet(s.values, q).None?
  {
    BoxedStore(0, [], [])
  }

  // ---------------------------------------------------------------------------
  // Invariants

  /** Every entry of a local frame is filed under its own property. */
  predicate KeyedLocal(m: FrameMaps.FrameMap<PL.ProtoLocal>) {
    forall q :: q in FrameMaps.ToMap(m) ==> FrameMaps.ToMap(m)[q].prop == q
  }

  /** `_localValues` is created once, so the list holds at most one local
      frame; its entries are keyed by their property; and every binding entry
      in the list has been given its owner by `AddFrame`. */
  ghost predicate WellFormed(frames: seq<BoxedFrame>) {
    && (forall i, j :: 0 <= i < |frames| && 0 <= j < |frames| && frames[i].LocalFrame? && frames[j].LocalFrame? ==> i == j)
    && (forall i :: 0 <= i < |frames| && frames[i].LocalFrame? ==> KeyedLocal(frames[i].values))
    && (forall i :: 0 <= i < |frames| && frames[i].BindingFrame? ==> frames[i].binding.owned)
  }

  /** The dictionary holds, for every property, what the scan finds. */
  ghost predicate Consistent(s: BoxedStore) {
    forall q :: FrameMaps.TryGet(s.values, q) == Effective(s.frames, q)
  }

  /** ... for every property except `p`. */
  ghost predicate AgreesExcept(s: BoxedStore, p: PropId) {
    forall q :: q != p ==> FrameMaps.TryGet(s.values, q) == Effective(s.frames, q)
  }

  // ---------------------------------------------------------------------------
  // Reads

  /** `TryGetValue`: the cached effective value, if any. */
  function TryGetValue(s: BoxedStore, p: PropId): Option<Value> {
    FrameMaps.TryGet(s.values, p)
  }

  /** `GetValue`: the cached effective value, else the per-type default. */
  function GetValue(s: BoxedStore, p: PropId, dflt: PropId -> Value): Value {
    OrElse(TryGetValue(s, p), dflt(p))
  }

  /** On a consistent store both reads answer what the scan finds. */
  lemma ReadsEffective(s: BoxedStore, p: PropId, dflt: PropId -> Value)
    requires Consistent(s)
    ensures TryGetValue(s, p) == Effective(s.frames, p)
    ensures GetValue(s, p, dflt) == OrElse(Effective(s.frames, p), dflt(p))
  {
  }

  /** `IsSet`: some frame, active or not, has an entry for `p` with a value. */
  function IsSet(s: BoxedStore, p: PropId): (r: bool)
    ensures r <==> exists i :: 0 <= i < |s.frames| && Offer(s.frames[i], p).Some?
  {
    AnyOffers(s.frames, p)
  }

  function AnyOffers(frames: seq<BoxedFrame>, p: PropId): (r: bool)
    ensures r <==> exists i :: 0 <= i < |frames| && Offer(frames[i], p).Some?
    decreases |frames|
  {
    if |frames| == 0 then false
    else if Offer(frames[|frames| - 1], p).Some? then true
    else
      var init := frames[..|frames| - 1];
      assert forall i :: 0 <= i < |init| ==> init[i] == frames[i];
      AnyOffers(init, p)
  }

  /** Whatever the store's effective value, `IsSet` saw the entry it came
      from; it may also see entries of inactive frames. */
  lemma EffectiveIsSet(s: BoxedStore, p: PropId)
    ensures Effective(s.frames, p).Some? ==> IsSet(s, p)
  {
    if Effective(s.frames, p).Some? {
      var i := ScanWinner(s.frames, p);
    }
  }

  // ---------------------------------------------------------------------------
  // Frames

  /** `SetOwner(this)`: only a binding entry records its owner. */
  function Owned(f: BoxedFrame): (r: BoxedFrame)
    ensures Priority(r) == Priority(f) && Active(r) == Active(f)
    ensures forall q :: Offer(r, q) == Offer(f, q)
    ensures r.LocalFrame? == f.LocalFrame? && (f.LocalFrame? ==> r == f)
    ensures r.BindingFrame? == f.BindingFrame? && (f.BindingFrame? ==> r.binding == BB.SetOwner(f.binding, true))
  {
    if f.BindingFrame? then BindingFrame(BB.SetOwner(f.binding, true)) else f
  }

  function Priorities(frames: seq<BoxedFrame>): (r: seq<int>)
    ensures |r| == |frames| && forall i :: 0 <= i < |frames| ==> r[i] == Priority(frames[i])
  {
    seq(|frames|, i requires 0 <= i < |frames| => Priority(frames[i]))
  }

  /** `AddFrame`'s insertion point: where `List.BinarySearch` under
      `FrameComparer` leaves the frame. */
  function Slot(frames: seq<BoxedFrame>, f: BoxedFrame): (k: nat)
    ensures k <= |frames|
  {
    FrameOrder.InsertionIndex(Priorities(frames), Priority(f))
  }

  /** `AddFrame`: insert at that point, then hand the frame its owner. */
  function AddFrame(frames: seq<BoxedFrame>, f: BoxedFrame): (r: seq<BoxedFrame>)
    ensures r == FrameOrder.InsertAt(frames, Slot(frames, f), Owned(f))
  {
    FrameOrder.InsertAt(frames, Slot(frames, f), Owned(f))
  }

  /** The frame list stays sorted weakest first, and a new frame lands after
      every frame of its own priority, so the newest of equals wins. */
  lemma AddFrameSorted(frames: seq<BoxedFrame>, f: BoxedFrame)
    requires FrameOrder.Sorted(Priorities(frames)) && FrameOrder.NoOverflow(Priorities(frames), Priority(f))
    ensures FrameOrder.Sorted(Priorities(AddFrame(frames, f)))
    ensures forall i :: 0 <= i < |frames| && Priority(frames[i]) == Priority(f) ==> i < Slot(frames, f)
  {
    var ps := Priorities(frames);
    FrameOrder.InsertKeepsOrder(ps, Priority(f));
    assert Priorities(AddFrame(frames, f)) == FrameOrder.InsertAt(ps, Slot(frames, f), Priority(f));
  }

  /** A frame added without a value for `q` leaves `q`'s scan alone. */
  lemma AddFrameMiss(frames: seq<BoxedFrame>, f: BoxedFrame, q: PropId)
    requires !Supplies(f, q)
    ensures Scan(AddFrame(frames, f), q) == Scan(frames, q)
  {
    ScanInsertMiss(frames, Slot(frames, f), Owned(f), q);
  }

  /** The index of the local-value frame, if the list has one. */
  function LocalAt(frames: seq<BoxedFrame>): (r: Option<nat>)
    ensures r.Some? ==> r.value < |frames| && frames[r.value].LocalFrame?
    ensures r.Some? ==> forall j :: r.value < j < |frames| ==> !frames[j].LocalFrame?
    ensures r.None? ==> forall i :: 0 <= i < |frames| ==> !frames[i].LocalFrame?
    decreases |frames|
  {
    if |frames| == 0 then None
    else if frames[|frames| - 1].LocalFrame? then Some(|frames| - 1)
    else
      var init := frames[..|frames| - 1];
      assert forall i :: 0 <= i < |init| ==> init[i] == frames[i];
      LocalAt(init)
  }

  /** Rewriting the local frame's entries keeps it where it is. */
  lemma LocalAtEdit(frames: seq<BoxedFrame>, m': FrameMaps.FrameMap<PL.ProtoLocal>)
    requires LocalAt(frames).Some?
    ensures LocalAt(frames[LocalAt(frames).value := LocalFrame(m')]) == LocalAt(frames)
  {
    var i := LocalAt(frames).value;
    var g := frames[i := LocalFrame(m')];
    assert g[i].LocalFrame?;
    assert forall k :: i < k < |g| ==> g[k] == frames[k];
  }

  /** Inserting a frame keeps the invariant when it is not a second local
      frame, a new local frame is keyed, and a binding frame is owned. */
  lemma InsertWellFormed(frames: seq<BoxedFrame>, k: nat, f: BoxedFrame)
    requires WellFormed(frames) && k <= |frames|
    requires f.LocalFrame? ==> LocalAt(frames).None? && KeyedLocal(f.values)
    requires f.BindingFrame? ==> f.binding.owned
    ensures WellFormed(FrameOrder.InsertAt(frames, k, f))
  {
    var g := FrameOrder.InsertAt(frames, k, f);
    forall i, j | 0 <= i < |g| && 0 <= j < |g| && g[i].LocalFrame? && g[j].LocalFrame? ensures i == j {
      var i' := if i < k then i else i - 1;
      var j' := if j < k then j else j - 1;
      assert i != k ==> g[i] == frames[i'];
      assert j != k ==> g[j] == frames[j'];
    }
    forall i | 0 <= i < |g| && g[i].LocalFrame? ensures KeyedLocal(g[i].values) {
      if i < k { assert g[i] == frames[i]; } else if i > k { assert g[i] == frames[i - 1]; }
    }
    forall i | 0 <= i < |g| && g[i].BindingFrame? ensures g[i].binding.owned {
      if i < k { assert g[i] == frames[i]; } else if i > k { assert g[i] == frames[i - 1]; }
    }
  }

  /** `_localValues ??= new LocalValueFrame(); AddFrame(_localValues)`. */
  function EnsureLocal(frames: seq<BoxedFrame>): (r: seq<BoxedFrame>)
    ensures LocalAt(r).Some?
    ensures LocalAt(frames).Some? ==> r == frames
    ensures LocalAt(frames).None? ==> r == AddFrame(frames, LocalFrame([]))
  {
    if LocalAt(frames).Some? then frames
    else
      var r := AddFrame(frames, LocalFrame([]));
      assert r[Slot(frames, LocalFrame([]))].LocalFrame?;
      r
  }

  /** Creating the local frame changes no property's scan and keeps the
      invariant. */
  lemma EnsureLocalHarmless(frames: seq<BoxedFrame>)
    requires WellFormed(frames)
    ensures WellFormed(EnsureLocal(frames))
    ensures forall q :: Scan(EnsureLocal(frames), q) == Scan(frames, q)
  {
    if LocalAt(frames).None? {
      var f := LocalFrame([]);
      InsertWellFormed(frames, Slot(frames, f), f);
      forall q ensures Scan(EnsureLocal(frames), q) == Scan(frames, q) {
        LocalOffer([], q);
        AddFrameMiss(frames, f, q);
      }
    }
  }

  /** What the entry under `p` offers the scan. */
  function LocalValueOf(m: FrameMaps.FrameMap<PL.ProtoLocal>, p: PropId): Option<Value> {
    if FrameMaps.TryGet(m, p).Some? then FrameMaps.TryGet(m, p).value.value else None
  }

  /** Rewriting the local frame's entries for the properties in `ps` leaves
      every other property's scan alone. */
  lemma LocalEditOutside(frames: seq<BoxedFrame>, i: nat, m': FrameMaps.FrameMap<PL.ProtoLocal>, ps: set<PropId>, q: PropId)
    requires i < |frames| && frames[i].LocalFrame? && q !in ps
    requires forall k :: k !in ps ==> LocalValueOf(m', k) == LocalValueOf(frames[i].values, k)
    ensures Scan(frames[i := LocalFrame(m')], q) == Scan(frames, q)
  {
    LocalOffer(m', q);
    LocalOffer(frames[i].values, q);
    var g := frames[i := LocalFrame(m')];
    assert forall j :: 0 <= j < |frames| ==> SameFor(frames[j], g[j], q);
    ScanPointwise(frames, g, q);
  }

  /** Keeping a local frame keyed keeps the invariant. */
  lemma LocalEditWellFormed(frames: seq<BoxedFrame>, i: nat, m': FrameMaps.FrameMap<PL.ProtoLocal>)
    requires WellFormed(frames) && i < |frames| && frames[i].LocalFrame? && KeyedLocal(m')
    ensures WellFormed(frames[i := LocalFrame(m')])
  {
  }

  // ---------------------------------------------------------------------------
  // Re-evaluation

  /** `ReevaluateEffectiveValue(property)`: rescan one property, store or drop
      its cached value, and raise a change when the value read by `GetValue`
      moved. */
  function Reevaluate(s: BoxedStore, p: PropId, dflt: PropId -> Value): (r: Outcome)
    ensures r.store.frames == s.frames && r.store.applyingStyles == s.applyingStyles && r.calls == []
    ensures TryGetValue(r.store, p) == Effective(s.frames, p)
    ensures forall q :: q != p ==> TryGetValue(r.store, q) == TryGetValue(s, q)
    ensures |r.notices| <= 1
    ensures |r.notices| == 1 <==> GetValue(s, p, dflt) != GetValue(r.store, p, dflt)
    ensures |r.notices| == 1 ==>
      r.notices[0] == C.Notice(p, Boxed(GetValue(s, p, dflt)), Boxed(GetValue(r.store, p, dflt)), ScanPriority(s.frames, p))
  {
    var newValue := dflt(p);
    var oldValue := OrElse(TryGetValue(s, p), newValue);
    match Scan(s.frames, p)
    case Some(found) =>
      var values := FrameMaps.Set(s.values, p, found.value);
      assert FrameMaps.ToMap(values) == FrameMaps.ToMap(s.values)[p := found.value];
      Outcome(s.(values := values), Raise(p, oldValue, found.value, found.priority), [])
    case None =>
      var (values, _) := FrameMaps.Remove(s.values, p);
      assert FrameMaps.ToMap(values) == FrameMaps.ToMap(s.values) - {p};
      Outcome(s.(values := values), Raise(p, oldValue, newValue, Unset), [])
  }

  /** Re-evaluating the one property that may be stale makes the store
      consistent. */
  lemma ReevaluateRepairs(s: BoxedStore, p: PropId, dflt: PropId -> Value)
    requires AgreesExcept(s, p)
    ensures Consistent(Reevaluate(s, p, dflt).store)
  {
  }

  /** `ReevaluateEffectiveValues`: rebuild the dictionary from a full pass,
      install it, then report the difference. */
  function ReevaluateAll(s: BoxedStore, dflt: PropId -> Value, registered: set<PropId>): (r: Outcome)
    ensures r.store.frames == s.frames && r.store.applyingStyles == s.applyingStyles && r.calls == []
  {
    var picks := Collect([], s.frames);
    var notices := NewNotices(picks, FrameMaps.ToMap(s.values), dflt, registered)
      + StaleNotices(s.values, picks, dflt, registered);
    Outcome(s.(values := Install(picks)), notices, [])
  }

  /** After the batch pass the dictionary agrees with the scan everywhere,
      whatever state it was in before. */
  lemma ReevaluateAllConsistent(s: BoxedStore, dflt: PropId -> Value, registered: set<PropId>)
    ensures Consistent(ReevaluateAll(s, dflt, registered).store)
  {
    forall q ensures TryGetValue(ReevaluateAll(s, dflt, registered).store, q) == Effective(s.frames, q) {
      Rebuild(s.frames, q);
    }
  }

  /** The batch pass reports a registered property exactly when the value
      `GetValue` reads for it changed, and then once, with the old and new
      value and the priority of the new value's frame (`Unset` when it fell
      back to the default). Unregistered properties are never reported. */
  lemma ReevaluateAllReports(s: BoxedStore, dflt: PropId -> Value, registered: set<PropId>, q: PropId)
    ensures var r := ReevaluateAll(s, dflt, registered);
      C.Mentions(r.notices, q) <==> q in registered && GetValue(s, q, dflt) != GetValue(r.store, q, dflt)
    ensures var r := ReevaluateAll(s, dflt, registered);
      forall i :: 0 <= i < |r.notices| && r.notices[i].prop == q ==>
        r.notices[i] == C.Notice(q, Boxed(GetValue(s, q, dflt)), Boxed(GetValue(r.store, q, dflt)), ScanPriority(s.frames, q))
  {
    var r := ReevaluateAll(s, dflt, registered);
    var picks := Collect([], s.frames);
    Rebuild(s.frames, q);
    var before := FrameMaps.ToMap(s.values);
    var xs := NewNotices(picks, before, dflt, registered);
    var ys := StaleNotices(s.values, picks, dflt, registered);
    NewNoticesSpec(picks, before, dflt, registered, q);
    StaleNoticesSpec(s.values, picks, dflt, registered, q);
    C.MentionsAppend(xs, ys, q);
    assert r.notices == xs + ys;
    assert GetValue(s, q, dflt) == if q in before then before[q] else dflt(q);
    if Lookup(picks, q).Some? {
      assert !C.Mentions(ys, q);
    } else {
      assert !C.Mentions(xs, q);
    }
    forall i | 0 <= i < |r.notices| && r.notices[i].prop == q
      ensures r.notices[i] == C.Notice(q, Boxed(GetValue(s, q, dflt)), Boxed(GetValue(r.store, q, dflt)), ScanPriority(s.frames, q))
    {
      if i < |xs| {
        assert xs[i].prop == q;
      } else {
        assert ys[i - |xs|].prop == q;
      }
    }
  }

  // ---------------------------------------------------------------------------
  // Styling

  /** `BeginStyling`: one more style application in progress. */
  function BeginStyling(s: BoxedStore): (r: BoxedStore)
    ensures r.applyingStyles == s.applyingStyles + 1
    ensures r.frames == s.frames && r.values == s.values
  {
    s.(applyingStyles := s.applyingStyles + 1)
  }

  /** `ApplyStyle`: the style's frame is added; the batch pass runs only when
      no styling is in progress, otherwise the dictionary is left for
      `EndStyling`. */
  function ApplyStyle(s: BoxedStore, style: BoxedFrame, dflt: PropId -> Value, registered: set<PropId>): (r: Outcome)
    requires style.StyleFrame?
    ensures r.store.frames == AddFrame(s.frames, style) && r.store.applyingStyles == s.applyingStyles
    ensures s.applyingStyles == 0 ==> Consistent(r.store)
    ensures s.applyingStyles != 0 ==> r.store.values == s.values && r.notices == []
  {
    var s1 := s.(frames := AddFrame(s.frames, style));
    if s.applyingStyles == 0 then
      ReevaluateAllConsistent(s1, dflt, registered);
      ReevaluateAll(s1, dflt, registered)
    else Outcome(s1, [], [])
  }

  /** `EndStyling`: the application that brings the counter back to zero runs
      the deferred batch pass. */
  function EndStyling(s: BoxedStore, dflt: PropId -> Value, registered: set<PropId>): (r: Outcome)
    ensures r.store.applyingStyles == s.applyingStyles - 1 && r.store.frames == s.frames
    ensures s.applyingStyles == 1 ==> Consistent(r.store)
    ensures s.applyingStyles != 1 ==> r.store.values == s.values && r.notices == []
  {
    var s1 := s.(applyingStyles := s.applyingStyles - 1);
    if s1.applyingStyles == 0 then
      ReevaluateAllConsistent(s1, dflt, registered);
      ReevaluateAll(s1, dflt, registered)
    else Outcome(s1, [], [])
  }

  /** Styles applied between `BeginStyling` and `EndStyling` take effect
      together: nothing is reported while they are added, and the store is
      consistent once the bracket closes. */
  lemma StylingDeferred(s: BoxedStore, style1: BoxedFrame, style2: BoxedFrame,
                        dflt: PropId -> Value, registered: set<PropId>)
    requires s.applyingStyles == 0 && style1.StyleFrame? && style2.StyleFrame?
    ensures var s1 := BeginStyling(s);
      var a := ApplyStyle(s1, style1, dflt, registered);
      var b := ApplyStyle(a.store, style2, dflt, registered);
      var e := EndStyling(b.store, dflt, registered);
      a.notices == [] && b.notices == [] && b.store.values == s.values
      && e.store.applyingStyles == 0 && Consistent(e.store)
      && e.store.frames == AddFrame(AddFrame(s.frames, style1), style2)
  {
  }

  /** A style frame flips its activation: `FrameActivationChanged` runs the
      batch pass. */
  function SetStyleActive(s: BoxedStore, i: nat, active: bool, dflt: PropId -> Value, registered: set<PropId>): (r: Outcome)
    requires i < |s.frames| && s.frames[i].StyleFrame?
    ensures r.store.frames == s.frames[i := s.frames[i].(active := active)]
    ensures s.frames[i].active == active ==> r == Outcome(s, [], [])
    ensures s.frames[i].active != active ==> Consistent(r.store)
  {
    if s.frames[i].active == active then Outcome(s, [], [])
    else
      var s1 := s.(frames := s.frames[i := s.frames[i].(active := active)]);
      ReevaluateAllConsistent(s1, dflt, registered);
      ReevaluateAll(s1, dflt, registered)
  }

  // ---------------------------------------------------------------------------
  // Local values

  /** `ClearLocalValue`: the local frame drops the property's entry; only when
      there was one is the property re-evaluated. */
  function ClearLocalValue(s: BoxedStore, p: PropId, dflt: PropId -> Value): (r: Outcome)
    ensures r.store.applyingStyles == s.applyingStyles && r.calls == []
    ensures |r.store.frames| == |s.frames|
    ensures (LocalAt(s.frames).None? || p !in FrameMaps.ToMap(s.frames[LocalAt(s.frames).value].values))
              ==> r == Outcome(s, [], [])
    ensures LocalAt(s.frames).Some? ==>
      var i := LocalAt(s.frames).value;
      r.store.frames[i].LocalFrame?
      && FrameMaps.ToMap(r.store.frames[i].values) == FrameMaps.ToMap(s.frames[i].values) - {p}
      && (forall j :: 0 <= j < |s.frames| && j != i ==> r.store.frames[j] == s.frames[j])
    ensures TryGetValue(r.store, p) == Effective(r.store.frames, p) || r == Outcome(s, [], [])
  {
    match LocalAt(s.frames)
    case None => Outcome(s, [], [])
    case Some(i) =>
      var (m', removed) := FrameMaps.Remove(s.frames[i].values, p);
      if removed then Reevaluate(s.(frames := s.frames[i := LocalFrame(m')]), p, dflt)
      else Outcome(s, [], [])
  }

  /** `ClearLocalValue` keeps the store consistent and well formed, and
      afterwards the local frame has no entry for the property. */
  lemma ClearLocalValueConsistent(s: BoxedStore, p: PropId, dflt: PropId -> Value)
    requires WellFormed(s.frames) && Consistent(s)
    ensures var r := ClearLocalValue(s, p, dflt);
      WellFormed(r.store.frames) && Consistent(r.store)
      && (LocalAt(r.store.frames).Some? ==> p !in FrameMaps.ToMap(r.store.frames[LocalAt(r.store.frames).value].values))
  {
    if LocalAt(s.frames).Some? {
      var i := LocalAt(s.frames).value;
      var (m', removed) := FrameMaps.Remove(s.frames[i].values, p);
      if removed {
        var s1 := s.(frames := s.frames[i := LocalFrame(m')]);
        assert KeyedLocal(m');
        LocalEditWellFormed(s.frames, i, m');
        forall q | q != p ensures Scan(s1.frames, q) == Scan(s.frames, q) {
          LocalEditOutside(s.frames, i, m', {p}, q);
        }
        ReevaluateRepairs(s1, p, dflt);
        LocalAtEdit(s.frames, m');
      }
    }
  }

  /** The property's local entry: the existing one, or a new one. */
  function LocalEntry(m: FrameMaps.FrameMap<PL.ProtoLocal>, p: PropId): (e: PL.ProtoLocal)
    ensures FrameMaps.TryGet(m, p).Some? ==> e == FrameMaps.TryGet(m, p).value
    ensures FrameMaps.TryGet(m, p).None? ==> e == PL.Create(p)
  {
    match FrameMaps.TryGet(m, p)
    case Some(e) => e
    case None => PL.Create(p)
  }

  /** The property an entry's calls ask the store to re-evaluate
      (`LocalValueChanged` / `ValueChanged`), if any. */
  function Requested(fx: seq<Effect>): (r: Option<PropId>)
    ensures r.Some? ==> Effects.Reevaluate(r.value) in fx
    ensures r.None? ==> forall k :: 0 <= k < |fx| ==> !fx[k].Reevaluate?
  {
    if |fx| == 0 then None
    else if fx[0].Reevaluate? then Some(fx[0].prop)
    else
      var r := Requested(fx[1..]);
      assert forall k :: 1 <= k < |fx| ==> fx[k] == fx[1..][k - 1];
      r
  }

  /** The calls an entry makes on observables, which leave the store. */
  function Outward(fx: seq<Effect>): (r: seq<Effect>)
    ensures forall k :: 0 <= k < |r| ==> r[k] in fx && (r[k].Subscribe? || r[k].Unsubscribe?)
    ensures forall k :: 0 <= k < |fx| && (fx[k].Subscribe? || fx[k].Unsubscribe?) ==> fx[k] in r
    ensures (forall k :: 0 <= k < |fx| ==> !fx[k].Subscribe? && !fx[k].Unsubscribe?) ==> r == []
  {
    if |fx| == 0 then []
    else
      var rest := Outward(fx[1..]);
      assert forall k :: 1 <= k < |fx| ==> fx[k] == fx[1..][k - 1];
      if fx[0].Subscribe? || fx[0].Unsubscribe? then [fx[0]] + rest else rest
  }

  /** The local frame at `i` files the updated entry `e` under `p`, and the
      store carries out the entry's calls. */
  function CarryLocal(s: BoxedStore, i: nat, p: PropId, e: PL.ProtoLocal, fx: seq<Effect>, dflt: PropId -> Value): (r: Outcome)
    requires i < |s.frames| && s.frames[i].LocalFrame?
    ensures r.store.applyingStyles == s.applyingStyles && r.calls == Outward(fx)
    ensures r.store.frames == s.frames[i := LocalFrame(FrameMaps.Set(s.frames[i].values, p, e))]
    ensures Requested(fx).None? ==> r.notices == [] && r.store.values == s.values
  {
    var s1 := s.(frames := s.frames[i := LocalFrame(FrameMaps.Set(s.frames[i].values, p, e))]);
    var o := if Requested(fx).Some? then Reevaluate(s1, Requested(fx).value, dflt) else Outcome(s1, [], []);
    Outcome(o.store, o.notices, Outward(fx))
  }

  /** An entry update that re-evaluates its property whenever what it offers
      changes keeps the store consistent. */
  lemma CarryLocalConsistent(s: BoxedStore, p: PropId, e: PL.ProtoLocal, fx: seq<Effect>, dflt: PropId -> Value)
    requires WellFormed(s.frames) && Consistent(s) && LocalAt(s.frames).Some?
    requires e.prop == p
    requires Requested(fx).Some? ==> Requested(fx).value == p
    requires Requested(fx).None? ==> e.value == LocalValueOf(s.frames[LocalAt(s.frames).value].values, p)
    ensures var r := CarryLocal(s, LocalAt(s.frames).value, p, e, fx, dflt);
      WellFormed(r.store.frames) && Consistent(r.store) && LocalAt(r.store.frames) == LocalAt(s.frames)
  {
    var i := LocalAt(s.frames).value;
    var m := s.frames[i].values;
    var m' := FrameMaps.Set(m, p, e);
    var s1 := s.(frames := s.frames[i := LocalFrame(m')]);
    assert KeyedLocal(m') by {
      assert FrameMaps.ToMap(m') == FrameMaps.ToMap(m)[p := e];
      assert KeyedLocal(m);
    }
    LocalEditWellFormed(s.frames, i, m');
    LocalAtEdit(s.frames, m');
    forall q | q != p ensures Scan(s1.frames, q) == Scan(s.frames, q) {
      LocalEditOutside(s.frames, i, m', {p}, q);
    }
    if Requested(fx).Some? {
      ReevaluateRepairs(s1, p, dflt);
    } else {
      LocalOffer(m, p);
      LocalOffer(m', p);
      LocalEditOutside(s.frames, i, m', {}, p);
    }
  }

  /** `SetLocalValue`: make sure the local frame exists, then the property's
      entry (reused or added) takes the value; the entry's own change report
      re-evaluates the property. */
  function SetLocalValue(s: BoxedStore, p: PropId, v: Value, dflt: PropId -> Value): (r: Outcome)
    ensures r.store.applyingStyles == s.applyingStyles && r.calls == []
    ensures LocalAt(r.store.frames).Some?
    ensures var m := r.store.frames[LocalAt(r.store.frames).value].values;
      FrameMaps.TryGet(m, p).Some? && FrameMaps.TryGet(m, p).value.value == Some(v)
  {
    var frames := EnsureLocal(s.frames);
    var i := LocalAt(frames).value;
    var (e, fx) := PL.SetValue(LocalEntry(frames[i].values, p), v);
    LocalAtEdit(frames, FrameMaps.Set(frames[i].values, p, e));
    CarryLocal(s.(frames := frames), i, p, e, fx, dflt)
  }

  /** `SetLocalValue` keeps the store consistent and well formed, and the
      value is then what `GetValue` reads unless a frame above the local one
      supplies the property. */
  lemma SetLocalValueConsistent(s: BoxedStore, p: PropId, v: Value, dflt: PropId -> Value)
    requires WellFormed(s.frames) && Consistent(s)
    ensures var r := SetLocalValue(s, p, v, dflt);
      && WellFormed(r.store.frames) && Consistent(r.store)
      && ((forall j :: LocalAt(r.store.frames).value < j < |r.store.frames| ==> !Supplies(r.store.frames[j], p))
          ==> GetValue(r.store, p, dflt) == v)
  {
    EnsureLocalHarmless(s.frames);
    var frames := EnsureLocal(s.frames);
    var s0 := s.(frames := frames);
    var i := LocalAt(frames).value;
    var m := frames[i].values;
    var e0 := LocalEntry(m, p);
    assert e0.prop == p by {
      if FrameMaps.TryGet(m, p).Some? { assert KeyedLocal(m); }
    }
    var (e, fx) := PL.SetValue(e0, v);
    CarryLocalConsistent(s0, p, e, fx, dflt);
    var r := SetLocalValue(s, p, v, dflt);
    var k := LocalAt(r.store.frames).value;
    LocalOffer(r.store.frames[k].values, p);
    if forall j :: k < j < |r.store.frames| ==> !Supplies(r.store.frames[j], p) {
      ScanTopmost(r.store.frames, p, k);
    }
  }

  /** The local entry for `p` takes an event, given as its new state and its
      calls; an entry the frame no longer holds is not modelled. */
  function LocalEvent(s: BoxedStore, p: PropId, step: (PL.ProtoLocal, seq<Effect>), dflt: PropId -> Value): (r: Outcome)
    requires LocalAt(s.frames).Some? && FrameMaps.TryGet(s.frames[LocalAt(s.frames).value].values, p).Some?
  {
    CarryLocal(s, LocalAt(s.frames).value, p, step.0, step.1, dflt)
  }

  /** The local entry for `p`, when the frame holds one. */
  function LocalOf(s: BoxedStore, p: PropId): Option<PL.ProtoLocal> {
    if LocalAt(s.frames).Some? then FrameMaps.TryGet(s.frames[LocalAt(s.frames).value].values, p) else None
  }

  /** A push to a local binding (`IObserver<object?>.OnNext`): `DoNothing` is
      ignored, `UnsetValue` clears, anything else sets. */
  function LocalNext(s: BoxedStore, p: PropId, v: PL.PushedObject, dflt: PropId -> Value): (r: Outcome)
    requires LocalOf(s, p).Some?
    ensures r.calls == []
    ensures v.DoNothing? ==> r.notices == [] && r.store.values == s.values
  {
    LocalEvent(s, p, PL.OnNextObject(LocalOf(s, p).value, v), dflt)
  }

  /** A local binding completes or fails: the entry's value is cleared. */
  function LocalCompleted(s: BoxedStore, p: PropId, dflt: PropId -> Value): (r: Outcome)
    requires LocalOf(s, p).Some?
    ensures r.calls == []
    ensures LocalOf(r.store, p).Some? && LocalOf(r.store, p).value.value.None?
  {
    var e := LocalOf(s, p).value;
    LocalAtEdit(s.frames, FrameMaps.Set(s.frames[LocalAt(s.frames).value].values, p, PL.OnCompleted(e).0));
    LocalEvent(s, p, PL.OnCompleted(e), dflt)
  }

  /** Disposing what `AddBinding` returned at `LocalValue` (the entry itself):
      its subscription is disposed and its value cleared. */
  function LocalDispose(s: BoxedStore, p: PropId, dflt: PropId -> Value): (r: Outcome)
    requires LocalOf(s, p).Some?
    ensures LocalOf(s, p).value.subscription.Some? ==> Unsubscribe(LocalOf(s, p).value.subscription.value) in r.calls
    ensures LocalOf(r.store, p).Some? && LocalOf(r.store, p).value.value.None?
  {
    var e := LocalOf(s, p).value;
    LocalAtEdit(s.frames, FrameMaps.Set(s.frames[LocalAt(s.frames).value].values, p, PL.Dispose(e).0));
    assert e.subscription.Some? ==> PL.Dispose(e).1[0] == Unsubscribe(e.subscription.value);
    LocalEvent(s, p, PL.Dispose(e), dflt)
  }

    /** A pushed value keeps the store consistent and well formed. */
  lemma LocalNextConsistent(s: BoxedStore, p: PropId, v: PL.PushedObject, dflt: PropId -> Value)
    requires WellFormed(s.frames) && Consistent(s) && LocalOf(s, p).Some?
    ensures var r := LocalNext(s, p, v, dflt); WellFormed(r.store.frames) && Consistent(r.store)
  {
    var i := LocalAt(s.frames).value;
    var e := LocalOf(s, p).value;
    assert e.prop == p by { assert KeyedLocal(s.frames[i].values); }
    var (e1, fx1) := PL.OnNextObject(e, v);
    assert Requested(fx1).Some? ==> Requested(fx1).value == p;
    CarryLocalConsistent(s, p, e1, fx1, dflt);
  }

  /** A completed (or failed) subscription keeps the store consistent and
      well formed. */
  lemma LocalCompletedConsistent(s: BoxedStore, p: PropId, dflt: PropId -> Value)
    requires WellFormed(s.frames) && Consistent(s) && LocalOf(s, p).Some?
    ensures var r := LocalCompleted(s, p, dflt); WellFormed(r.store.frames) && Consistent(r.store)
  {
    var i := LocalAt(s.frames).value;
    var e := LocalOf(s, p).value;
    assert e.prop == p by { assert KeyedLocal(s.frames[i].values); }
    var (e2, fx2) := PL.OnCompleted(e);
    assert Requested(fx2).Some? ==> Requested(fx2).value == p;
    CarryLocalConsistent(s, p, e2, fx2, dflt);
  }

  /** Disposing a local entry keeps the store consistent and well formed. */
  lemma LocalDisposeConsistent(s: BoxedStore, p: PropId, dflt: PropId -> Value)
    requires WellFormed(s.frames) && Consistent(s) && LocalOf(s, p).Some?
    ensures var r := LocalDispose(s, p, dflt); WellFormed(r.store.frames) && Consistent(r.store)
  {
    var i := LocalAt(s.frames).value;
    var e := LocalOf(s, p).value;
    assert e.prop == p by { assert KeyedLocal(s.frames[i].values); }
    var (e3, fx3) := PL.Dispose(e);
    assert Requested(fx3) == Requested(PL.ClearValue(e).1) by {
      if e.subscription.Some? { assert fx3[1..] == PL.ClearValue(e).1; }
    }
    assert Requested(fx3).Some? ==> Requested(fx3).value == p;
    CarryLocalConsistent(s, p, e3, fx3, dflt);
  }

  // ---------------------------------------------------------------------------
  // Bindings

  /** `AddBinding`: at `LocalValue` the local frame's entry for the property
      (reused or added) takes the binding; at any other priority a new
      binding entry becomes a frame of its own. Either way the property is
      re-evaluated at once. */
  function AddBinding(s: BoxedStore, p: PropId, source: SourceId, priority: int, dflt: PropId -> Value): (r: Outcome)
    ensures r.store.applyingStyles == s.applyingStyles
    ensures TryGetValue(r.store, p) == Effective(r.store.frames, p)
    ensures priority == LocalValue ==>
      LocalOf(r.store, p).Some? && LocalOf(r.store, p).value.subscription == Some(source)
      && |r.calls| >= 1 && r.calls[|r.calls| - 1] == Subscribe(source)
    ensures priority != LocalValue ==>
      r.calls == [] && |r.store.frames| == |s.frames| + 1
      && r.store.frames[Slot(s.frames, BindingFrame(BB.Create(p, source, priority)))]
         == BindingFrame(BB.Create(p, source, priority).(owned := true))
  {
    if priority == LocalValue then
      var frames := EnsureLocal(s.frames);
      var i := LocalAt(frames).value;
      var (e, fx) := PL.AddBinding(LocalEntry(frames[i].values, p), source);
      var m' := FrameMaps.Set(frames[i].values, p, e);
      LocalAtEdit(frames, m');
      var o := Reevaluate(s.(frames := frames[i := LocalFrame(m')]), p, dflt);
      Outcome(o.store, o.notices, fx)
    else
      var f := BindingFrame(BB.Create(p, source, priority));
      Reevaluate(s.(frames := AddFrame(s.frames, f)), p, dflt)
  }

  /** `AddBinding` keeps the store consistent and well formed. */
  lemma AddBindingConsistent(s: BoxedStore, p: PropId, source: SourceId, priority: int, dflt: PropId -> Value)
    requires WellFormed(s.frames) && Consistent(s)
    ensures var r := AddBinding(s, p, source, priority, dflt);
      WellFormed(r.store.frames) && Consistent(r.store)
  {
    if priority == LocalValue {
      EnsureLocalHarmless(s.frames);
      var frames := EnsureLocal(s.frames);
      var i := LocalAt(frames).value;
      var m := frames[i].values;
      var e0 := LocalEntry(m, p);
      assert e0.prop == p by {
        if FrameMaps.TryGet(m, p).Some? { assert KeyedLocal(m); }
      }
      var (e, fx) := PL.AddBinding(e0, source);
      var m' := FrameMaps.Set(m, p, e);
      var s1 := s.(frames := frames[i := LocalFrame(m')]);
      assert KeyedLocal(m') by {
        assert FrameMaps.ToMap(m') == FrameMaps.ToMap(m)[p := e];
      }
      LocalEditWellFormed(frames, i, m');
      forall q | q != p ensures Scan(s1.frames, q) == Scan(s.frames, q) {
        LocalEditOutside(frames, i, m', {p}, q);
      }
      ReevaluateRepairs(s1, p, dflt);
    } else {
      var f := BindingFrame(BB.Create(p, source, priority));
      InsertWellFormed(s.frames, Slot(s.frames, f), Owned(f));
      forall q ensures Scan(AddFrame(s.frames, f), q) == Scan(s.frames, q) {
        BindingOffer(f.binding, q);
        AddFrameMiss(s.frames, f, q);
      }
      ReevaluateRepairs(s.(frames := AddFrame(s.frames, f)), p, dflt);
    }
  }

  /** `RemoveBindingEntry`: the entry's frame leaves the list and its
      property is re-evaluated. */
  function RemoveBindingEntry(s: BoxedStore, i: nat, dflt: PropId -> Value): (r: Outcome)
    requires i < |s.frames| && s.frames[i].BindingFrame?
    ensures r.store.frames == RemoveAt(s.frames, i) && r.calls == []
    ensures TryGetValue(r.store, s.frames[i].binding.prop) == Effective(r.store.frames, s.frames[i].binding.prop)
  {
    Reevaluate(s.(frames := RemoveAt(s.frames, i)), s.frames[i].binding.prop, dflt)
  }

  lemma RemoveWellFormed(frames: seq<BoxedFrame>, i: nat)
    requires WellFormed(frames) && i < |frames|
    ensures WellFormed(RemoveAt(frames, i))
  {
    var g := RemoveAt(frames, i);
    forall a, b | 0 <= a < |g| && 0 <= b < |g| && g[a].LocalFrame? && g[b].LocalFrame? ensures a == b {
      var a' := if a < i then a else a + 1;
      var b' := if b < i then b else b + 1;
      assert g[a] == frames[a'] && g[b] == frames[b'];
    }
  }

  /** Removing a binding entry keeps the store consistent and well formed. */
  lemma RemoveBindingEntryConsistent(s: BoxedStore, i: nat, dflt: PropId -> Value)
    requires WellFormed(s.frames) && Consistent(s)
    requires i < |s.frames| && s.frames[i].BindingFrame?
    ensures var r := RemoveBindingEntry(s, i, dflt);
      WellFormed(r.store.frames) && Consistent(r.store)
  {
    var b := s.frames[i].binding;
    RemoveWellFormed(s.frames, i);
    forall q | q != b.prop ensures Scan(RemoveAt(s.frames, i), q) == Scan(s.frames, q) {
      BindingOffer(b, q);
      ScanRemoveMiss(s.frames, i, q);
    }
    ReevaluateRepairs(s.(frames := RemoveAt(s.frames, i)), b.prop, dflt);
  }

  /** A push to the binding entry at `i`: it stores the value (or
      `UnsetValue`) and, when that changed, calls `ValueChanged`, which
      re-evaluates its property. */
  function BindingNext(s: BoxedStore, i: nat, v: BindingValue, dflt: PropId -> Value): (r: Outcome)
    requires i < |s.frames| && s.frames[i].BindingFrame?
    ensures r.calls == [] && |r.store.frames| == |s.frames|
    ensures r.store.frames[i].BindingFrame?
    ensures r.store.frames[i].binding.value == if v.WithValue? then Boxed(v.value) else UnsetValue
  {
    var (b, fx) := BB.OnNext(s.frames[i].binding, v);
    var s1 := s.(frames := s.frames[i := BindingFrame(b)]);
    if Requested(fx).Some? then Reevaluate(s1, Requested(fx).value, dflt) else Outcome(s1, [], [])
  }

  /** Pushes keep an owned binding entry's store consistent. */
  lemma BindingNextConsistent(s: BoxedStore, i: nat, v: BindingValue, dflt: PropId -> Value)
    requires WellFormed(s.frames) && Consistent(s)
    requires i < |s.frames| && s.frames[i].BindingFrame?
    ensures var r := BindingNext(s, i, v, dflt);
      WellFormed(r.store.frames) && Consistent(r.store)
  {
    var b0 := s.frames[i].binding;
    var (b, fx) := BB.OnNext(b0, v);
    var s1 := s.(frames := s.frames[i := BindingFrame(b)]);
    assert b0.owned;
    forall q | q != b0.prop ensures Scan(s1.frames, q) == Scan(s.frames, q) {
      BindingOffer(b0, q);
      BindingOffer(b, q);
      assert forall j :: 0 <= j < |s.frames| ==> SameFor(s.frames[j], s1.frames[j], q);
      ScanPointwise(s.frames, s1.frames, q);
    }
    if Requested(fx).Some? {
      ReevaluateRepairs(s1, b0.prop, dflt);
    } else {
      assert s1.frames == s.frames;
    }
  }

  /** A binding entry's source completes or fails: the entry disposes itself,
      so its subscription is disposed and, owned as it is, the store removes
      it with `RemoveBindingEntry`. */
  function BindingCompleted(s: BoxedStore, i: nat, dflt: PropId -> Value): (r: Outcome)
    requires i < |s.frames| && s.frames[i].BindingFrame?
    ensures s.frames[i].binding.owned ==> r.store.frames == RemoveAt(s.frames, i)
    ensures s.frames[i].binding.subscribed <==> r.calls == [Unsubscribe(s.frames[i].binding.source)]
    ensures !s.frames[i].binding.subscribed ==> r.calls == []
  {
    var b := s.frames[i].binding;
    var (_, fx) := BB.OnCompleted(b);
    var o := if RemoveBoxedBindingEntry(b.prop) in fx then RemoveBindingEntry(s, i, dflt) else Outcome(s, [], []);
    assert RemoveBoxedBindingEntry(b.prop) in fx <==> b.owned;
    assert Outward(fx) == if b.subscribed then [Unsubscribe(b.source)] else [] by {
      var removal := if b.owned then [RemoveBoxedBindingEntry(b.prop)] else [];
      assert Outward(removal) == [];
      if b.subscribed { assert fx[1..] == removal; }
    }
    Outcome(o.store, o.notices, Outward(fx))
  }

  /** Completion keeps the store consistent and well formed. */
  lemma BindingCompletedConsistent(s: BoxedStore, i: nat, dflt: PropId -> Value)
    requires WellFormed(s.frames) && Consistent(s)
    requires i < |s.frames| && s.frames[i].BindingFrame?
    ensures var r := BindingCompleted(s, i, dflt);
      WellFormed(r.store.frames) && Consistent(r.store) && |r.store.frames| == |s.frames| - 1
  {
    RemoveBindingEntryConsistent(s, i, dflt);
  }
}
