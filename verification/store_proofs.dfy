/**
 * The effective-value cache agrees with evaluation. The batch pass rebuilds
 * a cache that agrees everywhere; the targeted pass repairs the one
 * property whose entries changed and leaves every other property's
 * evaluation and cache slot as they were.
 */
module StoreProofs {
  import opened Base
  import FrameMaps
  import FrameOrder
  import C = Cascade
  import opened Arena
  import opened Evaluation
  import opened Locality
  import opened ValueStores
  import S = Starts

  function InheritingSet(w: World): set<PropId> {
    set q | q in w.props && w.props[q].inherits
  }

  /** Inheritance frames hold only inheriting properties. */
  ghost predicate InheritFramesInherit(w: World) {
    forall h, q :: h in w.frames && w.frames[h].InheritFrame? && q in FrameMaps.ToMap(w.frames[h].values) ==> Inherits(w, q)
  }

  /** Inheritance frames carried over unchanged keep inheriting. */
  lemma InheritFramesKept(w: World, w': World)
    requires InheritFramesInherit(w) && w'.props == w.props
    requires forall h :: h in w'.frames && w'.frames[h].InheritFrame? ==> h in w.frames && w'.frames[h] == w.frames[h]
    ensures InheritFramesInherit(w')
  {
    forall h, q | h in w'.frames && w'.frames[h].InheritFrame? && q in FrameMaps.ToMap(w'.frames[h].values)
      ensures Inherits(w', q)
    {
      assert w'.frames[h] == w.frames[h] && h in w.frames && w.frames[h].InheritFrame?;
      assert q in FrameMaps.ToMap(w.frames[h].values);
      assert Inherits(w, q);
    }
  }

  lemma ChainInherits(w: World, o: ObjId)
    requires o in w.stores && InheritFramesInherit(w)
    ensures C.InheritingOnly(StoreChain(w, o), InheritingSet(w))
  {
    var ids := ChainIds(w, o);
    var chain: seq<seq<C.Candidate>> := StoreChain(w, o);
    forall k, j | 0 <= k < |chain| && 0 <= j < |chain[k]| && chain[k][j].present
      ensures chain[k][j].prop in InheritingSet(w)
    {
      var vs := w.frames[ids[k]].values;
      assert chain[k] == MapCandidates(w, vs);
      assert chain[k][j].prop == vs[j].key;
      FrameMaps.ToMapKeys(vs, vs[j].key);
      assert vs[j].key in FrameMaps.ToMap(vs);
      assert Inherits(w, vs[j].key);
    }
  }

  /** `ReevaluateEffectiveValues` leaves a cache that agrees with evaluation
      for every property. */
  lemma ReevaluateAllConsistent(w: World, o: ObjId)
    requires o in w.stores && InheritFramesInherit(w)
    ensures Consistent(ReevaluateAll(w, o).0, o)
    ensures InheritFramesInherit(ReevaluateAll(w, o).0)
  {
    var ts := S.BatchReads(w, o);
    var w1 := S.Perform(w, ts).0;
    var acc := Rebuilt(w, o);
    var w' := ReevaluateAll(w, o).0;
    S.PerformKeepsEvaluation(w, ts, o);
    assert Rebuilt(w1, o) == acc;
    assert w' == SetCache(w1, o, C.ToCache(acc));
    ReevaluateAllInherits(w, o);
    SameReads(w1, w', o);
    ChainInherits(w, o);
    forall p ensures CacheAgrees(w', o, p) {
      C.RebuildAgreesWithEvaluate(StoreLayers(w, o), StoreChain(w, o), InheritingSet(w), p);
    }
  }

  lemma ReevaluateAllInherits(w: World, o: ObjId)
    requires o in w.stores && InheritFramesInherit(w)
    ensures InheritFramesInherit(ReevaluateAll(w, o).0)
  {
    var ts := S.BatchReads(w, o);
    var w1 := S.Perform(w, ts).0;
    S.PerformStartsOnly(w, ts);
    StartsKeepInheritFrames(w, w1);
    InheritFramesKept(w, w1);
    InheritFramesKept(w1, ReevaluateAll(w, o).0);
  }

  // ---------------------------------------------------------------------------
  // The targeted pass

  /** What the targeted pass relies on: references resolve, ids below `next`
      are taken, and the store's frames are sorted weakest first. */
  ghost predicate Tidy(w: World, o: ObjId) {
    && o in w.stores
    && Keyed(w)
    && (forall h :: h in w.frames ==> h < w.next)
    && (forall h :: h in w.stores[o].frames ==> h in w.frames)
    && (w.stores[o].inheritance.Some? ==> w.stores[o].inheritance.value in w.frames)
    && (forall h :: h in w.frames && w.frames[h].InheritFrame? && w.frames[h].parent.Some? ==>
          w.frames[h].parent.value in w.frames)
    && FrameOrder.Sorted(Priorities(w, w.stores[o].frames))
    && Banded(Priorities(w, w.stores[o].frames))
    && InheritFramesInherit(w)
  }

  /** Every frame sits at a tier from `Animation` to `Inherited`. */
  predicate Banded(ps: seq<int>) {
    forall i :: 0 <= i < |ps| ==> Animation <= ps[i] <= Inherited
  }

  /** Evaluation cannot see which store's cache holds what. */
  lemma SetCacheTidy(w: World, o: ObjId, cache: FrameMaps.FrameMap<EntryId>)
    requires Tidy(w, o)
    ensures Tidy(SetCache(w, o, cache), o)
    ensures forall q :: Evaluate(SetCache(w, o, cache), o, q) == Evaluate(w, o, q)
  {
    SetCacheKeepsTidy(w, o, cache);
    SameReads(w, SetCache(w, o, cache), o);
  }

  lemma SetCacheKeepsTidy(w: World, o: ObjId, cache: FrameMaps.FrameMap<EntryId>)
    requires Tidy(w, o)
    ensures Tidy(SetCache(w, o, cache), o)
  {
    var w' := SetCache(w, o, cache);
    assert w' == w.(stores := w.stores[o := w.stores[o].(cache := cache)]);
    assert w'.frames == w.frames && w'.entries == w.entries && w'.props == w.props;
    assert w'.stores[o].frames == w.stores[o].frames && w'.stores[o].inheritance == w.stores[o].inheritance;
    assert Priorities(w', w.stores[o].frames) == Priorities(w, w.stores[o].frames);
    InheritFramesKept(w, w');
  }

  lemma {:induction false} LayerOfSameFrame(w: World, w': World, h: FrameId)
    requires w'.entries == w.entries
    requires h in w'.frames <==> h in w.frames
    requires h in w.frames ==> w'.frames[h] == w.frames[h]
    ensures LayerOf(w', h) == LayerOf(w, h)
  {
    if h in w.frames { MapCandidatesSame(w, w', KeyedValues(w.frames[h])); }
  }

  /** A winner stronger than `Inherited` does not come from the chain. */
  lemma StrongWinnerFromFrames(w: World, o: ObjId, p: PropId)
    requires o in w.stores && Evaluate(w, o, p).Some? && Evaluate(w, o, p).value.priority < Inherited
    ensures C.ScanLayers(StoreLayers(w, o), p) == Evaluate(w, o, p)
  {
  }

  /** The winner at a tier stronger than `Inherited` stays the winner when
      only a frame of that tier changes. */
  lemma WinnerAboveInherited(w: World, w': World, o: ObjId, p: PropId, f: FrameId)
    requires Tidy(w, o) && o in w'.stores && w'.stores[o].frames == w.stores[o].frames
    requires w'.entries == w.entries && w'.props == w.props
    requires FramePriority(w, f) == Inherited
    requires forall h :: h != f ==> (h in w'.frames <==> h in w.frames) && (h in w.frames ==> w'.frames[h] == w.frames[h])
    requires Evaluate(w, o, p).Some? && Evaluate(w, o, p).value.priority < Inherited
    ensures Evaluate(w', o, p) == Evaluate(w, o, p)
  {
    var fs := w.stores[o].frames;
    var ls, ls' := StoreLayers(w, o), StoreLayers(w', o);
    var ps := Priorities(w, fs);
    forall j | 0 <= j < |ls| && ls[j] != ls'[j] ensures ls[j].priority >= Inherited {
      if fs[j] != f { LayerOfSameFrame(w, w', fs[j]); }
    }
    forall i, j | 0 <= i < j < |ls| ensures ls[i].priority >= ls[j].priority {
      assert FrameOrder.NotStronger(ps, i, j);
    }
    StrongWinnerFromFrames(w, o, p);
    C.ScanAboveTier(ls, ls', p, Inherited);
  }

  /** Writing into an owned inheritance frame touches that frame alone, and
      only its entry for `p`. */
  lemma OwnedWriteShape(w: World, o: ObjId, p: PropId, e: EntryId)
    requires Tidy(w, o) && w.stores[o].inheritance.Some? && OwnsFrame(w, o, w.stores[o].inheritance.value)
    ensures var f := w.stores[o].inheritance.value;
      var w' := SetInheritanceFrameValue(w, o, p, e).0;
      && o in w'.stores && w'.stores[o] == w.stores[o] && w'.entries == w.entries && w'.props == w.props
      && ChangedOnly(w, w', {p}) && FramePriority(w, f) == Inherited
      && (forall h :: h != f ==> (h in w'.frames <==> h in w.frames) && (h in w.frames ==> w'.frames[h] == w.frames[h]))
  {
    var f := w.stores[o].inheritance.value;
    var w' := SetInheritanceFrameValue(w, o, p, e).0;
    assert w' == UpdateStore(w.(frames := w.frames[f := SetInheritedValue(w.frames[f], p, e)]), o, w.stores[o]);
    assert ChangedOnly(w, w', {p}) by {
      forall q | q != p ensures FrameMaps.TryGet(w'.frames[f].values, q) == FrameMaps.TryGet(w.frames[f].values, q) { }
      assert SameShape(w.frames[f], w'.frames[f], {p});
    }
  }

  /** Writing into an owned inheritance frame. */
  lemma OwnedWriteKeepsEvaluation(w: World, o: ObjId, p: PropId, e: EntryId)
    requires Tidy(w, o) && w.stores[o].inheritance.Some? && OwnsFrame(w, o, w.stores[o].inheritance.value)
    requires Evaluate(w, o, p).Some? && Evaluate(w, o, p).value.priority < Inherited
    ensures var w' := SetInheritanceFrameValue(w, o, p, e).0;
      o in w'.stores && forall q :: Evaluate(w', o, q) == Evaluate(w, o, q)
  {
    var f := w.stores[o].inheritance.value;
    var w' := SetInheritanceFrameValue(w, o, p, e).0;
    OwnedWriteShape(w, o, p, e);
    forall q ensures Evaluate(w', o, q) == Evaluate(w, o, q) {
      if q == p {
        WinnerAboveInherited(w, w', o, p, f);
      } else {
        EvaluateOutside(w, w', o, {p}, q);
      }
    }
  }

  /** Writing into a fresh frame forked off a borrowed one. */
  lemma ForkWriteKeepsEvaluation(w: World, o: ObjId, p: PropId, e: EntryId)
    requires Tidy(w, o) && w.stores[o].inheritance.Some? && !OwnsFrame(w, o, w.stores[o].inheritance.value)
    ensures var w' := SetInheritanceFrameValue(w, o, p, e).0;
      o in w'.stores && forall q :: Evaluate(w', o, q) == Evaluate(w, o, q)
  {
    var f := w.stores[o].inheritance.value;
    var w' := SetInheritanceFrameValue(w, o, p, e).0;
    assert w.next !in w.frames;
    SameChainAfterFork(w, w', o, f);
  }

  /** `SetInheritanceFrameValue` leaves the store owning an inheritance
      frame that maps `p` to the entry: its own frame with every other
      property kept, or a fresh frame over the borrowed one holding `p`
      alone. Every child is then told the store's frame. */
  lemma SetInheritanceFrameValueWrites(w: World, o: ObjId, p: PropId, e: EntryId)
    requires o in w.stores && w.stores[o].inheritance.Some?
    ensures var f := w.stores[o].inheritance.value;
      var r := SetInheritanceFrameValue(w, o, p, e);
      var g := r.0.stores[o].inheritance;
      && g.Some? && OwnsFrame(r.0, o, g.value)
      && p in FrameMaps.ToMap(r.0.frames[g.value].values) && FrameMaps.ToMap(r.0.frames[g.value].values)[p] == e
      && (OwnsFrame(w, o, f) ==>
            && g == Some(f) && r.0.frames[f].parent == w.frames[f].parent
            && FrameMaps.ToMap(r.0.frames[f].values) == FrameMaps.ToMap(w.frames[f].values)[p := e])
      && (!OwnsFrame(w, o, f) ==>
            && g == Some(w.next) && r.0.frames[w.next].parent == Some(f)
            && FrameMaps.ToMap(r.0.frames[w.next].values) == map[p := e])
      && r.1 == FrameChangedCalls(Children(w, o), g)
      && forall h :: h in w.frames && h != w.next && !w.frames[h].InheritFrame? ==> h in r.0.frames && r.0.frames[h] == w.frames[h]
  {
  }

  /** The typed `RaisePropertyChanged` notifies the owner exactly when the
      two sides differ once an unset side takes the default, and then with
      both sides and the priority; no child hears of the change before the
      owner does. */
  lemma RaiseTypedNotifies(w: World, o: ObjId, p: PropId, entry: Option<EntryId>, oldValue: Optional,
                           newValue: Optional, priority: int)
    requires o in w.stores
    ensures var r := RaiseTyped(w, o, p, entry, oldValue, newValue, priority);
      var d := DefaultOf(w, o, p);
      var before := C.Substitute(ToBoxed(oldValue), d);
      var after := C.Substitute(ToBoxed(newValue), d);
      && ((exists i :: 0 <= i < |r.1| && r.1[i].Changed?) <==> before != after)
      && (forall i :: 0 <= i < |r.1| && r.1[i].Changed? ==> r.1[i] == Changed(o, C.Notice(p, before, after, priority)))
      && (forall i, j :: 0 <= i < j < |r.1| && r.1[j].Changed? ==> !r.1[i].InheritedValueChanged?)
  {
    var r := RaiseTyped(w, o, p, entry, oldValue, newValue, priority);
    var ns := C.RaiseUntyped(p, ToBoxed(oldValue), ToBoxed(newValue), DefaultOf(w, o, p), priority);
    var n := Announce(o, ns);
    if priority < Inherited && entry.Some? && w.stores[o].inheritance.Some? && Inherits(w, p) {
      var (w1, calls) := SetInheritanceFrameValue(w, o, p, entry.value);
      var kids := NotifyChildren(w1, o, p);
      assert r.1 == calls + n + kids;
      ChangedOnlyBetween(calls, n, kids);
    } else {
      assert r.1 == n;
    }
  }

  /** Every child appears both in the frame calls and in the child calls
      around the notifications. */
  lemma ChildrenToldBoth(children: seq<ObjId>, frame: Option<FrameId>, p: PropId, n: seq<Output>)
    ensures var s := FrameChangedCalls(children, frame) + n + InheritedCalls(children, p);
      forall c :: c in children ==> ParentFrameChanged(c, frame) in s && InheritedValueChanged(c, p) in s
  {
    var calls := FrameChangedCalls(children, frame);
    var kids := InheritedCalls(children, p);
    var s := calls + n + kids;
    forall c | c in children ensures ParentFrameChanged(c, frame) in s && InheritedValueChanged(c, p) in s {
      var k :| 0 <= k < |children| && children[k] == c;
      assert s[k] == calls[k];
      assert s[|calls| + |n| + k] == kids[k];
    }
  }

  /** In frame calls, then notifications, then child calls, the
      notifications are the only `Changed` outputs and no child call
      comes before one. */
  lemma ChangedOnlyBetween(calls: seq<Output>, n: seq<Output>, kids: seq<Output>)
    requires forall x :: x in calls ==> x.ParentFrameChanged?
    requires forall x :: x in n ==> x.Changed?
    requires forall x :: x in kids ==> x.InheritedValueChanged?
    ensures var s := calls + n + kids;
      && ((exists i :: 0 <= i < |s| && s[i].Changed?) <==> |n| > 0)
      && (forall i :: 0 <= i < |s| && s[i].Changed? ==> |calls| <= i < |calls| + |n| && s[i] == n[i - |calls|])
      && (forall i, j :: 0 <= i < j < |s| && s[j].Changed? ==> !s[i].InheritedValueChanged?)
  {
    var s := calls + n + kids;
    forall i | 0 <= i < |s|
      ensures i < |calls| ==> s[i].ParentFrameChanged?
      ensures |calls| <= i < |calls| + |n| ==> s[i] == n[i - |calls|] && s[i].Changed?
      ensures |calls| + |n| <= i ==> s[i].InheritedValueChanged?
    {
      if i < |calls| {
        assert s[i] == calls[i] && calls[i] in calls;
      } else if i < |calls| + |n| {
        assert s[i] == n[i - |calls|] && n[i - |calls|] in n;
      } else {
        assert s[i] == kids[i - |calls| - |n|] && kids[i - |calls| - |n|] in kids;
      }
    }
    if |n| > 0 { assert s[|calls|].Changed?; }
  }

  /** A value won below `Inherited` for an inheriting property of a store
      with an inheritance frame is written to that frame, and every child
      is told the frame and the change; otherwise the arena is untouched
      and only the owner's notification is produced. */
  lemma RaiseTypedInherits(w: World, o: ObjId, p: PropId, entry: Option<EntryId>, oldValue: Optional,
                           newValue: Optional, priority: int)
    requires o in w.stores
    ensures var r := RaiseTyped(w, o, p, entry, oldValue, newValue, priority);
      if priority < Inherited && entry.Some? && w.stores[o].inheritance.Some? && Inherits(w, p) then
        && r.0 == SetInheritanceFrameValue(w, o, p, entry.value).0
        && forall c :: c in Children(w, o) ==>
             ParentFrameChanged(c, r.0.stores[o].inheritance) in r.1 && InheritedValueChanged(c, p) in r.1
      else r.0 == w && forall x :: x in r.1 ==> x.Changed?
  {
    var r := RaiseTyped(w, o, p, entry, oldValue, newValue, priority);
    var n := Announce(o, C.RaiseUntyped(p, ToBoxed(oldValue), ToBoxed(newValue), DefaultOf(w, o, p), priority));
    if priority < Inherited && entry.Some? && w.stores[o].inheritance.Some? && Inherits(w, p) {
      var (w1, calls) := SetInheritanceFrameValue(w, o, p, entry.value);
      SetInheritanceFrameValueWrites(w, o, p, entry.value);
      var kids := NotifyChildren(w1, o, p);
      assert Children(w1, o) == Children(w, o);
      assert r.1 == calls + n + kids;
      ChildrenToldBoth(Children(w, o), w1.stores[o].inheritance, p, n);
    } else {
      assert r.1 == n;
    }
  }

  /** Writing the winner into the inheritance frame (`SetInheritanceFrameValue`)
      changes no evaluation of the store itself. */
  lemma RaiseKeepsEvaluation(w: World, o: ObjId, p: PropId, e: EntryId, oldValue: Optional, newValue: Optional, priority: int)
    requires Tidy(w, o)
    requires Evaluate(w, o, p) == Some(C.Winner(e, priority))
    ensures var w' := RaiseTyped(w, o, p, Some(e), oldValue, newValue, priority).0;
      o in w'.stores && forall q :: Evaluate(w', o, q) == Evaluate(w, o, q)
  {
    if priority < Inherited && w.stores[o].inheritance.Some? && Inherits(w, p) {
      if OwnsFrame(w, o, w.stores[o].inheritance.value) {
        OwnedWriteKeepsEvaluation(w, o, p, e);
      } else {
        ForkWriteKeepsEvaluation(w, o, p, e);
      }
    }
  }

  /** A borrowed inheritance frame is replaced by a fresh owned frame whose
      parent is the borrowed one: the frame list and the chain the store
      walks stay as they were. */
  lemma SameChainAfterFork(w: World, w': World, o: ObjId, f: FrameId)
    requires Tidy(w, o) && w.stores[o].inheritance == Some(f) && !OwnsFrame(w, o, f)
    requires o in w'.stores && w'.stores[o] == w.stores[o].(inheritance := Some(w.next))
    requires w'.entries == w.entries && w'.props == w.props
    requires w'.frames.Keys == w.frames.Keys + {w.next}
    requires forall h :: h in w.frames ==> w'.frames[h] == w.frames[h]
    requires w'.frames[w.next].InheritFrame? && w'.frames[w.next].owner == o && w'.frames[w.next].parent == Some(f)
    ensures forall q :: Evaluate(w', o, q) == Evaluate(w, o, q)
  {
    var fs := w.stores[o].frames;
    forall h | h in fs ensures LayerOf(w', h) == LayerOf(w, h) {
      LayerOfSameFrame(w, w', h);
    }
    assert StoreLayers(w', o) == StoreLayers(w, o);
    assert ChainStart(w', o) == Some(f) == ChainStart(w, o);
    ChainFromStable(w.frames, w'.frames, Some(f), {});
    var ids := ChainIds(w, o);
    forall k | 0 <= k < |ids| ensures Candidates(w', ids[k]) == Candidates(w, ids[k]) {
      LayerOfSameFrame(w, w', ids[k]);
    }
    assert StoreChain(w', o) == StoreChain(w, o);
  }

  /** What the targeted pass promises for one store: the cache agrees with
      evaluation at `p`, no evaluation changed, and every other cache slot is
      as it was. */
  ghost predicate Repaired(w: World, w': World, o: ObjId, p: PropId)
    requires o in w.stores
  {
    && o in w'.stores && CacheAgrees(w', o, p)
    && (forall q :: Evaluate(w', o, q) == Evaluate(w, o, q))
    && (forall q :: q != p ==> FrameMaps.TryGet(w'.stores[o].cache, q) == FrameMaps.TryGet(w.stores[o].cache, q))
  }

  lemma SettleFound(w: World, o: ObjId, p: PropId, oldValue: Optional)
    requires Tidy(w, o) && Evaluate(w, o, p).Some?
    ensures Repaired(w, Settle(w, o, p, oldValue).0, o, p)
  {
    var ev := Evaluate(w, o, p);
    var c := UpdatedCache(w, o, p);
    var w1 := SetCache(w, o, c);
    SetCacheRepairs(w, o, p, c);
    SetCacheTidy(w, o, c);
    var w' := RaiseTyped(w1, o, p, Some(ev.value.entry), oldValue, Some(ReadTypedId(w, ev.value.entry)), ev.value.priority).0;
    assert Settle(w, o, p, oldValue).0 == w';
    RaiseKeepsEvaluation(w1, o, p, ev.value.entry, oldValue, Some(ReadTypedId(w, ev.value.entry)), ev.value.priority);
    RepairedThenSame(w, w1, w', o, p);
  }

  /** A repair survives a step that keeps the cache and every evaluation. */
  lemma RepairedThenSame(w: World, w1: World, w': World, o: ObjId, p: PropId)
    requires o in w.stores && Repaired(w, w1, o, p)
    requires o in w'.stores && w'.stores[o].cache == w1.stores[o].cache
    requires forall q :: Evaluate(w', o, q) == Evaluate(w1, o, q)
    ensures Repaired(w, w', o, p)
  {
  }

  lemma SettleMissing(w: World, o: ObjId, p: PropId, oldValue: Optional)
    requires Tidy(w, o) && Evaluate(w, o, p).None?
    ensures Repaired(w, Settle(w, o, p, oldValue).0, o, p)
  {
    assert Settle(w, o, p, oldValue).0 == SetCache(w, o, UpdatedCache(w, o, p));
    SetCacheRepairs(w, o, p, UpdatedCache(w, o, p));
  }

  lemma HitKeyed(w: World, h: FrameId, p: PropId)
    requires Keyed(w) && FrameHit(w, h, p).Some?
    ensures FrameHit(w, h, p).value in w.entries && PropOf(w.entries[FrameHit(w, h, p).value]) == p
  {
    if !w.frames[h].BindingFrame? {
      assert FrameMaps.ToMap(KeyedValues(w.frames[h]))[p] == FrameHit(w, h, p).value;
    }
  }

  /** The entry evaluation picks for `p` is an entry of `p`. */
  lemma WinnerKeyed(w: World, o: ObjId, p: PropId)
    requires o in w.stores && Keyed(w) && Evaluate(w, o, p).Some?
    ensures Evaluate(w, o, p).value.entry in w.entries && PropOf(w.entries[Evaluate(w, o, p).value.entry]) == p
  {
    var ls := StoreLayers(w, o);
    var fs := w.stores[o].frames;
    if C.ScanLayers(ls, p).Some? {
      C.ScanLayersSpec(ls, p);
      var i :| 0 <= i < |ls| && ls[i].active && C.FirstPresent(ls[i].candidates, p).Some?
        && C.ScanLayers(ls, p) == Some(C.Winner(C.FirstPresent(ls[i].candidates, p).value, ls[i].priority));
      FirstPresentOfFrame(w, fs[i], p);
      HitKeyed(w, fs[i], p);
    } else {
      var chain := StoreChain(w, o);
      var ids := ChainIds(w, o);
      C.ScanChainWitness(chain, p);
      var k :| 0 <= k < |chain| && C.FirstPresent(chain[k], p) == Some(C.ScanChain(chain, p).value.entry);
      FirstPresentOfFrame(w, ids[k], p);
      HitKeyed(w, ids[k], p);
    }
  }

  lemma PrioritiesSame(w: World, w': World, fs: seq<FrameId>)
    requires forall h :: h in fs ==> FramePriority(w', h) == FramePriority(w, h)
    ensures Priorities(w', fs) == Priorities(w, fs)
  {
    forall i | 0 <= i < |fs| ensures Priorities(w', fs)[i] == Priorities(w, fs)[i] {
      assert fs[i] in fs;
    }
  }

  lemma OwnedWriteTidy(w: World, o: ObjId, p: PropId, e: EntryId)
    requires Tidy(w, o) && w.stores[o].inheritance.Some? && OwnsFrame(w, o, w.stores[o].inheritance.value)
    requires Inherits(w, p) && e in w.entries && PropOf(w.entries[e]) == p
    ensures Tidy(SetInheritanceFrameValue(w, o, p, e).0, o)
  {
    var f := w.stores[o].inheritance.value;
    var w' := SetInheritanceFrameValue(w, o, p, e).0;
    assert w' == UpdateStore(w.(frames := w.frames[f := SetInheritedValue(w.frames[f], p, e)]), o, w.stores[o]);
    PrioritiesSame(w, w', w.stores[o].frames);
    forall h, q | h in w'.frames && q in FrameMaps.ToMap(KeyedValues(w'.frames[h]))
      ensures FrameMaps.ToMap(KeyedValues(w'.frames[h]))[q] in w'.entries
        && PropOf(w'.entries[FrameMaps.ToMap(KeyedValues(w'.frames[h]))[q]]) == q
    {
      if h == f && q != p { assert q in FrameMaps.ToMap(KeyedValues(w.frames[h])); }
    }
    forall h, q | h in w'.frames && w'.frames[h].InheritFrame? && q in FrameMaps.ToMap(w'.frames[h].values)
      ensures Inherits(w', q)
    {
      if h != f || q != p { assert q in FrameMaps.ToMap(w.frames[h].values); }
      assert Inherits(w, q) && w'.props == w.props;
    }
  }

  lemma ForkWriteTidy(w: World, o: ObjId, p: PropId, e: EntryId)
    requires Tidy(w, o) && w.stores[o].inheritance.Some? && !OwnsFrame(w, o, w.stores[o].inheritance.value)
    requires Inherits(w, p) && e in w.entries && PropOf(w.entries[e]) == p
    ensures Tidy(SetInheritanceFrameValue(w, o, p, e).0, o)
  {
    var f := w.stores[o].inheritance.value;
    var g := w.next;
    var w' := SetInheritanceFrameValue(w, o, p, e).0;
    assert w' == UpdateStore(w.(frames := w.frames[g := SetInheritedValue(InheritFrame(o, Some(f), []), p, e)], next := w.next + 1),
                             o, w.stores[o].(inheritance := Some(g)));
    assert g !in w.frames;
    PrioritiesSame(w, w', w.stores[o].frames);
    forall h, q | h in w'.frames && q in FrameMaps.ToMap(KeyedValues(w'.frames[h]))
      ensures FrameMaps.ToMap(KeyedValues(w'.frames[h]))[q] in w'.entries
        && PropOf(w'.entries[FrameMaps.ToMap(KeyedValues(w'.frames[h]))[q]]) == q
    {
      if h != g { assert q in FrameMaps.ToMap(KeyedValues(w.frames[h])); }
    }
    forall h, q | h in w'.frames && w'.frames[h].InheritFrame? && q in FrameMaps.ToMap(w'.frames[h].values)
      ensures Inherits(w', q)
    {
      if h != g { assert q in FrameMaps.ToMap(w.frames[h].values); }
      assert Inherits(w, q) && w'.props == w.props;
    }
  }

  lemma SettleTidy(w: World, o: ObjId, p: PropId, oldValue: Optional)
    requires Tidy(w, o)
    ensures Tidy(Settle(w, o, p, oldValue).0, o)
  {
    var ev := Evaluate(w, o, p);
    var c := UpdatedCache(w, o, p);
    SetCacheTidy(w, o, c);
    var w1 := SetCache(w, o, c);
    if ev.Some? {
      WinnerKeyed(w, o, p);
      var e := ev.value.entry;
      assert Settle(w, o, p, oldValue).0 == RaiseTyped(w1, o, p, Some(e), oldValue, Some(ReadTypedId(w, e)), ev.value.priority).0;
      RaiseTidy(w1, o, p, e, oldValue, Some(ReadTypedId(w, e)), ev.value.priority);
    } else {
      assert Settle(w, o, p, oldValue).0 == w1;
    }
  }

  /** Raising a change keeps the store tidy, writing the winner, an entry of
      the property, into the inheritance frame. */
  lemma RaiseTidy(w: World, o: ObjId, p: PropId, e: EntryId, oldValue: Optional, newValue: Optional, priority: int)
    requires Tidy(w, o) && e in w.entries && PropOf(w.entries[e]) == p
    ensures Tidy(RaiseTyped(w, o, p, Some(e), oldValue, newValue, priority).0, o)
  {
    if priority < Inherited && w.stores[o].inheritance.Some? && Inherits(w, p) {
      if OwnsFrame(w, o, w.stores[o].inheritance.value) {
        OwnedWriteTidy(w, o, p, e);
      } else {
        ForkWriteTidy(w, o, p, e);
      }
    }
  }

  /** The typed `ReevaluateEffectiveValue` repairs the cache at `p` and
      disturbs nothing else of its store. */
  lemma ReevaluateAgrees(w: World, o: ObjId, p: PropId, oldValue: Optional)
    requires Tidy(w, o)
    ensures Repaired(w, Reevaluate(w, o, p, oldValue).0, o, p)
  {
    var w1 := PerformTidy(w, o, S.EvaluateReads(w, o, p));
    if Evaluate(w1, o, p).Some? {
      SettleFound(w1, o, p, oldValue);
    } else {
      SettleMissing(w1, o, p, oldValue);
    }
    assert Reevaluate(w, o, p, oldValue).0 == Settle(w1, o, p, oldValue).0;
  }

  /** The targeted pass keeps the store tidy. */
  lemma ReevaluateTidy(w: World, o: ObjId, p: PropId, oldValue: Optional)
    requires Tidy(w, o)
    ensures Tidy(Reevaluate(w, o, p, oldValue).0, o)
  {
    var w1 := PerformTidy(w, o, S.EvaluateReads(w, o, p));
    SettleTidy(w1, o, p, oldValue);
    assert Reevaluate(w, o, p, oldValue).0 == Settle(w1, o, p, oldValue).0;
  }

  /** The cache agrees with evaluation for every property but `p`. */
  ghost predicate AgreesExcept(w: World, o: ObjId, p: PropId)
    requires o in w.stores
  {
    forall q :: q != p ==> CacheAgrees(w, o, q)
  }

  lemma RepairedConsistent(w: World, w': World, o: ObjId, p: PropId)
    requires o in w.stores && AgreesExcept(w, o, p) && Repaired(w, w', o, p)
    ensures Consistent(w', o)
  {
    forall q ensures CacheAgrees(w', o, q) {
      if q != p { assert CacheAgrees(w, o, q); }
    }
  }

  /** A change to `p`'s entries breaks the cache at `p` at most; the
      targeted pass repairs it. */
  lemma ReevaluateRestores(w: World, o: ObjId, p: PropId, oldValue: Optional)
    requires Tidy(w, o) && AgreesExcept(w, o, p)
    ensures Consistent(Reevaluate(w, o, p, oldValue).0, o)
  {
    ReevaluateAgrees(w, o, p, oldValue);
    RepairedConsistent(w, Reevaluate(w, o, p, oldValue).0, o, p);
  }

  /** The untyped pass repairs the cache the same way. */
  lemma ReevaluateUntypedAgrees(w: World, o: ObjId, p: PropId, oldValue: Boxed)
    requires Tidy(w, o)
    ensures Repaired(w, ReevaluateUntyped(w, o, p, oldValue).0, o, p)
  {
    var w1 := PerformTidy(w, o, S.EvaluateReads(w, o, p));
    assert ReevaluateUntyped(w, o, p, oldValue).0 == SettleUntyped(w1, o, p, oldValue).0;
    assert SettleUntyped(w1, o, p, oldValue).0 == SetCache(w1, o, UpdatedCache(w1, o, p));
    SetCacheRepairs(w1, o, p, UpdatedCache(w1, o, p));
  }

  /** The cache both passes store: the winner for `p`, or no slot for it. */
  function UpdatedCache(w: World, o: ObjId, p: PropId): (c: FrameMaps.FrameMap<EntryId>)
    requires o in w.stores
    ensures var ev := Evaluate(w, o, p);
      FrameMaps.TryGet(c, p) == (if ev.Some? then Some(ev.value.entry) else None)
    ensures forall q :: q != p ==> FrameMaps.TryGet(c, q) == FrameMaps.TryGet(w.stores[o].cache, q)
  {
    var ev := Evaluate(w, o, p);
    if ev.Some? then FrameMaps.Set(w.stores[o].cache, p, ev.value.entry)
    else FrameMaps.Remove(w.stores[o].cache, p).0
  }

  /** A cache that holds the winner for `p` and the old slots elsewhere
      repairs the store at `p`. */
  lemma SetCacheRepairs(w: World, o: ObjId, p: PropId, c: FrameMaps.FrameMap<EntryId>)
    requires Tidy(w, o)
    requires var ev := Evaluate(w, o, p);
      FrameMaps.TryGet(c, p) == (if ev.Some? then Some(ev.value.entry) else None)
    requires forall q :: q != p ==> FrameMaps.TryGet(c, q) == FrameMaps.TryGet(w.stores[o].cache, q)
    ensures Repaired(w, SetCache(w, o, c), o, p)
  {
    SetCacheTidy(w, o, c);
  }

  lemma ReevaluateUntypedRestores(w: World, o: ObjId, p: PropId, oldValue: Boxed)
    requires Tidy(w, o) && AgreesExcept(w, o, p)
    ensures Consistent(ReevaluateUntyped(w, o, p, oldValue).0, o)
  {
    ReevaluateUntypedAgrees(w, o, p, oldValue);
    RepairedConsistent(w, ReevaluateUntyped(w, o, p, oldValue).0, o, p);
  }

  lemma ReevaluateUntypedTidy(w: World, o: ObjId, p: PropId, oldValue: Boxed)
    requires Tidy(w, o)
    ensures Tidy(ReevaluateUntyped(w, o, p, oldValue).0, o)
  {
    var w1 := PerformTidy(w, o, S.EvaluateReads(w, o, p));
    assert ReevaluateUntyped(w, o, p, oldValue).0 == SetCache(w1, o, UpdatedCache(w1, o, p));
    SetCacheKeepsTidy(w1, o, UpdatedCache(w1, o, p));
  }

  /** The batch pass keeps the store tidy. */
  lemma ReevaluateAllTidy(w: World, o: ObjId)
    requires Tidy(w, o)
    ensures Tidy(ReevaluateAll(w, o).0, o)
  {
    var w1 := PerformTidy(w, o, S.BatchReads(w, o));
    assert ReevaluateAll(w, o).0 == SetCache(w1, o, C.ToCache(Rebuilt(w1, o)));
    SetCacheKeepsTidy(w1, o, C.ToCache(Rebuilt(w1, o)));
  }

  // ---------------------------------------------------------------------------
  // Reads that start entries

  /** Inheritance frames are untouched by starts. */
  lemma StartsKeepInheritFrames(w: World, w': World)
    requires S.StartsOnly(w, w')
    ensures forall h :: h in w'.frames && w'.frames[h].InheritFrame? ==> h in w.frames && w'.frames[h] == w.frames[h]
  {
    S.StartsInvisible(w, w');
  }

  /** Starting entries and subscribing activators keeps a store tidy. */
  lemma StartsKeepTidy(w: World, w': World, o: ObjId)
    requires Tidy(w, o) && S.StartsOnly(w, w') && w'.stores == w.stores
    ensures Tidy(w', o)
  {
    S.StartsInvisible(w, w');
    StartsKeepInheritFrames(w, w');
    PrioritiesSame(w, w', w.stores[o].frames);
    InheritFramesKept(w, w');
    forall h | h in w'.frames && w'.frames[h].InheritFrame? && w'.frames[h].parent.Some?
      ensures w'.frames[h].parent.value in w'.frames
    {
      assert w'.frames[h] == w.frames[h];
    }
    forall h | h in w'.frames && w'.frames[h].BindingFrame?
      ensures w'.frames[h].entry in w'.entries && w'.entries[w'.frames[h].entry].Binding?
    {
      assert w'.frames[h] == w.frames[h];
    }
  }

  /** The reads of a pass leave a tidy store tidy, with every evaluation as
      it was. */
  lemma PerformTidy(w: World, o: ObjId, ts: seq<S.Touch>) returns (w1: World)
    requires Tidy(w, o)
    ensures w1 == S.Perform(w, ts).0
    ensures Tidy(w1, o) && S.StartsOnly(w, w1) && w1.stores == w.stores
    ensures forall q :: Evaluate(w1, o, q) == Evaluate(w, o, q)
  {
    w1 := S.Perform(w, ts).0;
    S.PerformKeepsEvaluation(w, ts, o);
    StartsKeepTidy(w, w1, o);
  }

  /** Starts keep every local-value frame holding local entries. */
  lemma StartsKeepReady(w: World, w': World, o: ObjId)
    requires Ready(w, o) && S.StartsOnly(w, w') && w'.stores == w.stores
    ensures Ready(w', o)
  {
    S.StartsInvisible(w, w');
  }
}
