/**
 * Every public operation of the store keeps the effective-value cache in
 * agreement with evaluation: what an operation changes is either confined
 * to one property, which the operation then re-evaluates, or invisible to
 * evaluation, or followed by the batch pass.
 */
module OperationProofs {
  import opened Base
  import opened Effects
  import FrameMaps
  import FrameOrder
  import C = Cascade
  import L = LocalValueEntries
  import B = BindingEntries
  import SI = StyleInstances
  import SB = SetterBindings
  import LF = LocalValueFrames
  import opened Arena
  import opened Evaluation
  import opened Locality
  import opened ValueStores
  import opened StoreProofs
  import S = Starts

  // ---------------------------------------------------------------------------
  // Growing the arena

  /** `w'` only adds frames and entries to `w`. */
  ghost predicate Extends(w: World, w': World) {
    && w'.props == w.props
    && (forall h :: h in w.frames ==> h in w'.frames && w'.frames[h] == w.frames[h])
    && (forall e :: e in w.entries ==> e in w'.entries && w'.entries[e] == w.entries[e])
  }

  lemma {:induction false} MapCandidatesPresent(w: World, w': World, m: seq<FrameMaps.Slot<EntryId>>)
    requires forall j :: 0 <= j < |m| ==> Present(w', m[j].entry) == Present(w, m[j].entry)
    ensures MapCandidates(w', m) == MapCandidates(w, m)
  {
    if |m| > 0 {
      MapCandidatesPresent(w, w', m[1..]);
    }
  }

  /** A frame of `w` reads the same in an extension of `w`. */
  lemma LayerOfExtends(w: World, w': World, h: FrameId)
    requires Keyed(w) && Extends(w, w') && h in w.frames
    ensures LayerOf(w', h) == LayerOf(w, h)
  {
    var vs := KeyedValues(w.frames[h]);
    forall j | 0 <= j < |vs| ensures Present(w', vs[j].entry) == Present(w, vs[j].entry) {
      FrameMaps.SlotInMap(vs, j);
    }
    MapCandidatesPresent(w, w', vs);
  }

  /** Adding frames and entries nobody refers to changes no evaluation. */
  lemma EvaluateExtends(w: World, w': World, o: ObjId)
    requires Tidy(w, o) && Extends(w, w') && o in w'.stores
    requires w'.stores[o].frames == w.stores[o].frames && w'.stores[o].inheritance == w.stores[o].inheritance
    ensures forall q :: Evaluate(w', o, q) == Evaluate(w, o, q)
  {
    var fs := w.stores[o].frames;
    forall h | h in fs ensures LayerOf(w', h) == LayerOf(w, h) {
      LayerOfExtends(w, w', h);
    }
    assert StoreLayers(w', o) == StoreLayers(w, o);
    assert ChainStart(w', o) == ChainStart(w, o);
    ChainFromStable(w.frames, w'.frames, ChainStart(w, o), {});
    var ids := ChainIds(w, o);
    forall k | 0 <= k < |ids| ensures Candidates(w', ids[k]) == Candidates(w, ids[k]) {
      LayerOfExtends(w, w', ids[k]);
    }
    assert StoreChain(w', o) == StoreChain(w, o);
  }

  // ---------------------------------------------------------------------------
  // Adding a frame

  /** `SetOwner` changes no frame's shape and no entry's property or value. */
  lemma SetOwnerShape(w: World, o: ObjId, g: FrameId)
    ensures var w' := SetOwner(w, o, g);
      && (forall h :: h in w.frames ==>
            && KeyedValues(w'.frames[h]) == KeyedValues(w.frames[h])
            && w'.frames[h].InheritFrame? == w.frames[h].InheritFrame?
            && w'.frames[h].BindingFrame? == w.frames[h].BindingFrame?
            && (w.frames[h].BindingFrame? ==> w'.frames[h] == w.frames[h])
            && (w.frames[h].InheritFrame? ==> w'.frames[h] == w.frames[h]))
      && (forall e :: e in w.entries ==>
            && PropOf(w'.entries[e]) == PropOf(w.entries[e])
            && HasValue(w'.entries[e]) == HasValue(w.entries[e])
            && w'.entries[e].Binding? == w.entries[e].Binding?
            && (w.entries[e].Binding? ==> w'.entries[e].binding.priority == w.entries[e].binding.priority))
  {
    if g in w.frames && w.frames[g].BindingFrame? {
      var e := w.frames[g].entry;
      if e in w.entries && w.entries[e].Binding? {
        var b := w.entries[e].binding;
        assert B.SetOwner(b, true).(owned := b.owned) == b;
      }
    } else if g in w.frames && w.frames[g].StyleFrame? {
      var si := w.frames[g].instance;
      assert SI.SetOwner(si, Some(o)).(store := si.store) == si;
    }
  }

  /** `SetOwner` changes nothing evaluation reads. */
  lemma SetOwnerKeeps(w: World, o: ObjId, g: FrameId)
    ensures var w' := SetOwner(w, o, g);
      forall h :: LayerOf(w', h) == LayerOf(w, h)
  {
    forall h ensures LayerOf(SetOwner(w, o, g), h) == LayerOf(w, h) {
      SetOwnerLayer(w, o, g, h);
    }
  }

  lemma SetOwnerLayer(w: World, o: ObjId, g: FrameId, h: FrameId)
    ensures LayerOf(SetOwner(w, o, g), h) == LayerOf(w, h)
  {
    var w' := SetOwner(w, o, g);
    if g in w.frames && w.frames[g].BindingFrame? && w.frames[g].entry in w.entries && w.entries[w.frames[g].entry].Binding? {
      SetOwnerBindingLayer(w, o, g, h);
    } else if g in w.frames && w.frames[g].StyleFrame? {
      var si := w.frames[g].instance;
      assert SI.SetOwner(si, Some(o)).(store := si.store) == si;
      if h == g {
        assert w'.frames[h].instance.active == si.active && w'.frames[h].instance.priority == si.priority;
        assert KeyedValues(w'.frames[h]) == KeyedValues(w.frames[h]);
        MapCandidatesSame(w, w', KeyedValues(w.frames[h]));
      } else {
        LayerOfSameFrame(w, w', h);
      }
    } else {
      assert w' == w;
    }
  }

  lemma SetOwnerBindingLayer(w: World, o: ObjId, g: FrameId, h: FrameId)
    requires g in w.frames && w.frames[g].BindingFrame? && w.frames[g].entry in w.entries
    requires w.entries[w.frames[g].entry].Binding?
    ensures LayerOf(SetOwner(w, o, g), h) == LayerOf(w, h)
  {
    var w' := SetOwner(w, o, g);
    var e := w.frames[g].entry;
    var b := w.entries[e].binding;
    assert B.SetOwner(b, true).(owned := b.owned) == b;
    assert w'.frames == w.frames;
    assert forall x :: Present(w', x) == Present(w, x);
    if h in w.frames {
      assert FramePriority(w', h) == FramePriority(w, h);
      MapCandidatesPresent(w, w', KeyedValues(w.frames[h]));
    }
  }
  lemma SetOwnerKeyed(w: World, o: ObjId, g: FrameId)
    requires Keyed(w)
    ensures Keyed(SetOwner(w, o, g))
  {
    var w' := SetOwner(w, o, g);
    SetOwnerShape(w, o, g);
    forall h, q | h in w'.frames && q in FrameMaps.ToMap(KeyedValues(w'.frames[h]))
      ensures FrameMaps.ToMap(KeyedValues(w'.frames[h]))[q] in w'.entries
        && PropOf(w'.entries[FrameMaps.ToMap(KeyedValues(w'.frames[h]))[q]]) == q
    {
      assert q in FrameMaps.ToMap(KeyedValues(w.frames[h]));
    }
  }

  /** Evaluation reads no store record: replacing one changes no frame's
      layer. */
  lemma UpdateStoreLayers(w: World, o: ObjId, s: Store)
    ensures forall h :: LayerOf(UpdateStore(w, o, s), h) == LayerOf(w, h)
  {
    var w1 := UpdateStore(w, o, s);
    forall h ensures LayerOf(w1, h) == LayerOf(w, h) {
      if h in w.frames { MapCandidatesSame(w, w1, KeyedValues(w.frames[h])); }
    }
  }

  lemma LayersInsert(w: World, w': World, fs: seq<FrameId>, k: int, g: FrameId)
    requires 0 <= k <= |fs|
    requires forall h :: LayerOf(w', h) == LayerOf(w, h)
    ensures Layers(w', FrameOrder.InsertAt(fs, k, g)) == FrameOrder.InsertAt(Layers(w, fs), k, LayerOf(w, g))
  {
    var fs' := FrameOrder.InsertAt(fs, k, g);
    var ls, ls' := Layers(w, fs), Layers(w', fs');
    var want := FrameOrder.InsertAt(ls, k, LayerOf(w, g));
    forall i | 0 <= i < |ls'| ensures ls'[i] == want[i] {
      if i < k { assert fs'[i] == fs[i]; }
      else if i > k { assert fs'[i] == fs[i - 1]; }
    }
  }

  lemma PrioritiesInsert(w: World, w': World, fs: seq<FrameId>, k: int, g: FrameId)
    requires 0 <= k <= |fs|
    requires forall h :: FramePriority(w', h) == FramePriority(w, h)
    ensures Priorities(w', FrameOrder.InsertAt(fs, k, g))
      == FrameOrder.InsertAt(Priorities(w, fs), k, FramePriority(w, g))
  {
    var fs' := FrameOrder.InsertAt(fs, k, g);
    var ps, ps' := Priorities(w, fs), Priorities(w', fs');
    var want := FrameOrder.InsertAt(ps, k, FramePriority(w, g));
    forall i | 0 <= i < |ps'| ensures ps'[i] == want[i] {
      if i < k { assert fs'[i] == fs[i]; }
      else if i > k { assert fs'[i] == fs[i - 1]; }
    }
  }

  /** `AddFrame` changes no frame's layer. */
  lemma AddFrameKeepsLayers(w: World, o: ObjId, g: FrameId)
    requires o in w.stores
    ensures forall h :: LayerOf(AddFrame(w, o, g), h) == LayerOf(w, h)
  {
    var s := w.stores[o];
    var k := FrameOrder.InsertionIndex(Priorities(w, s.frames), FramePriority(w, g));
    var s' := s.(frames := FrameOrder.InsertAt(s.frames, k, g));
    UpdateStoreLayers(w, o, s');
    SetOwnerKeeps(UpdateStore(w, o, s'), o, g);
  }

  /** The store's frame list after `AddFrame`, as layers. */
  lemma AddFrameLayers(w: World, o: ObjId, g: FrameId)
    requires o in w.stores
    ensures var ls := StoreLayers(w, o);
      var k := FrameOrder.InsertionIndex(Priorities(w, w.stores[o].frames), FramePriority(w, g));
      StoreLayers(AddFrame(w, o, g), o) == ls[..k] + [LayerOf(w, g)] + ls[k..]
  {
    var fs := w.stores[o].frames;
    var k := FrameOrder.InsertionIndex(Priorities(w, fs), FramePriority(w, g));
    AddFrameKeepsLayers(w, o, g);
    LayersInsert(w, AddFrame(w, o, g), fs, k, g);
    assert FrameOrder.InsertAt(StoreLayers(w, o), k, LayerOf(w, g))
      == StoreLayers(w, o)[..k] + [LayerOf(w, g)] + StoreLayers(w, o)[k..];
  }

  /** `AddFrame` leaves the inheritance chain. */
  lemma AddFrameChain(w: World, o: ObjId, g: FrameId)
    requires o in w.stores
    ensures StoreChain(AddFrame(w, o, g), o) == StoreChain(w, o)
  {
    var s := w.stores[o];
    var k := FrameOrder.InsertionIndex(Priorities(w, s.frames), FramePriority(w, g));
    var w1 := UpdateStore(w, o, s.(frames := FrameOrder.InsertAt(s.frames, k, g)));
    var w' := AddFrame(w, o, g);
    SetOwnerShape(w1, o, g);
    ChainFromSameParents(w.frames, w'.frames, ChainStart(w, o), {});
    assert ChainStart(w', o) == ChainStart(w, o);
    AddFrameKeepsLayers(w, o, g);
    var ids := ChainIds(w, o);
    forall j | 0 <= j < |ids| ensures Candidates(w', ids[j]) == Candidates(w, ids[j]) {
      assert LayerOf(w', ids[j]) == LayerOf(w, ids[j]);
    }
  }

  /** `AddFrame` keeps the arena keyed. */
  lemma AddFrameKeyed(w: World, o: ObjId, g: FrameId)
    requires o in w.stores && Keyed(w)
    ensures Keyed(AddFrame(w, o, g))
  {
    var s := w.stores[o];
    var k := FrameOrder.InsertionIndex(Priorities(w, s.frames), FramePriority(w, g));
    var w1 := UpdateStore(w, o, s.(frames := FrameOrder.InsertAt(s.frames, k, g)));
    assert Keyed(w1);
    SetOwnerKeyed(w1, o, g);
  }

  /** The store's tiers after `AddFrame`: the frame's tier inserted at the
      point the search found. */
  lemma AddFramePriorities(w: World, o: ObjId, g: FrameId)
    requires o in w.stores
    ensures var ps := Priorities(w, w.stores[o].frames);
      var k := FrameOrder.InsertionIndex(ps, FramePriority(w, g));
      Priorities(AddFrame(w, o, g), AddFrame(w, o, g).stores[o].frames) == FrameOrder.InsertAt(ps, k, FramePriority(w, g))
  {
    var w' := AddFrame(w, o, g);
    var fs := w.stores[o].frames;
    var k := FrameOrder.InsertionIndex(Priorities(w, fs), FramePriority(w, g));
    AddFrameKeepsLayers(w, o, g);
    assert forall h :: FramePriority(w', h) == LayerOf(w', h).priority;
    PrioritiesInsert(w, w', fs, k, g);
  }

  lemma BandedInsert(ps: seq<int>, k: int, x: int)
    requires Banded(ps) && 0 <= k <= |ps| && Animation <= x <= Inherited
    ensures Banded(FrameOrder.InsertAt(ps, k, x))
    ensures FrameOrder.NoOverflow(ps, x)
  {
    var r := FrameOrder.InsertAt(ps, k, x);
    forall i | 0 <= i < |r| ensures Animation <= r[i] <= Inherited {
      if i < k { assert r[i] == ps[i]; } else if i > k { assert r[i] == ps[i - 1]; }
    }
  }

  /** `AddFrame` keeps the store's tiers sorted and in range. */
  lemma AddFrameOrdered(w: World, o: ObjId, g: FrameId)
    requires o in w.stores
    requires FrameOrder.Sorted(Priorities(w, w.stores[o].frames)) && Banded(Priorities(w, w.stores[o].frames))
    requires Animation <= FramePriority(w, g) <= Inherited
    ensures var w' := AddFrame(w, o, g);
      FrameOrder.Sorted(Priorities(w', w'.stores[o].frames)) && Banded(Priorities(w', w'.stores[o].frames))
  {
    var ps := Priorities(w, w.stores[o].frames);
    var x := FramePriority(w, g);
    var k := FrameOrder.InsertionIndex(ps, x);
    AddFramePriorities(w, o, g);
    BandedInsert(ps, k, x);
    FrameOrder.InsertKeepsOrder(ps, x);
  }

  /** `AddFrame` keeps the store tidy when the frame's tier is in range. */
  lemma AddFrameTidy(w: World, o: ObjId, g: FrameId)
    requires Tidy(w, o) && g in w.frames
    requires Animation <= FramePriority(w, g) <= Inherited
    ensures Tidy(AddFrame(w, o, g), o)
  {
    var s := w.stores[o];
    var w' := AddFrame(w, o, g);
    assert Keyed(w') by { AddFrameKeyed(w, o, g); }
    assert FrameOrder.Sorted(Priorities(w', w'.stores[o].frames)) && Banded(Priorities(w', w'.stores[o].frames)) by {
      AddFrameOrdered(w, o, g);
    }
    assert InheritFramesInherit(w') && forall h :: h in w'.frames && w'.frames[h].InheritFrame? && w'.frames[h].parent.Some? ==>
      w'.frames[h].parent.value in w'.frames
    by {
      AddFrameInheritFrames(w, o, g);
      InheritFramesKept(w, w');
    }
    assert forall h :: h in w'.stores[o].frames ==> h in s.frames || h == g;
  }

  /** `AddFrame` leaves every inheritance frame as it was. */
  lemma AddFrameInheritFrames(w: World, o: ObjId, g: FrameId)
    requires o in w.stores
    ensures var w' := AddFrame(w, o, g);
      forall h :: h in w.frames ==>
        && w'.frames[h].InheritFrame? == w.frames[h].InheritFrame?
        && (w.frames[h].InheritFrame? ==> w'.frames[h] == w.frames[h])
  {
    var s := w.stores[o];
    var k := FrameOrder.InsertionIndex(Priorities(w, s.frames), FramePriority(w, g));
    SetOwnerShape(UpdateStore(w, o, s.(frames := FrameOrder.InsertAt(s.frames, k, g))), o, g);
  }

  /** Inserting a frame that offers nothing leaves every evaluation and
      keeps the store tidy. */
  lemma AddFrameKeeps(w: World, o: ObjId, g: FrameId)
    requires Tidy(w, o) && g in w.frames
    requires forall q :: C.HitOf(LayerOf(w, g), q).None?
    requires Animation <= FramePriority(w, g) <= Inherited
    ensures var w' := AddFrame(w, o, g);
      Tidy(w', o) && w'.stores[o].cache == w.stores[o].cache
      && forall q :: Evaluate(w', o, q) == Evaluate(w, o, q)
  {
    AddFrameTidy(w, o, g);
    forall q ensures Evaluate(AddFrame(w, o, g), o, q) == Evaluate(w, o, q) {
      AddFrameEvaluate(w, o, g, q);
    }
  }

  /** A frame that offers nothing for `q` leaves the evaluation of `q`
      wherever it is inserted. */
  lemma AddFrameEvaluate(w: World, o: ObjId, g: FrameId, q: PropId)
    requires o in w.stores && C.HitOf(LayerOf(w, g), q).None?
    ensures Evaluate(AddFrame(w, o, g), o, q) == Evaluate(w, o, q)
  {
    var w' := AddFrame(w, o, g);
    AddFrameLayers(w, o, g);
    AddFrameChain(w, o, g);
    var ls := StoreLayers(w, o);
    var k := FrameOrder.InsertionIndex(Priorities(w, w.stores[o].frames), FramePriority(w, g));
    C.ScanInsertMiss(ls, k, LayerOf(w, g), q);
    EvaluateFromScans(w, w', o, q);
  }

  /** Evaluation is the frame scan, then the chain scan. */
  lemma EvaluateFromScans(w: World, w': World, o: ObjId, q: PropId)
    requires o in w.stores && o in w'.stores && w'.props == w.props
    requires C.ScanLayers(StoreLayers(w', o), q) == C.ScanLayers(StoreLayers(w, o), q)
    requires StoreChain(w', o) == StoreChain(w, o)
    ensures Evaluate(w', o, q) == Evaluate(w, o, q)
  {
  }

  // ---------------------------------------------------------------------------
  // The local-value frame

  /** The arena with a fresh empty local frame at id `next`, made the store's
      local frame but not yet in its frame list. */
  function Allocated(w: World, o: ObjId): (r: World)
    requires o in w.stores && forall h :: h in w.frames ==> h < w.next
    ensures Extends(w, r) && r.next == w.next + 1 && w.next in r.frames && r.frames[w.next] == LocalFrame([])
    ensures r.frames.Keys == w.frames.Keys + {w.next}
    ensures o in r.stores && r.stores[o] == w.stores[o].(local := Some(w.next))
  {
    var g := w.next;
    var w1 := w.(frames := w.frames[g := LocalFrame([])], next := w.next + 1);
    UpdateStore(w1, o, w.stores[o].(local := Some(g)))
  }

  lemma AllocatedKeyed(w: World, o: ObjId)
    requires Tidy(w, o)
    ensures Keyed(Allocated(w, o)) && InheritFramesInherit(Allocated(w, o))
  {
    var g := w.next;
    var w2 := Allocated(w, o);
    assert KeyedValues(w2.frames[g]) == [];
    assert forall q :: Inherits(w2, q) == Inherits(w, q);
    forall h, q | h in w2.frames && h != g && q in FrameMaps.ToMap(KeyedValues(w2.frames[h]))
      ensures FrameMaps.ToMap(KeyedValues(w2.frames[h]))[q] in w2.entries
        && PropOf(w2.entries[FrameMaps.ToMap(KeyedValues(w2.frames[h]))[q]]) == q
    {
      assert w2.frames[h] == w.frames[h];
    }
    forall h, q | h in w2.frames && h != g && w2.frames[h].InheritFrame? && q in FrameMaps.ToMap(w2.frames[h].values)
      ensures Inherits(w2, q)
    {
      assert w2.frames[h] == w.frames[h];
    }
  }

  /** Allocating the local frame keeps the store tidy and reads as before;
      the new frame offers nothing. */
  lemma AllocateLocalFrame(w: World, o: ObjId)
    requires Tidy(w, o) && w.stores[o].local.None?
    ensures var w2 := Allocated(w, o);
      && Tidy(w2, o) && w2.stores[o].cache == w.stores[o].cache
      && (forall q :: Evaluate(w2, o, q) == Evaluate(w, o, q))
      && (forall q :: C.HitOf(LayerOf(w2, w.next), q).None?)
      && FramePriority(w2, w.next) == LocalValue
  {
    var g := w.next;
    var w2 := Allocated(w, o);
    EvaluateExtends(w, w2, o);
    forall h | h in w.frames ensures FramePriority(w2, h) == FramePriority(w, h) {
      assert w2.frames[h] == w.frames[h];
    }
    PrioritiesSame(w, w2, w.stores[o].frames);
    AllocatedKeyed(w, o);
    assert Candidates(w2, g) == [];
  }

  /** `EnsureLocalFrame` keeps the store tidy, its cache and every
      evaluation: a new local frame is empty. */
  lemma EnsureLocalFrameKeeps(w: World, o: ObjId)
    requires Tidy(w, o) && Ready(w, o)
    ensures var w' := EnsureLocalFrame(w, o).0;
      Tidy(w', o) && w'.stores[o].cache == w.stores[o].cache
      && forall q :: Evaluate(w', o, q) == Evaluate(w, o, q)
  {
    if w.stores[o].local.None? {
      var w2 := Allocated(w, o);
      assert EnsureLocalFrame(w, o).0 == AddFrame(w2, o, w.next);
      AllocateLocalFrame(w, o);
      AddFrameKeeps(w2, o, w.next);
    }
  }

  /** Agreement survives any step that keeps the cache and every evaluation. */
  lemma ConsistentKept(w: World, w': World, o: ObjId)
    requires o in w.stores && o in w'.stores && Consistent(w, o)
    requires w'.stores[o].cache == w.stores[o].cache
    requires forall q :: Evaluate(w', o, q) == Evaluate(w, o, q)
    ensures Consistent(w', o)
  {
    forall q ensures CacheAgrees(w', o, q) { assert CacheAgrees(w, o, q); }
  }

  /** `st` is a step of the local frame `g` on property `p`: the entry for
      `p` is reused, or created under id `next`, and no other entry changes. */
  ghost predicate LocalStep(w: World, g: FrameId, p: PropId, st: LF.Step)
    requires g in w.frames && w.frames[g].LocalFrame?
  {
    var vs := w.frames[g].values;
    && FrameMaps.TryGet(st.values, p) == Some(st.entry)
    && st.entry in st.entries && st.entries[st.entry].Local? && st.entries[st.entry].local.prop == p
    && (FrameMaps.TryGet(vs, p).Some? ==> st.values == vs && st.entry == FrameMaps.TryGet(vs, p).value)
    && (FrameMaps.TryGet(vs, p).None? ==>
          st.entry == w.next && FrameMaps.ToMap(st.values) == FrameMaps.ToMap(vs)[p := w.next])
    && st.next >= w.next
    && (forall e :: e in w.entries && e != st.entry ==> e in st.entries && st.entries[e] == w.entries[e])
    && st.entries.Keys == w.entries.Keys + {st.entry}
  }

  /** A committed local step changes only what concerns `p`. */
  lemma CommitLocal(w: World, o: ObjId, g: FrameId, p: PropId, st: LF.Step)
    requires Tidy(w, o) && Ready(w, o) && w.stores[o].local == Some(g) && LocalStep(w, g, p, st)
    ensures var w' := Commit(w, g, st);
      ChangedOnly(w, w', {p}) && w'.stores == w.stores && w'.props == w.props
  {
    var vs := w.frames[g].values;
    var w' := Commit(w, g, st);
    if FrameMaps.TryGet(vs, p).Some? {
      assert FrameMaps.ToMap(KeyedValues(w.frames[g]))[p] == st.entry;
    }
    assert SameShape(w.frames[g], w'.frames[g], {p}) by {
      forall q | q !in {p} ensures FrameMaps.TryGet(st.values, q) == FrameMaps.TryGet(vs, q) {
        assert q != p;
      }
    }
    forall h | h in w.frames ensures SameShape(w.frames[h], w'.frames[h], {p}) {
      if h != g { assert w'.frames[h] == w.frames[h]; }
    }
  }

  /** A committed local step touches no binding frame and no binding entry. */
  lemma CommitBindings(w: World, o: ObjId, g: FrameId, p: PropId, st: LF.Step)
    requires Ready(w, o) && w.stores[o].local == Some(g) && LocalStep(w, g, p, st)
    ensures var w' := Commit(w, g, st);
      forall h :: h in w.frames && !w.frames[h].LocalFrame? ==>
        && w'.frames[h] == w.frames[h]
        && (w.frames[h].BindingFrame? && w.frames[h].entry in w.entries ==>
              w'.entries[w.frames[h].entry] == w.entries[w.frames[h].entry] || w.entries[w.frames[h].entry].Local?)
  {
    var vs := w.frames[g].values;
    assert LF.Holds(vs, w.entries);
    if FrameMaps.TryGet(vs, p).Some? {
      assert w.entries[st.entry].Local?;
    }
  }

  lemma CommitKeyed(w: World, o: ObjId, g: FrameId, p: PropId, st: LF.Step)
    requires Tidy(w, o) && Ready(w, o) && w.stores[o].local == Some(g) && LocalStep(w, g, p, st)
    ensures Keyed(Commit(w, g, st))
  {
    var vs := w.frames[g].values;
    var w' := Commit(w, g, st);
    CommitLocal(w, o, g, p, st);
    CommitBindings(w, o, g, p, st);
    forall h, q | h in w'.frames && q in FrameMaps.ToMap(KeyedValues(w'.frames[h]))
      ensures FrameMaps.ToMap(KeyedValues(w'.frames[h]))[q] in w'.entries
        && PropOf(w'.entries[FrameMaps.ToMap(KeyedValues(w'.frames[h]))[q]]) == q
    {
      if h != g {
        assert w'.frames[h] == w.frames[h];
        var e := FrameMaps.ToMap(KeyedValues(w.frames[h]))[q];
        assert e in w.entries && PropOf(w.entries[e]) == q;
      } else if q != p {
        assert q in FrameMaps.ToMap(vs) && FrameMaps.ToMap(st.values)[q] == FrameMaps.ToMap(vs)[q];
        var e := FrameMaps.ToMap(vs)[q];
        assert KeyedValues(w.frames[g]) == vs;
        assert e in w.entries && PropOf(w.entries[e]) == q;
      } else {
        assert FrameMaps.TryGet(st.values, p) == Some(st.entry);
      }
    }
  }

  /** A committed local step keeps the store tidy. */
  lemma CommitTidy(w: World, o: ObjId, g: FrameId, p: PropId, st: LF.Step)
    requires Tidy(w, o) && Ready(w, o) && w.stores[o].local == Some(g) && LocalStep(w, g, p, st)
    ensures Tidy(Commit(w, g, st), o)
  {
    var w' := Commit(w, g, st);
    CommitLocal(w, o, g, p, st);
    CommitBindings(w, o, g, p, st);
    CommitKeyed(w, o, g, p, st);
    forall h | h in w.frames ensures FramePriority(w', h) == FramePriority(w, h) {
      if !w.frames[h].LocalFrame? { assert w'.frames[h] == w.frames[h]; }
    }
    PrioritiesSame(w, w', w.stores[o].frames);
    InheritFramesKept(w, w');
  }

  /** `LocalValueFrame.SetValue` is a local step; it calls back with one
      change notification for `p`, or with nothing when the value was
      already there, in which case nothing changed. */
  lemma SetValueStep(w: World, o: ObjId, g: FrameId, p: PropId, v: Value)
    requires Tidy(w, o) && Ready(w, o) && w.stores[o].local == Some(g)
    ensures var st := LF.SetValue(LocalValuesOf(w, g), w.entries, w.next, p, v);
      && LocalStep(w, g, p, st)
      && (st.effects == [] ==> Commit(w, g, st) == w)
      && (st.effects != [] ==> |st.effects| == 1 && st.effects[0].ValueChanged? && st.effects[0].prop == p)
  {
    var vs := LocalValuesOf(w, g);
    var st := LF.SetValue(vs, w.entries, w.next, p, v);
    if FrameMaps.TryGet(vs, p).Some? {
      assert FrameMaps.ToMap(KeyedValues(w.frames[g]))[p] == st.entry;
      assert LF.Holds(vs, w.entries);
      assert w.entries[st.entry].Local?;
    }
    if st.effects == [] {
      assert Commit(w, g, st).frames == w.frames;
    }
  }

  /** A change local to `p` keeps the cache agreeing everywhere but at `p`. */
  lemma LocalChangeAgreesExcept(w: World, w': World, o: ObjId, p: PropId)
    requires Tidy(w, o) && Consistent(w, o) && ChangedOnly(w, w', {p})
    requires w'.stores == w.stores && w'.props == w.props
    ensures AgreesExcept(w', o, p)
  {
    forall q | q != p ensures CacheAgrees(w', o, q) {
      EvaluateOutside(w, w', o, {p}, q);
      assert CacheAgrees(w, o, q);
    }
  }

  /** Setting the value in the local frame of a consistent store and
      dispatching the entry's notification leaves the store consistent. */
  lemma SetValueStepConsistent(w: World, o: ObjId, g: FrameId, p: PropId, v: Value)
    requires Tidy(w, o) && Ready(w, o) && w.stores[o].local == Some(g) && Consistent(w, o)
    ensures var st := LF.SetValue(LocalValuesOf(w, g), w.entries, w.next, p, v);
      var w' := Dispatch(Commit(w, g, st), o, g, st.effects).0;
      Consistent(w', o) && Tidy(w', o)
  {
    var st := LF.SetValue(LocalValuesOf(w, g), w.entries, w.next, p, v);
    var w2 := Commit(w, g, st);
    SetValueStep(w, o, g, p, v);
    CommitLocal(w, o, g, p, st);
    CommitTidy(w, o, g, p, st);
    if st.effects != [] {
      LocalChangeAgreesExcept(w, w2, o, p);
      assert st.effects == [ValueChanged(p, st.effects[0].oldValue)];
      DispatchChangeRestores(w2, o, g, p, st.effects[0].oldValue);
    }
  }

  /** `SetLocalValue` leaves every cached entry equal to the property's
      evaluation, and the store tidy. */
  lemma SetLocalValueConsistent(w: World, o: ObjId, p: PropId, v: Value)
    requires Tidy(w, o) && Ready(w, o) && p in w.props && Consistent(w, o)
    ensures var r := SetLocalValue(w, o, p, v);
      r.Ok? ==> Consistent(r.value.0, o) && Tidy(r.value.0, o)
  {
    if Properties.Accepts(w.props[p].validate, v) {
      var (w1, g) := EnsureLocalFrame(w, o);
      EnsureLocalFrameKeeps(w, o);
      ConsistentKept(w, w1, o);
      SetValueStepConsistent(w1, o, g, p, v);
    }
  }

  /** The store's local-value frame, once created, is one of its frames:
      `_localValues` is added to the frame list when it is made. */
  predicate LocalListed(w: World, o: ObjId)
    requires o in w.stores
  {
    w.stores[o].local.Some? ==> w.stores[o].local.value in w.stores[o].frames
  }

  /** No frame of the store other than `g`, at `g`'s tier or stronger,
      supplies `p`. */
  predicate NoneAbove(w: World, o: ObjId, g: FrameId, p: PropId)
    requires o in w.stores
  {
    forall h :: h in w.stores[o].frames && h != g && FramePriority(w, h) <= LocalValue ==> C.HitOf(LayerOf(w, h), p).None?
  }

  /** On layers sorted weakest first, a layer that supplies `p` decides it
      when no other layer at its tier or stronger supplies it. */
  lemma SoleStrongSupplier(ls: seq<C.Layer>, j: int, p: PropId)
    requires 0 <= j < |ls| && C.HitOf(ls[j], p).Some?
    requires forall i, k :: 0 <= i < k < |ls| ==> ls[i].priority >= ls[k].priority
    requires forall k :: 0 <= k < |ls| && ls[k] != ls[j] && ls[k].priority <= ls[j].priority ==> C.HitOf(ls[k], p).None?
    ensures C.ScanLayers(ls, p) == C.HitOf(ls[j], p)
  {
    C.ScanLayersSpec(ls, p);
    var i :| 0 <= i < |ls| && ls[i].active && C.FirstPresent(ls[i].candidates, p).Some?
      && C.ScanLayers(ls, p) == Some(C.Winner(C.FirstPresent(ls[i].candidates, p).value, ls[i].priority))
      && forall k :: i < k < |ls| && ls[k].active ==> C.FirstPresent(ls[k].candidates, p).None?;
  }

  /** A local-tier frame that holds a value for `p` wins `p` when no other
      frame at its tier or stronger supplies it. */
  lemma LocalFrameWins(w: World, o: ObjId, g: FrameId, p: PropId, e: EntryId)
    requires Tidy(w, o) && g in w.stores[o].frames && FramePriority(w, g) == LocalValue && FrameActive(w, g)
    requires FrameHit(w, g, p) == Some(e) && NoneAbove(w, o, g, p)
    ensures Evaluate(w, o, p) == Some(C.Winner(e, LocalValue))
  {
    var fs := w.stores[o].frames;
    var ls := StoreLayers(w, o);
    var j :| 0 <= j < |fs| && fs[j] == g;
    HitOfFrame(w, g, p);
    assert FrameOrder.Sorted(Priorities(w, fs));
    forall i, k | 0 <= i < k < |ls| ensures ls[i].priority >= ls[k].priority {
      assert FrameOrder.NotStronger(Priorities(w, fs), i, k);
    }
    forall k | 0 <= k < |ls| && ls[k] != ls[j] && ls[k].priority <= ls[j].priority
      ensures C.HitOf(ls[k], p).None?
    {
      assert fs[k] in fs && fs[k] != g;
    }
    SoleStrongSupplier(ls, j, p);
  }

  /** The typed re-evaluation leaves a local frame, the store's frame list
      and local frame, and what every entry reads as they were. */
  lemma ReevaluateKeepsLocalFrame(w: World, o: ObjId, p: PropId, oldValue: Optional, g: FrameId, e: EntryId)
    requires Tidy(w, o) && g in w.frames && w.frames[g].LocalFrame? && e in w.entries
    ensures var w' := ValueStores.Reevaluate(w, o, p, oldValue).0;
      && g in w'.frames && w'.frames[g] == w.frames[g]
      && w'.stores[o].frames == w.stores[o].frames && w'.stores[o].local == w.stores[o].local
      && e in w'.entries && Present(w', e) == Present(w, e) && ReadTypedId(w', e) == ReadTypedId(w, e)
  {
    var w1 := PerformTidy(w, o, S.EvaluateReads(w, o, p));
    S.StartsInvisible(w, w1);
    var ev := Evaluate(w1, o, p);
    var s := w1.stores[o];
    var wc := if ev.Some? then SetCache(w1, o, FrameMaps.Set(s.cache, p, ev.value.entry))
              else SetCache(w1, o, FrameMaps.Remove(s.cache, p).0);
    assert wc == w1.(stores := w1.stores[o := s.(cache := wc.stores[o].cache)]);
    var entry := if ev.Some? then Some(ev.value.entry) else None;
    var nv := if ev.Some? then Some(ReadTypedId(w1, ev.value.entry)) else None;
    var pr := if ev.Some? then ev.value.priority else Unset;
    assert Settle(w1, o, p, oldValue) == RaiseTyped(wc, o, p, entry, oldValue, nv, pr);
    RaiseTypedInherits(wc, o, p, entry, oldValue, nv, pr);
    if pr < Inherited && entry.Some? && wc.stores[o].inheritance.Some? && Inherits(wc, p) {
      SetInheritanceFrameValueWrites(wc, o, p, entry.value);
    }
  }

  /** Committing a local step puts the property's entry, reading the
      value, into the local frame and touches no store. */
  lemma CommitHoldsValue(w: World, o: ObjId, g: FrameId, p: PropId, v: Value)
    requires Tidy(w, o) && Ready(w, o) && w.stores[o].local == Some(g)
    ensures var st := LF.SetValue(LocalValuesOf(w, g), w.entries, w.next, p, v);
      var w2 := Commit(w, g, st);
      && Tidy(w2, o) && w2.stores == w.stores && g in w2.frames && w2.frames[g].LocalFrame?
      && st.entry in w2.entries && FrameHit(w2, g, p) == Some(st.entry) && ReadTypedId(w2, st.entry) == v
      && (st.effects == [] || (|st.effects| == 1 && st.effects[0].ValueChanged? && st.effects[0].prop == p))
  {
    var st := LF.SetValue(LocalValuesOf(w, g), w.entries, w.next, p, v);
    var w2 := Commit(w, g, st);
    SetValueStep(w, o, g, p, v);
    CommitTidy(w, o, g, p, st);
    assert w2.entries[st.entry].Local? && L.Current(w2.entries[st.entry].local) == Some(v);
    assert Present(w2, st.entry);
  }

  /** Dispatching a local entry's notification keeps the local frame, the
      frame list and what the entry reads. */
  lemma DispatchKeepsLocal(w: World, o: ObjId, g: FrameId, p: PropId, fx: seq<Effect>, e: EntryId)
    requires Tidy(w, o) && g in w.frames && w.frames[g].LocalFrame? && e in w.entries
    requires fx == [] || (|fx| == 1 && fx[0].ValueChanged? && fx[0].prop == p)
    ensures var w' := Dispatch(w, o, g, fx).0;
      && g in w'.frames && w'.frames[g] == w.frames[g]
      && w'.stores[o].frames == w.stores[o].frames && w'.stores[o].local == w.stores[o].local
      && e in w'.entries && Present(w', e) == Present(w, e) && ReadTypedId(w', e) == ReadTypedId(w, e)
  {
    if fx != [] {
      assert fx == [ValueChanged(p, fx[0].oldValue)];
      var re := ValueStores.Reevaluate(w, o, p, fx[0].oldValue);
      assert Dispatch(w, o, g, fx) == (re.0, re.1 + []);
      ReevaluateKeepsLocalFrame(w, o, p, fx[0].oldValue, g, e);
    }
  }

  /** On the store with its local frame `g` listed, setting a value there
      and dispatching the notification makes `GetValue` read the value,
      unless another frame at the local tier or stronger supplies it. */
  lemma LocalSetReadsBack(w: World, o: ObjId, g: FrameId, p: PropId, v: Value)
    requires Tidy(w, o) && Ready(w, o) && w.stores[o].local == Some(g) && g in w.stores[o].frames && Consistent(w, o)
    ensures var st := LF.SetValue(LocalValuesOf(w, g), w.entries, w.next, p, v);
      var w' := Dispatch(Commit(w, g, st), o, g, st.effects).0;
      && o in w'.stores && w'.stores[o].local == Some(g) && LocalListed(w', o)
      && (NoneAbove(w', o, g, p) ==> GetValue(w', o, p) == v)
  {
    var st := LF.SetValue(LocalValuesOf(w, g), w.entries, w.next, p, v);
    var w2 := Commit(w, g, st);
    var w' := Dispatch(w2, o, g, st.effects).0;
    CommitHoldsValue(w, o, g, p, v);
    DispatchKeepsLocal(w2, o, g, p, st.effects, st.entry);
    SetValueStepConsistent(w, o, g, p, v);
    assert FrameHit(w', g, p) == FrameHit(w2, g, p);
    if NoneAbove(w', o, g, p) {
      LocalFrameWins(w', o, g, p, st.entry);
      GetValueReadsEvaluation(w', o, p);
    }
  }

  /** After `SetLocalValue` accepts a value, `GetValue` reads that value
      unless another frame at the local tier or stronger supplies the
      property. */
  lemma SetLocalValueReadsBack(w: World, o: ObjId, p: PropId, v: Value)
    requires Tidy(w, o) && Ready(w, o) && p in w.props && Consistent(w, o) && LocalListed(w, o)
    ensures var r := SetLocalValue(w, o, p, v);
      r.Ok? ==>
        && r.value.0.stores[o].local.Some? && LocalListed(r.value.0, o)
        && (NoneAbove(r.value.0, o, r.value.0.stores[o].local.value, p) ==> GetValue(r.value.0, o, p) == v)
  {
    if Properties.Accepts(w.props[p].validate, v) {
      var (w1, g) := EnsureLocalFrame(w, o);
      EnsureLocalFrameListed(w, o);
      LocalSetReadsBack(w1, o, g, p, v);
    }
  }

  /** `EnsureLocalFrame` leaves a consistent store whose local frame is
      listed among its frames. */
  lemma EnsureLocalFrameListed(w: World, o: ObjId)
    requires Tidy(w, o) && Ready(w, o) && Consistent(w, o) && LocalListed(w, o)
    ensures var (w1, g) := EnsureLocalFrame(w, o);
      && Tidy(w1, o) && Ready(w1, o) && Consistent(w1, o)
      && w1.stores[o].local == Some(g) && g in w1.stores[o].frames
  {
    var (w1, g) := EnsureLocalFrame(w, o);
    EnsureLocalFrameKeeps(w, o);
    ConsistentKept(w, w1, o);
    assert g in w1.stores[o].frames;
  }

  // ---------------------------------------------------------------------------
  // Clearing a local value

  /** A local change after which every frame still offers the same hit for
      `q` keeps the evaluation of `q`. */
  lemma EvaluateSameHits(w: World, w': World, o: ObjId, ps: set<PropId>, q: PropId)
    requires o in w.stores && o in w'.stores && w'.props == w.props
    requires w'.stores[o].frames == w.stores[o].frames && w'.stores[o].inheritance == w.stores[o].inheritance
    requires ChangedOnly(w, w', ps)
    requires forall h :: C.HitOf(LayerOf(w', h), q) == C.HitOf(LayerOf(w, h), q)
    ensures Evaluate(w', o, q) == Evaluate(w, o, q)
  {
    LayersOutside(w, w', w.stores[o].frames, q);
    ChainIdsOutside(w, w', o, ps);
    var ids := ChainIds(w, o);
    forall h | h in ids ensures FrameActive(w', h) {
      assert SameShape(w.frames[h], w'.frames[h], ps);
    }
    ChainOutside(w, w', ids, q);
  }

  /** A change local to `p` after which every frame offers the same hit for
      `p` keeps every evaluation. */
  lemma SameHitsKeepAll(w: World, w': World, o: ObjId, p: PropId)
    requires o in w.stores && w'.stores == w.stores && w'.props == w.props
    requires Keyed(w) && ChangedOnly(w, w', {p})
    requires forall h :: C.HitOf(LayerOf(w', h), p) == C.HitOf(LayerOf(w, h), p)
    ensures forall q :: Evaluate(w', o, q) == Evaluate(w, o, q)
  {
    forall q ensures Evaluate(w', o, q) == Evaluate(w, o, q) {
      if q == p { EvaluateSameHits(w, w', o, {p}, q); } else { EvaluateOutside(w, w', o, {p}, q); }
    }
  }

  /** The local frame `g` of `w` without its entry for `p`. */
  function WithoutLocal(w: World, g: FrameId, p: PropId): (r: World)
    requires g in w.frames && w.frames[g].LocalFrame?
    ensures r.frames.Keys == w.frames.Keys && r.frames[g].LocalFrame?
    ensures FrameMaps.ToMap(r.frames[g].values) == FrameMaps.ToMap(w.frames[g].values) - {p}
    ensures forall h :: h in w.frames && h != g ==> r.frames[h] == w.frames[h]
    ensures r.entries == w.entries && r.stores == w.stores && r.props == w.props
  {
    w.(frames := w.frames[g := LocalFrame(LF.ClearValue(w.frames[g].values, p).0)])
  }

  /** Dropping a local entry is a change local to its property. */
  lemma WithoutLocalShape(w: World, g: FrameId, p: PropId)
    requires g in w.frames && w.frames[g].LocalFrame?
    ensures ChangedOnly(w, WithoutLocal(w, g, p), {p})
  {
    var w' := WithoutLocal(w, g, p);
    var vs := w.frames[g].values;
    assert SameShape(w.frames[g], w'.frames[g], {p}) by {
      forall q | q !in {p} ensures FrameMaps.TryGet(w'.frames[g].values, q) == FrameMaps.TryGet(vs, q) {
        assert q != p;
      }
    }
    forall h | h in w.frames ensures SameShape(w.frames[h], w'.frames[h], {p}) {
      if h != g { assert w'.frames[h] == w.frames[h]; }
    }
  }

  /** Dropping a local entry keeps the store tidy. */
  lemma WithoutLocalTidy(w: World, o: ObjId, g: FrameId, p: PropId)
    requires Tidy(w, o) && g in w.frames && w.frames[g].LocalFrame?
    ensures Tidy(WithoutLocal(w, g, p), o)
  {
    var w' := WithoutLocal(w, g, p);
    forall h | h in w.frames ensures FramePriority(w', h) == FramePriority(w, h) {}
    PrioritiesSame(w, w', w.stores[o].frames);
    forall h, q | h in w'.frames && q in FrameMaps.ToMap(KeyedValues(w'.frames[h]))
      ensures FrameMaps.ToMap(KeyedValues(w'.frames[h]))[q] in w'.entries
        && PropOf(w'.entries[FrameMaps.ToMap(KeyedValues(w'.frames[h]))[q]]) == q
    {
      if h == g {
        assert q in FrameMaps.ToMap(KeyedValues(w.frames[h]));
      } else {
        assert w'.frames[h] == w.frames[h];
      }
    }
    forall h, q | h in w'.frames && w'.frames[h].InheritFrame? && q in FrameMaps.ToMap(w'.frames[h].values)
      ensures Inherits(w', q)
    {
      assert h != g && w'.frames[h] == w.frames[h];
      assert Inherits(w, q);
    }
  }

  /** Dropping a local entry that has no value leaves every frame's hit. */
  lemma WithoutLocalHit(w: World, g: FrameId, p: PropId, h: FrameId)
    requires g in w.frames && w.frames[g].LocalFrame?
    requires FrameMaps.TryGet(w.frames[g].values, p).Some? ==> !Present(w, FrameMaps.TryGet(w.frames[g].values, p).value)
    ensures C.HitOf(LayerOf(WithoutLocal(w, g, p), h), p) == C.HitOf(LayerOf(w, h), p)
  {
    var w' := WithoutLocal(w, g, p);
    if h != g {
      LayerOfSameFrame(w, w', h);
    } else {
      HitOfFrame(w, h, p);
      HitOfFrame(w', h, p);
      LocalFrameHit(w, g, p);
      LocalFrameHit(w', g, p);
      assert FrameMaps.TryGet(w'.frames[g].values, p).None?;
    }
  }

  /** Dropping a local entry that has no value changes no evaluation. */
  lemma RemoveAbsentKeeps(w: World, o: ObjId, g: FrameId, p: PropId)
    requires Tidy(w, o) && g in w.frames && w.frames[g].LocalFrame?
    requires FrameMaps.TryGet(w.frames[g].values, p).Some? ==> !Present(w, FrameMaps.TryGet(w.frames[g].values, p).value)
    ensures var w' := WithoutLocal(w, g, p);
      Tidy(w', o) && forall q :: Evaluate(w', o, q) == Evaluate(w, o, q)
  {
    var w' := WithoutLocal(w, g, p);
    WithoutLocalShape(w, g, p);
    WithoutLocalTidy(w, o, g, p);
    forall h ensures C.HitOf(LayerOf(w', h), p) == C.HitOf(LayerOf(w, h), p) {
      WithoutLocalHit(w, g, p, h);
    }
    SameHitsKeepAll(w, w', o, p);
  }

  /** The arena after the local entry for `p` in frame `g` clears itself. */
  function ClearedEntry(w: World, e: EntryId): (r: World)
    requires e in w.entries && w.entries[e].Local?
    ensures r.frames == w.frames && r.stores == w.stores && r.props == w.props
    ensures r.entries.Keys == w.entries.Keys && r.entries[e].Local? && !Present(r, e)
    ensures forall e' :: e' in w.entries && e' != e ==> r.entries[e'] == w.entries[e']
    ensures PropOf(r.entries[e]) == PropOf(w.entries[e])
  {
    w.(entries := w.entries[e := Local(L.ClearValue(w.entries[e].local).0)])
  }

  /** Clearing the local entry changes only what concerns its property and
      keeps the store tidy. */
  lemma ClearedEntryTidy(w: World, o: ObjId, e: EntryId)
    requires Tidy(w, o) && e in w.entries && w.entries[e].Local?
    ensures ChangedOnly(w, ClearedEntry(w, e), {PropOf(w.entries[e])})
    ensures Tidy(ClearedEntry(w, e), o)
  {
    var w' := ClearedEntry(w, e);
    forall h | h in w.frames && w.frames[h].BindingFrame? ensures w'.entries[w.frames[h].entry] == w.entries[w.frames[h].entry] {
      assert w.frames[h].entry != e;
    }
    forall h | h in w.frames ensures FramePriority(w', h) == FramePriority(w, h) {}
    PrioritiesSame(w, w', w.stores[o].frames);
    assert forall q :: Inherits(w', q) == Inherits(w, q);
    forall h, q | h in w'.frames && q in FrameMaps.ToMap(KeyedValues(w'.frames[h]))
      ensures FrameMaps.ToMap(KeyedValues(w'.frames[h]))[q] in w'.entries
        && PropOf(w'.entries[FrameMaps.ToMap(KeyedValues(w'.frames[h]))[q]]) == q
    {
      var x := FrameMaps.ToMap(KeyedValues(w.frames[h]))[q];
      assert x in w.entries && PropOf(w.entries[x]) == q;
    }
  }

  /** A change notification for `p`, dispatched to a tidy store that agrees
      everywhere else, restores agreement. */
  lemma DispatchChangeRestores(w: World, o: ObjId, g: FrameId, p: PropId, oldValue: Optional)
    requires Tidy(w, o) && AgreesExcept(w, o, p)
    ensures var w' := Dispatch(w, o, g, [ValueChanged(p, oldValue)]).0;
      Consistent(w', o) && Tidy(w', o)
  {
    var re := ValueStores.Reevaluate(w, o, p, oldValue);
    assert Dispatch(w, o, g, [ValueChanged(p, oldValue)]) == (re.0, re.1 + []);
    ReevaluateRestores(w, o, p, oldValue);
    ReevaluateTidy(w, o, p, oldValue);
  }

  /** A removal request from the local entry for `p`, which has no value,
      keeps the store tidy and agreement everywhere but at `p` too, and
      agreement at `p` when there was. */
  lemma DispatchRemoval(w: World, o: ObjId, g: FrameId, p: PropId, rest: seq<Effect>)
    requires Tidy(w, o) && g in w.frames && w.frames[g].LocalFrame? && AgreesExcept(w, o, p)
    requires FrameMaps.TryGet(w.frames[g].values, p).Some? ==> !Present(w, FrameMaps.TryGet(w.frames[g].values, p).value)
    ensures var w' := WithoutLocal(w, g, p);
      && Dispatch(w, o, g, [RemoveFromFrame(p)] + rest).0 == Dispatch(w', o, g, rest).0
      && Tidy(w', o) && AgreesExcept(w', o, p) && (CacheAgrees(w, o, p) ==> CacheAgrees(w', o, p))
  {
    var w' := WithoutLocal(w, g, p);
    RemoveAbsentKeeps(w, o, g, p);
    assert ([RemoveFromFrame(p)] + rest)[1..] == rest;
    forall q ensures CacheAgrees(w, o, q) ==> CacheAgrees(w', o, q) {}
  }

  /** The calls of a cleared local entry, dispatched, restore agreement. */
  lemma ClearCallsRestore(w: World, o: ObjId, g: FrameId, p: PropId, le: L.LocalEntry)
    requires Tidy(w, o) && g in w.frames && w.frames[g].LocalFrame? && AgreesExcept(w, o, p)
    requires FrameMaps.TryGet(w.frames[g].values, p).Some? ==> !Present(w, FrameMaps.TryGet(w.frames[g].values, p).value)
    requires le.prop == p && (!le.hasValue ==> CacheAgrees(w, o, p))
    ensures var w' := Dispatch(w, o, g, L.ClearValue(le).1).0;
      Consistent(w', o) && Tidy(w', o)
  {
    var fx := L.ClearValue(le).1;
    var x := ValueChanged(p, L.Current(le));
    if le.subscription.None? {
      var rest := if le.hasValue then [x] else [];
      assert fx == [RemoveFromFrame(p)] + rest;
      DispatchRemoval(w, o, g, p, rest);
      var w2 := WithoutLocal(w, g, p);
      if le.hasValue {
        DispatchChangeRestores(w2, o, g, p, x.oldValue);
      } else {
        assert Dispatch(w2, o, g, rest).0 == w2;
      }
    } else if le.hasValue {
      assert fx == [x];
      DispatchChangeRestores(w, o, g, p, x.oldValue);
    } else {
      assert fx == [];
    }
  }

  /** Clearing the local entry keeps agreement for every other property. */
  lemma ClearedEntryAgrees(w: World, o: ObjId, e: EntryId)
    requires Tidy(w, o) && Consistent(w, o) && e in w.entries && w.entries[e].Local?
    ensures AgreesExcept(ClearedEntry(w, e), o, PropOf(w.entries[e]))
  {
    var p := PropOf(w.entries[e]);
    var w1 := ClearedEntry(w, e);
    ClearedEntryTidy(w, o, e);
    forall q | q != p ensures CacheAgrees(w1, o, q) {
      EvaluateOutside(w, w1, o, {p}, q);
      assert CacheAgrees(w, o, q);
    }
  }

  /** The local entry `ClearLocalValue` works on: in the arena, local, filed
      under `p`. */
  lemma LocalEntryOf(w: World, o: ObjId, p: PropId)
    requires Tidy(w, o) && Ready(w, o) && w.stores[o].local.Some?
    requires FrameMaps.TryGet(w.frames[w.stores[o].local.value].values, p).Some?
    ensures var e := FrameMaps.TryGet(w.frames[w.stores[o].local.value].values, p).value;
      e in w.entries && w.entries[e].Local? && PropOf(w.entries[e]) == p
      && ClearLocalValue(w, o, p).0
         == Dispatch(ClearedEntry(w, e), o, w.stores[o].local.value, L.ClearValue(w.entries[e].local).1).0
  {
    var g := w.stores[o].local.value;
    var vs := w.frames[g].values;
    var e := FrameMaps.TryGet(vs, p).value;
    assert LF.Holds(vs, w.entries);
    assert KeyedValues(w.frames[g]) == vs && FrameMaps.ToMap(vs)[p] == e;
  }

  /** The corrected `ClearLocalValue` leaves every cached entry equal to the
      property's evaluation, and the store tidy. */
  lemma ClearLocalValueConsistent(w: World, o: ObjId, p: PropId)
    requires Tidy(w, o) && Ready(w, o) && Consistent(w, o)
    ensures Consistent(ClearLocalValue(w, o, p).0, o) && Tidy(ClearLocalValue(w, o, p).0, o)
  {
    var g := w.stores[o].local;
    if g.Some? && FrameMaps.TryGet(w.frames[g.value].values, p).Some? {
      var e := FrameMaps.TryGet(w.frames[g.value].values, p).value;
      LocalEntryOf(w, o, p);
      var le := w.entries[e].local;
      var w1 := ClearedEntry(w, e);
      ClearedEntryTidy(w, o, e);
      ClearedEntryAgrees(w, o, e);
      if !le.hasValue {
        assert w1 == w && CacheAgrees(w, o, p);
      }
      assert FrameMaps.TryGet(w1.frames[g.value].values, p) == Some(e);
      ClearCallsRestore(w1, o, g.value, p, le);
    }
  }

  /** One object whose local value 1 for property 0 is the effective value. */
  function OneLocalValue(): (w: World)
    ensures w.stores.Keys == {0} && w.frames.Keys == {0} && w.entries.Keys == {0}
    ensures w.stores[0].frames == [0] && w.stores[0].local == Some(0) && w.stores[0].inheritance.None?
  {
    var meta := Properties.Metadata(Null, None);
    var prop := Properties.Property("P", 0, 0, meta, map[0 := meta], map[], false, false, None, false);
    World(map[0 := prop], Properties.TypeHierarchy(map[], map[]), map[],
          map[0 := Store(0, [0], None, Some(0), [FrameMaps.Slot(0, 0)], 0)],
          map[0 := LocalFrame([FrameMaps.Slot(0, 0)])],
          map[0 := Local(L.LocalEntry(0, None, true, Val(1)))], 1)
  }

  lemma OneLocalValueTidy()
    ensures Tidy(OneLocalValue(), 0) && Ready(OneLocalValue(), 0)
  {
    var w := OneLocalValue();
    assert Priorities(w, [0]) == [LocalValue];
    assert FrameMaps.ToMap(w.frames[0].values) == map[0 := 0];
  }

  lemma OneLocalValueConsistent()
    ensures Consistent(OneLocalValue(), 0)
  {
    var w := OneLocalValue();
    forall q ensures CacheAgrees(w, 0, q) {
      OneLocalValueEvaluate(q);
      assert FrameMaps.TryGet(w.stores[0].cache, q) == if q == 0 then Some(0) else None;
    }
  }

  /** The single local value wins for its property; nothing else has one. */
  lemma OneLocalValueEvaluate(q: PropId)
    ensures Evaluate(OneLocalValue(), 0, q) == if q == 0 then Some(C.Winner(0, LocalValue)) else None
  {
    var w := OneLocalValue();
    var l := C.Layer(LocalValue, true, [C.Candidate(0, true, 0)]);
    assert MapCandidates(w, w.frames[0].values) == [C.Candidate(0, true, 0)];
    assert LayerOf(w, 0) == l;
    assert StoreLayers(w, 0) == [l];
    assert C.FirstPresent(l.candidates, q) == if q == 0 then Some(0) else None;
    assert C.ScanLayers([l], q) == if q == 0 then Some(C.Winner(0, LocalValue)) else C.ScanLayers([], q);
    assert StoreChain(w, 0) == [];
  }

  /** As written, `ClearLocalValue` drops the entry from the local frame but
      leaves it in the effective-value cache: evaluation now finds nothing
      while `GetValue` still reads the cleared value. */
  lemma ClearLocalValueStaleCounterexample()
    ensures var w := OneLocalValue();
      var w' := ClearLocalValueAsWritten(w, 0, 0);
      && Consistent(w, 0) && GetValue(w, 0, 0) == Val(1)
      && Evaluate(w', 0, 0).None? && !CacheAgrees(w', 0, 0) && GetValue(w', 0, 0) == Val(1)
  {
    var w := OneLocalValue();
    var w' := ClearLocalValueAsWritten(w, 0, 0);
    OneLocalValueConsistent();
    assert w'.frames[0] == LocalFrame([]);
    assert StoreLayers(w', 0) == [LayerOf(w', 0)];
    assert ChainIds(w', 0) == [];
    assert C.ScanLayers(StoreLayers(w', 0), 0).None?;
  }

  // ---------------------------------------------------------------------------
  // Adding a binding

  /** A frame reads the same after a step that keeps the frame, its tier
      and the presence of every entry it refers to. */
  lemma FrameHitSamePresence(w: World, w': World, h: FrameId, q: PropId)
    requires Keyed(w) && h in w.frames && h in w'.frames && w'.frames[h] == w.frames[h]
    requires FramePriority(w', h) == FramePriority(w, h)
    requires forall e :: e in w.entries ==>
      e in w'.entries && Present(w', e) == Present(w, e) && PropOf(w'.entries[e]) == PropOf(w.entries[e])
    ensures C.HitOf(LayerOf(w', h), q) == C.HitOf(LayerOf(w, h), q)
  {
    HitOfFrame(w, h, q);
    HitOfFrame(w', h, q);
    if !w.frames[h].BindingFrame? {
      var e := FrameMaps.TryGet(KeyedValues(w.frames[h]), q);
      if e.Some? { assert FrameMaps.ToMap(KeyedValues(w.frames[h]))[q] == e.value; }
    }
  }

  /** `LocalValueFrame.AddBinding` is a local step. */
  lemma AddBindingStep(w: World, o: ObjId, g: FrameId, p: PropId, source: SourceId)
    requires Tidy(w, o) && Ready(w, o) && w.stores[o].local == Some(g)
    ensures LocalStep(w, g, p, LF.AddBinding(LocalValuesOf(w, g), w.entries, w.next, p, source))
  {
    var vs := LocalValuesOf(w, g);
    var st := LF.AddBinding(vs, w.entries, w.next, p, source);
    if FrameMaps.TryGet(vs, p).Some? {
      assert FrameMaps.ToMap(KeyedValues(w.frames[g]))[p] == st.entry;
    }
  }

  /** ... and it leaves every entry's value where it was: a reused entry keeps
      its value, a new one has none. */
  lemma AddBindingPresence(w: World, o: ObjId, g: FrameId, p: PropId, source: SourceId)
    requires Ready(w, o) && w.stores[o].local == Some(g)
    ensures var st := LF.AddBinding(LocalValuesOf(w, g), w.entries, w.next, p, source);
      && (forall e :: e in w.entries ==> Present(Commit(w, g, st), e) == Present(w, e))
      && (FrameMaps.TryGet(w.frames[g].values, p).None? ==> !Present(Commit(w, g, st), st.entry))
  {
    var vs := LocalValuesOf(w, g);
    assert LF.Holds(vs, w.entries);
  }

  /** After the local binding step the local frame offers the same hit for
      `p`. */
  lemma AddBindingHitLocal(w: World, o: ObjId, g: FrameId, p: PropId, source: SourceId)
    requires Ready(w, o) && w.stores[o].local == Some(g)
    ensures var w' := Commit(w, g, LF.AddBinding(LocalValuesOf(w, g), w.entries, w.next, p, source));
      FrameHit(w', g, p) == FrameHit(w, g, p)
  {
    var vs := w.frames[g].values;
    var st := LF.AddBinding(LocalValuesOf(w, g), w.entries, w.next, p, source);
    var w' := Commit(w, g, st);
    AddBindingLocalMap(w, o, g, p, source);
    MapHitAfterStep(w, w', vs, st.values, p, w.next);
    LocalFrameHit(w, g, p);
    LocalFrameHit(w', g, p);
  }

  /** A local frame offers the hit of its map. */
  lemma LocalFrameHit(w: World, g: FrameId, p: PropId)
    requires g in w.frames && w.frames[g].LocalFrame?
    ensures FrameHit(w, g, p) == MapHit(w, w.frames[g].values, p)
  {
  }

  /** The local frame's entry for `p` after the binding step: the same one,
      holding the same value, or a new one holding none. */
  lemma AddBindingLocalMap(w: World, o: ObjId, g: FrameId, p: PropId, source: SourceId)
    requires Ready(w, o) && w.stores[o].local == Some(g)
    ensures var vs := w.frames[g].values;
      var st := LF.AddBinding(LocalValuesOf(w, g), w.entries, w.next, p, source);
      && (FrameMaps.TryGet(vs, p).Some? ==>
            st.values == vs && Present(Commit(w, g, st), FrameMaps.TryGet(vs, p).value) == Present(w, FrameMaps.TryGet(vs, p).value))
      && (FrameMaps.TryGet(vs, p).None? ==>
            FrameMaps.TryGet(st.values, p) == Some(w.next) && !Present(Commit(w, g, st), w.next))
  {
    var vs := w.frames[g].values;
    assert LF.Holds(vs, w.entries);
    AddBindingPresence(w, o, g, p, source);
    if FrameMaps.TryGet(vs, p).Some? {
      assert FrameMaps.TryGet(vs, p).value in w.entries;
    }
  }

  /** A frame map that either keeps its entry for `p`, whose presence is kept,
      or gains a first entry for `p` that holds no value, offers the same hit. */
  lemma MapHitAfterStep(w: World, w': World, vs: FrameMaps.FrameMap<EntryId>, vs': FrameMaps.FrameMap<EntryId>,
                        p: PropId, e': EntryId)
    requires FrameMaps.TryGet(vs, p).Some? ==>
      vs' == vs && Present(w', FrameMaps.TryGet(vs, p).value) == Present(w, FrameMaps.TryGet(vs, p).value)
    requires FrameMaps.TryGet(vs, p).None? ==> FrameMaps.TryGet(vs', p) == Some(e') && !Present(w', e')
    ensures MapHit(w', vs', p) == MapHit(w, vs, p)
  {
  }

  /** The local binding step keeps the property and presence of every
      entry ... */
  lemma AddBindingEntriesKept(w: World, o: ObjId, g: FrameId, p: PropId, source: SourceId)
    requires Tidy(w, o) && Ready(w, o) && w.stores[o].local == Some(g)
    ensures var w' := Commit(w, g, LF.AddBinding(LocalValuesOf(w, g), w.entries, w.next, p, source));
      forall e :: e in w.entries ==>
        e in w'.entries && Present(w', e) == Present(w, e) && PropOf(w'.entries[e]) == PropOf(w.entries[e])
  {
    var st := LF.AddBinding(LocalValuesOf(w, g), w.entries, w.next, p, source);
    AddBindingStep(w, o, g, p, source);
    AddBindingPresence(w, o, g, p, source);
    CommitLocal(w, o, g, p, st);
  }

  /** A committed local step keeps every other frame with its tier: the only
      entry it touches is a local one. */
  lemma CommitFrameKept(w: World, g: FrameId, p: PropId, st: LF.Step, h: FrameId)
    requires g in w.frames && w.frames[g].LocalFrame? && LocalStep(w, g, p, st)
    requires LF.Holds(w.frames[g].values, w.entries) && w.next !in w.entries
    requires h != g && h in w.frames
    ensures var w' := Commit(w, g, st);
      h in w'.frames && w'.frames[h] == w.frames[h] && FramePriority(w', h) == FramePriority(w, h)
  {
    var w' := Commit(w, g, st);
    assert w'.frames[h] == w.frames[h];
    if w.frames[h].BindingFrame? {
      var e := w.frames[h].entry;
      if e == st.entry {
        assert w'.entries[e].Local?;
        if FrameMaps.TryGet(w.frames[g].values, p).Some? {
          assert w.entries[e].Local?;
        }
      } else if e in w.entries {
        assert w'.entries[e] == w.entries[e];
      } else {
        assert e !in w'.entries;
      }
    }
  }

  /** ... so every other frame offers the same hit. */
  lemma AddBindingHitOther(w: World, o: ObjId, g: FrameId, p: PropId, source: SourceId, h: FrameId)
    requires Tidy(w, o) && Ready(w, o) && w.stores[o].local == Some(g) && h != g && h in w.frames
    ensures var w' := Commit(w, g, LF.AddBinding(LocalValuesOf(w, g), w.entries, w.next, p, source));
      C.HitOf(LayerOf(w', h), p) == C.HitOf(LayerOf(w, h), p)
  {
    var w' := Commit(w, g, LF.AddBinding(LocalValuesOf(w, g), w.entries, w.next, p, source));
    AddBindingEntriesKept(w, o, g, p, source);
    AddBindingStep(w, o, g, p, source);
    CommitFrameKept(w, g, p, LF.AddBinding(LocalValuesOf(w, g), w.entries, w.next, p, source), h);
    FrameHitSamePresence(w, w', h, p);
  }

  /** After the local binding step every frame offers the same hit for `p`. */
  lemma AddBindingHits(w: World, o: ObjId, g: FrameId, p: PropId, source: SourceId, h: FrameId)
    requires Tidy(w, o) && Ready(w, o) && w.stores[o].local == Some(g)
    ensures var w' := Commit(w, g, LF.AddBinding(LocalValuesOf(w, g), w.entries, w.next, p, source));
      C.HitOf(LayerOf(w', h), p) == C.HitOf(LayerOf(w, h), p)
  {
    var w' := Commit(w, g, LF.AddBinding(LocalValuesOf(w, g), w.entries, w.next, p, source));
    if h == g {
      AddBindingHitLocal(w, o, g, p, source);
      HitOfFrame(w, h, p);
      HitOfFrame(w', h, p);
    } else if h in w.frames {
      AddBindingHitOther(w, o, g, p, source, h);
    } else {
      assert h !in w'.frames;
    }
  }

  /** Adding a local-value binding changes no evaluation: the binding has
      delivered nothing yet. */
  lemma AddBindingLocalKeeps(w: World, o: ObjId, g: FrameId, p: PropId, source: SourceId)
    requires Tidy(w, o) && Ready(w, o) && w.stores[o].local == Some(g)
    ensures var w' := Commit(w, g, LF.AddBinding(LocalValuesOf(w, g), w.entries, w.next, p, source));
      Tidy(w', o) && w'.stores == w.stores && forall q :: Evaluate(w', o, q) == Evaluate(w, o, q)
  {
    var st := LF.AddBinding(LocalValuesOf(w, g), w.entries, w.next, p, source);
    var w' := Commit(w, g, st);
    AddBindingStep(w, o, g, p, source);
    CommitLocal(w, o, g, p, st);
    CommitTidy(w, o, g, p, st);
    forall h ensures C.HitOf(LayerOf(w', h), p) == C.HitOf(LayerOf(w, h), p) {
      AddBindingHits(w, o, g, p, source, h);
    }
    SameHitsKeepAll(w, w', o, p);
  }

  /** The arena with a fresh binding entry for `p` at `next` and its frame at
      `next + 1`, not yet in any frame list. */
  function BindingAllocated(w: World, p: PropId, source: SourceId, priority: int): (r: World)
    requires forall h :: h in w.frames ==> h < w.next
    requires forall e :: e in w.entries ==> e < w.next
    ensures Extends(w, r) && r.stores == w.stores && r.next == w.next + 2
    ensures r.frames.Keys == w.frames.Keys + {w.next + 1} && r.entries.Keys == w.entries.Keys + {w.next}
    ensures r.frames[w.next + 1] == BindingFrame(w.next) && r.entries[w.next] == Binding(B.Create(p, source, priority))
  {
    w.(entries := w.entries[w.next := Binding(B.Create(p, source, priority))],
       frames := w.frames[w.next + 1 := BindingFrame(w.next)], next := w.next + 2)
  }

  /** The allocation keeps the store tidy, reads as before, and its frame
      offers nothing: a binding that has not started has no value. */
  lemma BindingAllocatedTidy(w: World, o: ObjId, p: PropId, source: SourceId, priority: int)
    requires Tidy(w, o) && Ready(w, o)
    ensures var w1 := BindingAllocated(w, p, source, priority);
      && Tidy(w1, o) && Ready(w1, o) && (forall q :: Evaluate(w1, o, q) == Evaluate(w, o, q))
      && !Present(w1, w.next) && FramePriority(w1, w.next + 1) == priority
  {
    var w1 := BindingAllocated(w, p, source, priority);
    EvaluateExtends(w, w1, o);
    forall h | h in w.frames ensures FramePriority(w1, h) == FramePriority(w, h) {
      assert w1.frames[h] == w.frames[h];
    }
    PrioritiesSame(w, w1, w.stores[o].frames);
    assert forall q :: Inherits(w1, q) == Inherits(w, q);
    BindingAllocatedKeyed(w, p, source, priority);
    InheritFramesKept(w, w1);
    assert w1.stores[o].local.Some? ==> LF.Holds(w1.frames[w1.stores[o].local.value].values, w1.entries) by {
      if w.stores[o].local.Some? {
        var vs := w.frames[w.stores[o].local.value].values;
        assert LF.Holds(vs, w.entries);
      }
    }
  }

  lemma BindingAllocatedKeyed(w: World, p: PropId, source: SourceId, priority: int)
    requires Keyed(w)
    requires forall h :: h in w.frames ==> h < w.next
    requires forall e :: e in w.entries ==> e < w.next
    ensures Keyed(BindingAllocated(w, p, source, priority))
  {
    var w1 := BindingAllocated(w, p, source, priority);
    forall h, q | h in w1.frames && q in FrameMaps.ToMap(KeyedValues(w1.frames[h]))
      ensures FrameMaps.ToMap(KeyedValues(w1.frames[h]))[q] in w1.entries
        && PropOf(w1.entries[FrameMaps.ToMap(KeyedValues(w1.frames[h]))[q]]) == q
    {
      assert h != w.next + 1;
      assert w1.frames[h] == w.frames[h];
      var e := FrameMaps.ToMap(KeyedValues(w.frames[h]))[q];
      assert e in w.entries && PropOf(w.entries[e]) == q;
    }
  }

  /** `AddBinding` leaves every cached entry equal to the property's
      evaluation, and the store tidy, for a binding at any tier from
      `Animation` to `Inherited`. */
  lemma AddBindingConsistent(w: World, o: ObjId, p: PropId, source: SourceId, priority: int)
    requires Tidy(w, o) && Ready(w, o) && Consistent(w, o)
    requires Animation <= priority <= Inherited
    ensures var r := AddBinding(w, o, p, source, priority);
      Consistent(r.0, o) && Tidy(r.0, o)
  {
    if priority == LocalValue {
      AddLocalBindingConsistent(w, o, p, source);
    } else {
      AddFrameBindingConsistent(w, o, p, source, priority);
    }
  }

  /** A local-value binding goes into the local frame and changes nothing
      evaluation sees yet. */
  lemma AddLocalBindingConsistent(w: World, o: ObjId, p: PropId, source: SourceId)
    requires Tidy(w, o) && Ready(w, o) && Consistent(w, o)
    ensures var w' := AddBinding(w, o, p, source, LocalValue).0;
      Consistent(w', o) && Tidy(w', o)
  {
    var (w1, g) := EnsureLocalFrame(w, o);
    EnsureLocalFrameKeeps(w, o);
    ConsistentKept(w, w1, o);
    var st := LF.AddBinding(LocalValuesOf(w1, g), w1.entries, w1.next, p, source);
    AddBindingLocalKeeps(w1, o, g, p, source);
    ConsistentKept(w1, Commit(w1, g, st), o);
  }

  /** Any other binding gets a frame of its own, which offers nothing until
      the binding delivers; the property is then re-evaluated. */
  lemma AddFrameBindingConsistent(w: World, o: ObjId, p: PropId, source: SourceId, priority: int)
    requires Tidy(w, o) && Ready(w, o) && Consistent(w, o)
    requires Animation <= priority <= Inherited
    requires priority != LocalValue
    ensures var w' := AddBinding(w, o, p, source, priority).0;
      Consistent(w', o) && Tidy(w', o)
  {
    var f := w.next + 1;
    var w1 := BindingAllocated(w, p, source, priority);
    BindingAllocatedTidy(w, o, p, source, priority);
    ConsistentKept(w, w1, o);
    var w2 := AddFrame(w1, o, f);
    forall q ensures C.HitOf(LayerOf(w1, f), q).None? { HitOfFrame(w1, f, q); }
    AddFrameKeeps(w1, o, f);
    ConsistentKept(w1, w2, o);
    var c := FrameMaps.TryGet(w2.stores[o].cache, p);
    ReevaluateRestores(w2, o, p, if c.Some? then Some(ReadTypedId(w2, c.value)) else None);
    ReevaluateTidy(w2, o, p, if c.Some? then Some(ReadTypedId(w2, c.value)) else None);
  }

  /** The world `AddBinding` re-evaluates in when the binding gets a frame
      of its own: entry and frame allocated, the frame inserted. */
  function BindingAdded(w: World, o: ObjId, p: PropId, source: SourceId, priority: int): (r: World)
    requires Ready(w, o)
    ensures Extends(w, r) && r.stores.Keys == w.stores.Keys
    ensures w.next + 1 in r.frames && r.frames[w.next + 1] == BindingFrame(w.next) && w.next in r.entries
    ensures r.entries[w.next] == Binding(B.SetOwner(B.Create(p, source, priority), true))
  {
    var w1 := BindingAllocated(w, p, source, priority);
    assert w.next !in w.frames && w.next + 1 !in w.frames;
    AddFrame(w1, o, w.next + 1)
  }

  /** Some active frame of the store at a tier strictly stronger than
      `priority` has a value for `p`. */
  ghost predicate Shadowed(w: World, o: ObjId, p: PropId, priority: int)
    requires o in w.stores
  {
    exists j :: 0 <= j < |w.stores[o].frames| && FramePriority(w, w.stores[o].frames[j]) < priority
      && FrameActive(w, w.stores[o].frames[j]) && FrameHit(w, w.stores[o].frames[j], p).Some?
  }

  /** A frame that was there before the allocation never holds the new
      entry. */
  lemma OldFrameMissesNew(w: World, w2: World, h: FrameId, p: PropId)
    requires Keyed(w) && (forall e :: e in w.entries ==> e < w.next)
    requires h in w.frames && h in w2.frames && w2.frames[h] == w.frames[h]
    ensures FrameEntry(w2, h, p) != Some(w.next)
  {
    if !w.frames[h].BindingFrame? {
      var e := FrameMaps.TryGet(KeyedValues(w.frames[h]), p);
      if e.Some? { assert FrameMaps.ToMap(KeyedValues(w.frames[h]))[p] in w.entries; }
    }
  }

  /** Allocating the binding and inserting its frame keeps the store tidy. */
  lemma BindingAddedTidy(w: World, o: ObjId, p: PropId, source: SourceId, priority: int)
    requires Tidy(w, o) && Ready(w, o) && Animation <= priority <= Inherited
    ensures Tidy(BindingAdded(w, o, p, source, priority), o)
  {
    var w1 := BindingAllocated(w, p, source, priority);
    BindingAllocatedTidy(w, o, p, source, priority);
    assert BindingAdded(w, o, p, source, priority) == AddFrame(w1, o, w.next + 1);
    AddFrameTidy(w1, o, w.next + 1);
  }

  /** Adding the binding's frame puts it above every frame of its tier and
      below the strictly stronger ones, which read as before. */
  lemma BindingAddedFrames(w: World, o: ObjId, p: PropId, source: SourceId, priority: int) returns (k: nat)
    requires Tidy(w, o) && Ready(w, o) && Animation <= priority <= Inherited
    ensures var w2 := BindingAdded(w, o, p, source, priority);
      var fs := w.stores[o].frames;
      && k <= |fs| && Tidy(w2, o) && w2.stores[o].frames == FrameOrder.InsertAt(fs, k, w.next + 1)
      && (forall i :: 0 <= i < |fs| ==> (k <= i <==> FramePriority(w, fs[i]) < priority))
      && (forall i :: 0 <= i < |fs| ==> fs[i] in w.frames && w2.frames[fs[i]] == w.frames[fs[i]])
  {
    k := BindingAddedIndex(w, o, p, source, priority);
    BindingAddedTidy(w, o, p, source, priority);
    var w2 := BindingAdded(w, o, p, source, priority);
    var fs := w.stores[o].frames;
    forall i | 0 <= i < |fs| ensures fs[i] in w.frames && w2.frames[fs[i]] == w.frames[fs[i]] {
      assert fs[i] in fs;
    }
  }

  /** The binding's frame goes in at the index that splits the tiers. */
  lemma BindingAddedIndex(w: World, o: ObjId, p: PropId, source: SourceId, priority: int) returns (k: nat)
    requires Tidy(w, o) && Ready(w, o) && Animation <= priority <= Inherited
    ensures var w2 := BindingAdded(w, o, p, source, priority);
      var fs := w.stores[o].frames;
      && k <= |fs| && w2.stores[o].frames == FrameOrder.InsertAt(fs, k, w.next + 1)
      && (forall i :: 0 <= i < |fs| ==> (k <= i <==> FramePriority(w, fs[i]) < priority))
  {
    k := FrameOrder.InsertionIndex(Priorities(w, w.stores[o].frames), priority);
    BindingAddedInsert(w, o, p, source, priority);
    TierSplit(Priorities(w, w.stores[o].frames), priority);
  }

  /** The binding's frame goes in where the search over the old priorities
      puts it. */
  lemma BindingAddedInsert(w: World, o: ObjId, p: PropId, source: SourceId, priority: int)
    requires Ready(w, o) && Keyed(w) && forall h :: h in w.stores[o].frames ==> h in w.frames
    ensures var fs := w.stores[o].frames;
      BindingAdded(w, o, p, source, priority).stores[o].frames
        == FrameOrder.InsertAt(fs, FrameOrder.InsertionIndex(Priorities(w, fs), priority), w.next + 1)
  {
    var w1 := BindingAllocated(w, p, source, priority);
    var fs := w.stores[o].frames;
    var f := w.next + 1;
    assert Priorities(w1, fs) == Priorities(w, fs) by {
      forall h | h in fs ensures FramePriority(w1, h) == FramePriority(w, h) {
        AllocatedPriority(w, p, source, priority, h);
      }
      PrioritiesSame(w, w1, fs);
    }
    assert FramePriority(w1, f) == priority;
    assert BindingAdded(w, o, p, source, priority).stores[o].frames
      == FrameOrder.InsertAt(fs, FrameOrder.InsertionIndex(Priorities(w1, fs), FramePriority(w1, f)), f) by {
      assert w1.stores[o].frames == fs;
      assert BindingAdded(w, o, p, source, priority) == AddFrame(w1, o, f);
    }
  }

  /** The allocation leaves the priority of every existing frame alone. */
  lemma AllocatedPriority(w: World, p: PropId, source: SourceId, priority: int, h: FrameId)
    requires Keyed(w) && (forall f :: f in w.frames ==> f < w.next) && (forall e :: e in w.entries ==> e < w.next)
    requires h in w.frames
    ensures FramePriority(BindingAllocated(w, p, source, priority), h) == FramePriority(w, h)
  {
    var w1 := BindingAllocated(w, p, source, priority);
    assert w1.frames[h] == w.frames[h];
    if w.frames[h].BindingFrame? {
      assert w.frames[h].entry in w.entries;
      assert w1.entries[w.frames[h].entry] == w.entries[w.frames[h].entry];
    }
  }

  /** On banded, sorted priorities the insertion index splits off exactly
      the strictly stronger ones. */
  lemma TierSplit(ps: seq<int>, x: int)
    requires FrameOrder.Sorted(ps) && Banded(ps) && Animation <= x <= Inherited
    ensures forall i :: 0 <= i < |ps| ==> (FrameOrder.InsertionIndex(ps, x) <= i <==> ps[i] < x)
  {
    BandedInsert(ps, FrameOrder.InsertionIndex(ps, x), x);
    FrameOrder.InsertionSplitsTiers(ps, x);
  }

  /** Only the new frame holds the new entry, in the frame list and on the
      inheritance chain. */
  lemma NewEntryOnlyInOwnFrame(w: World, o: ObjId, p: PropId, source: SourceId, priority: int, k: nat)
    requires Tidy(w, o) && Ready(w, o) && k <= |w.stores[o].frames|
    requires var w2 := BindingAdded(w, o, p, source, priority);
      && w2.stores[o].frames == FrameOrder.InsertAt(w.stores[o].frames, k, w.next + 1)
      && (forall i :: 0 <= i < |w.stores[o].frames| ==>
            w.stores[o].frames[i] in w.frames && w2.frames[w.stores[o].frames[i]] == w.frames[w.stores[o].frames[i]])
    ensures var w2 := BindingAdded(w, o, p, source, priority);
      && (forall j :: 0 <= j < |w2.stores[o].frames| && j != k ==> FrameEntry(w2, w2.stores[o].frames[j], p) != Some(w.next))
      && (forall j :: 0 <= j < |ChainIds(w2, o)| ==> FrameEntry(w2, ChainIds(w2, o)[j], p) != Some(w.next))
  {
    var w2 := BindingAdded(w, o, p, source, priority);
    var fs := w.stores[o].frames;
    var fs2 := w2.stores[o].frames;
    forall j | 0 <= j < |fs2| && j != k ensures FrameEntry(w2, fs2[j], p) != Some(w.next) {
      var i := if j < k then j else j - 1;
      assert fs2[j] == fs[i];
      OldFrameMissesNew(w, w2, fs[i], p);
    }
    var ids := ChainIds(w2, o);
    forall j | 0 <= j < |ids| ensures FrameEntry(w2, ids[j], p) != Some(w.next) {
      assert ids[j] != w.next + 1;
      OldFrameMissesNew(w, w2, ids[j], p);
    }
  }

  /** Frames of `w` supply `p` in an extension of `w` exactly as before. */
  lemma SuppliersExtend(w: World, w2: World, fs: seq<FrameId>, p: PropId)
    requires Keyed(w) && Extends(w, w2) && forall i :: 0 <= i < |fs| ==> fs[i] in w.frames
    ensures forall i :: 0 <= i < |fs| ==>
      (FrameActive(w2, fs[i]) && FrameHit(w2, fs[i], p).Some?) == (FrameActive(w, fs[i]) && FrameHit(w, fs[i], p).Some?)
  {
    forall i | 0 <= i < |fs|
      ensures (FrameActive(w2, fs[i]) && FrameHit(w2, fs[i], p).Some?) == (FrameActive(w, fs[i]) && FrameHit(w, fs[i], p).Some?)
    {
      LayerOfExtends(w, w2, fs[i]);
      HitOfFrame(w, fs[i], p);
      HitOfFrame(w2, fs[i], p);
    }
  }

  /** The scan gets down to the new frame exactly when no strictly stronger
      frame has a value for `p`. */
  lemma ReachesUnshadowed(w: World, o: ObjId, p: PropId, source: SourceId, priority: int, k: nat)
    requires Tidy(w, o) && Ready(w, o) && k <= |w.stores[o].frames|
    requires var w2 := BindingAdded(w, o, p, source, priority);
      var fs := w.stores[o].frames;
      && w2.stores[o].frames == FrameOrder.InsertAt(fs, k, w.next + 1)
      && (forall i :: 0 <= i < |fs| ==> (k <= i <==> FramePriority(w, fs[i]) < priority))
      && (forall i :: 0 <= i < |fs| ==> fs[i] in w.frames)
    ensures var w2 := BindingAdded(w, o, p, source, priority);
      S.Reaches(w2, w2.stores[o].frames, k, p) <==> !Shadowed(w, o, p, priority)
  {
    var w2 := BindingAdded(w, o, p, source, priority);
    var fs := w.stores[o].frames;
    SuppliersExtend(w, w2, fs, p);
    ReachesPastInsert(w, w2, fs, k, w.next + 1, p, priority);
  }

  /** With a frame inserted at `k` below every strictly stronger one, and
      the old frames supplying as before, the scan gets down to `k` exactly
      when no strictly stronger old frame supplies `p`. */
  lemma ReachesPastInsert(w: World, w2: World, fs: seq<FrameId>, k: nat, f: FrameId, p: PropId, priority: int)
    requires k <= |fs|
    requires forall i :: 0 <= i < |fs| ==> (k <= i <==> FramePriority(w, fs[i]) < priority)
    requires forall i :: 0 <= i < |fs| ==>
      (FrameActive(w2, fs[i]) && FrameHit(w2, fs[i], p).Some?) == (FrameActive(w, fs[i]) && FrameHit(w, fs[i], p).Some?)
    ensures S.Reaches(w2, FrameOrder.InsertAt(fs, k, f), k, p) <==>
      !exists j :: 0 <= j < |fs| && FramePriority(w, fs[j]) < priority
        && FrameActive(w, fs[j]) && FrameHit(w, fs[j], p).Some?
  {
    var fs2 := FrameOrder.InsertAt(fs, k, f);
    if S.Reaches(w2, fs2, k, p) {
      forall i | 0 <= i < |fs| && FramePriority(w, fs[i]) < priority
        ensures !(FrameActive(w, fs[i]) && FrameHit(w, fs[i], p).Some?)
      {
        assert fs2[i + 1] == fs[i];
      }
    } else {
      var j :| 0 <= j < |fs2| && k < j && FrameActive(w2, fs2[j]) && FrameHit(w2, fs2[j], p).Some?;
      assert fs2[j] == fs[j - 1];
    }
  }

  /** The new frame is active and holds the new entry under `p`. */
  lemma NewFrameHoldsNew(w: World, o: ObjId, p: PropId, source: SourceId, priority: int)
    requires Ready(w, o)
    ensures var w2 := BindingAdded(w, o, p, source, priority);
      FrameActive(w2, w.next + 1) && FrameEntry(w2, w.next + 1, p) == Some(w.next)
  {
  }

  /** The re-evaluation after adding a binding reads the new entry's value
      exactly when no stronger frame already has a value for the property. */
  lemma AddedBindingRead(w: World, o: ObjId, p: PropId, source: SourceId, priority: int)
    requires Tidy(w, o) && Ready(w, o) && Animation <= priority <= Inherited
    ensures S.ReadsValue(w.next) in S.EvaluateReads(BindingAdded(w, o, p, source, priority), o, p)
      <==> !Shadowed(w, o, p, priority)
  {
    var w2 := BindingAdded(w, o, p, source, priority);
    var k := BindingAddedFrames(w, o, p, source, priority);
    NewEntryOnlyInOwnFrame(w, o, p, source, priority, k);
    ReachesUnshadowed(w, o, p, source, priority, k);
    NewFrameHoldsNew(w, o, p, source, priority);
    assert w2.stores[o].frames[k] == w.next + 1;
    S.EvaluateReadsAt(w2, o, p, k, w.next);
  }

  /** `AddBinding` for a binding with a frame of its own: the reads of the
      re-evaluation, the calls they make passed on first, then the
      notifications. */
  lemma AddBindingSteps(w: World, o: ObjId, p: PropId, source: SourceId, priority: int)
    returns (ts: seq<S.Touch>, fx: seq<Effect>, out: seq<Output>)
    requires Ready(w, o) && priority != LocalValue
    ensures var w2 := BindingAdded(w, o, p, source, priority);
      var r := AddBinding(w, o, p, source, priority);
      && ts == S.EvaluateReads(w2, o, p) && fx == S.Perform(w2, ts).1
      && r.1 == Externals(o, fx) + out && r.0.entries == S.Perform(w2, ts).0.entries && r.2 == w.next
      && (forall x :: x in out ==> !x.External?)
  {
    var w2 := BindingAdded(w, o, p, source, priority);
    ts := S.EvaluateReads(w2, o, p);
    var w3;
    w3, fx := S.Perform(w2, ts).0, S.Perform(w2, ts).1;
    var c := FrameMaps.TryGet(w2.stores[o].cache, p);
    var st := Settle(w3, o, p, if c.Some? then Some(ReadTypedId(w2, c.value)) else None);
    out := st.1;
    assert AddBinding(w, o, p, source, priority) == (st.0, Externals(o, fx) + out, w.next);
  }

  /** A binding that gets a frame of its own is subscribed by the
      re-evaluation `AddBinding` runs exactly when no stronger frame already
      has a value for the property. */
  lemma AddBindingSubscribes(w: World, o: ObjId, p: PropId, source: SourceId, priority: int)
    requires Tidy(w, o) && Ready(w, o)
    requires Animation <= priority <= Inherited && priority != LocalValue
    ensures var r := AddBinding(w, o, p, source, priority);
      && r.2 == w.next && r.0.entries[r.2].Binding?
      && (r.0.entries[r.2].binding.subscription.Live? <==> !Shadowed(w, o, p, priority))
      && (r.0.entries[r.2].binding.subscription.NotSubscribed? <==> Shadowed(w, o, p, priority))
  {
    var w2 := BindingAdded(w, o, p, source, priority);
    var ts, fx, out := AddBindingSteps(w, o, p, source, priority);
    AddedBindingRead(w, o, p, source, priority);
    S.PerformEntry(w2, ts, w.next);
  }

  /** The new binding is the only one waiting to subscribe to `source`
      when no other was before. */
  lemma PendingAfterAdd(w: World, o: ObjId, p: PropId, source: SourceId, priority: int)
    requires Ready(w, o) && forall x :: !S.Pending(w, x, source)
    ensures forall x :: S.Pending(BindingAdded(w, o, p, source, priority), x, source) <==> x == w.next
  {
    var w2 := BindingAdded(w, o, p, source, priority);
    forall x ensures S.Pending(w2, x, source) <==> x == w.next {
      if x in w.entries {
        assert w2.entries[x] == w.entries[x] && !S.Pending(w, x, source);
      }
    }
  }

  /** When no other binding to `source` was waiting to subscribe, the source
      is told to subscribe once if the new binding is reached, and not at all
      otherwise. */
  lemma AddBindingSubscribesOnce(w: World, o: ObjId, p: PropId, source: SourceId, priority: int)
    requires Tidy(w, o) && Ready(w, o)
    requires Animation <= priority <= Inherited && priority != LocalValue
    requires forall x :: !S.Pending(w, x, source)
    ensures multiset(AddBinding(w, o, p, source, priority).1)[External(o, Subscribe(source))]
      == if Shadowed(w, o, p, priority) then 0 else 1
  {
    AddedBindingSubscribes(w, o, p, source, priority);
    var ts, fx, out := AddBindingSteps(w, o, p, source, priority);
    var x := External(o, Subscribe(source));
    assert multiset(AddBinding(w, o, p, source, priority).1)[x] == multiset(fx)[Subscribe(source)] by {
      ExternalsCount(o, fx, Subscribe(source));
      assert x !in out;
      assert multiset(Externals(o, fx) + out)[x] == multiset(Externals(o, fx))[x] + multiset(out)[x];
    }
  }

  /** The reads of the re-evaluation after adding the binding call
      `Subscribe` on its source once if they reach the new entry, and never
      otherwise. */
  lemma AddedBindingSubscribes(w: World, o: ObjId, p: PropId, source: SourceId, priority: int)
    requires Tidy(w, o) && Ready(w, o) && Animation <= priority <= Inherited
    requires forall x :: !S.Pending(w, x, source)
    ensures var w2 := BindingAdded(w, o, p, source, priority);
      multiset(S.Perform(w2, S.EvaluateReads(w2, o, p)).1)[Subscribe(source)]
        == if Shadowed(w, o, p, priority) then 0 else 1
  {
    var w2 := BindingAdded(w, o, p, source, priority);
    var ts := S.EvaluateReads(w2, o, p);
    AddedBindingRead(w, o, p, source, priority);
    PendingAfterAdd(w, o, p, source, priority);
    S.WaitingOnly(w2, ts, source, w.next);
    S.PerformSubscribes(w2, ts, source);
  }

  /** The new binding has no value yet, so nothing reads differently once
      its frame is in. */
  lemma BindingAddedKeeps(w: World, o: ObjId, p: PropId, source: SourceId, priority: int)
    requires Tidy(w, o) && Ready(w, o) && Animation <= priority <= Inherited
    ensures var w2 := BindingAdded(w, o, p, source, priority);
      && Tidy(w2, o) && w2.stores[o].cache == w.stores[o].cache
      && forall q :: Evaluate(w2, o, q) == Evaluate(w, o, q)
  {
    var f := w.next + 1;
    var w1 := BindingAllocated(w, p, source, priority);
    BindingAllocatedTidy(w, o, p, source, priority);
    forall q ensures C.HitOf(LayerOf(w1, f), q).None? { HitOfFrame(w1, f, q); }
    AddFrameKeeps(w1, o, f);
  }

  /** As written, adding a binding for a property a style's setter supplies
      throws: the new binding has no value yet, so the setter still wins,
      and the typed re-evaluation casts it to `IValue<T>`. */
  lemma AddBindingCastFails(w: World, o: ObjId, p: PropId, source: SourceId, priority: int, oldValue: Optional)
    requires Tidy(w, o) && Ready(w, o) && Animation <= priority <= Inherited
    requires Evaluate(w, o, p).Some? && !TypedEntry(w, Evaluate(w, o, p).value.entry)
    ensures ReevaluateAsWritten(BindingAdded(w, o, p, source, priority), o, p, oldValue) == Fail(InvalidCast)
  {
    var w2 := BindingAdded(w, o, p, source, priority);
    BindingAddedKeeps(w, o, p, source, priority);
    WinnerKeyed(w, o, p);
    assert w2.entries[Evaluate(w, o, p).value.entry] == w.entries[Evaluate(w, o, p).value.entry];
  }

  /** One object whose unconditional style sets property 0 to 2. */
  function StyledWorld(): (w: World)
    ensures w.stores.Keys == {0} && w.stores[0].frames == [1] && w.entries.Keys == {10}
  {
    World(map[], Properties.TypeHierarchy(map[], map[]), map[],
          map[0 := Store(0, [1], None, None, [FrameMaps.Slot(0, 10)], 0)],
          map[1 := StyleFrame(SI.StyleInstance(None, false, true, Style, Some(0), [FrameMaps.Slot(0, 10)]))],
          map[10 := Constant(0, Val(2))], 11)
  }

  /** Adding a `Style`-tier binding for property 0 to that object: as
      written the re-evaluation throws, while the corrected store stays
      consistent and the setter's 2 stays in force. */
  lemma StyleSetterCastCounterexample()
    ensures var w := StyledWorld();
      && Tidy(w, 0) && Ready(w, 0) && Consistent(w, 0)
      && Evaluate(w, 0, 0) == Some(C.Winner(10, Style)) && !TypedEntry(w, 10)
      && ReevaluateAsWritten(BindingAdded(w, 0, 0, 7, Style), 0, 0, Some(Val(2))) == Fail(InvalidCast)
      && Consistent(AddBinding(w, 0, 0, 7, Style).0, 0)
  {
    var w := StyledWorld();
    StyledWorldConsistent();
    AddBindingCastFails(w, 0, 0, 7, Style, Some(Val(2)));
    AddFrameBindingConsistent(w, 0, 0, 7, Style);
  }

  /** The styled object is well formed, its cache agrees with evaluation,
      and the constant setter wins property 0. */
  lemma StyledWorldConsistent()
    ensures var w := StyledWorld();
      && Tidy(w, 0) && Ready(w, 0) && Consistent(w, 0)
      && Evaluate(w, 0, 0) == Some(C.Winner(10, Style)) && !TypedEntry(w, 10)
  {
    StyledWorldTidy();
    var w := StyledWorld();
    StyledWorldEvaluate(0);
    forall q ensures CacheAgrees(w, 0, q) {
      StyledWorldEvaluate(q);
      assert FrameMaps.TryGet(w.stores[0].cache, q) == if q == 0 then Some(10) else None;
    }
  }

  /** The setter's entry wins property 0, and nothing else has a value. */
  lemma StyledWorldEvaluate(q: PropId)
    ensures var w := StyledWorld();
      Evaluate(w, 0, q) == if q == 0 then Some(C.Winner(10, Style)) else None
  {
    var w := StyledWorld();
    var ls := StoreLayers(w, 0);
    assert ls == [LayerOf(w, 1)];
    assert C.ScanLayers(ls, q) == C.HitOf(LayerOf(w, 1), q) by {
      assert ls[..0] == [];
    }
    HitOfFrame(w, 1, q);
    assert FrameActive(w, 1) && FramePriority(w, 1) == Style;
    assert FrameMaps.ToMap(w.frames[1].instance.values) == map[0 := 10];
    assert FrameHit(w, 1, q) == if q == 0 then Some(10) else None;
    assert !Inherits(w, q);
  }

  lemma StyledWorldTidy()
    ensures var w := StyledWorld(); Tidy(w, 0) && Ready(w, 0)
  {
    var w := StyledWorld();
    assert Priorities(w, [1]) == [Style];
    assert FrameMaps.ToMap(w.frames[1].instance.values) == map[0 := 10];
  }

  /** After the targeted pass the entry cached for `p` has been started, so
      the `GetValue` read that follows starts nothing. */
  lemma ReevaluateStartsWinner(w: World, o: ObjId, p: PropId, oldValue: Optional)
    requires Tidy(w, o)
    ensures var w' := ValueStores.Reevaluate(w, o, p, oldValue).0;
      var c := FrameMaps.TryGet(w'.stores[o].cache, p);
      c.Some? ==> c.value in w'.entries && S.Started(w'.entries[c.value])
  {
    var ts := S.EvaluateReads(w, o, p);
    var w1 := S.Perform(w, ts).0;
    ReevaluateAgrees(w, o, p, oldValue);
    assert ValueStores.Reevaluate(w, o, p, oldValue).0.entries == w1.entries;
    if Evaluate(w, o, p).Some? {
      var x := Evaluate(w, o, p).value.entry;
      S.EvaluateReadsWinner(w, o, p);
      WinnerKeyed(w, o, p);
      S.PerformEntry(w, ts, x);
    }
  }

  // ---------------------------------------------------------------------------
  // The batch pass's notices

  /** The value property `q` shows in a change notice: the cached entry's
      object, with the default standing in when nothing is cached or the
      entry is unset. */
  function Reported(w: World, o: ObjId, q: PropId): (r: Boxed)
    requires o in w.stores
    ensures r != UnsetValue
    ensures FrameMaps.TryGet(w.stores[o].cache, q).None? ==> r == Boxed(DefaultOf(w, o, q))
  {
    var c := FrameMaps.TryGet(w.stores[o].cache, q);
    C.Substitute(if c.Some? then Read(w, c.value) else UnsetValue, DefaultOf(w, o, q))
  }

  /** On an agreeing store the value a notice shows is the value `GetValue`
      returns. */
  lemma ReportedIsGetValue(w: World, o: ObjId, q: PropId)
    requires Tidy(w, o) && Consistent(w, o)
    ensures Reported(w, o, q) == Boxed(GetValue(w, o, q))
  {
    assert CacheAgrees(w, o, q);
    if Evaluate(w, o, q).Some? {
      WinnerPresent(w, o, q);
    }
  }

  /** The entry evaluation picks has a value. */
  lemma WinnerPresent(w: World, o: ObjId, p: PropId)
    requires o in w.stores && Evaluate(w, o, p).Some?
    ensures Present(w, Evaluate(w, o, p).value.entry)
  {
    var ls := StoreLayers(w, o);
    var fs := w.stores[o].frames;
    var r := Evaluate(w, o, p);
    if C.ScanLayers(ls, p).Some? {
      C.ScanLayersSpec(ls, p);
      var i :| 0 <= i < |ls| && ls[i].active && C.FirstPresent(ls[i].candidates, p).Some?
        && C.ScanLayers(ls, p) == Some(C.Winner(C.FirstPresent(ls[i].candidates, p).value, ls[i].priority));
      assert ls[i] == LayerOf(w, fs[i]);
      FirstPresentOfFrame(w, fs[i], p);
    } else {
      var chain := StoreChain(w, o);
      var ids := ChainIds(w, o);
      assert r == C.ScanChain(chain, p);
      C.ScanChainWitness(chain, p);
      var k :| 0 <= k < |chain| && C.FirstPresent(chain[k], p) == Some(r.value.entry);
      assert chain[k] == Candidates(w, ids[k]);
      FirstPresentOfFrame(w, ids[k], p);
    }
  }

  /** A change notice for `q` among a step's outputs. */
  predicate Notifies(out: seq<Output>, q: PropId) {
    exists i :: 0 <= i < |out| && out[i].Changed? && out[i].notice.prop == q
  }

  /** The batch pass notifies a registered property exactly when the value
      it shows changed, and then with the old and the new value and the
      priority the new one wins at (`Unset` when it fell back to the
      default). Unregistered properties are never notified. */
  lemma ReevaluateAllReports(w: World, o: ObjId, q: PropId)
    requires o in w.stores && InheritFramesInherit(w)
    ensures var r := ReevaluateAll(w, o);
      Notifies(r.1, q) <==> q in w.props && Reported(w, o, q) != Reported(r.0, o, q)
    ensures var r := ReevaluateAll(w, o);
      forall i :: 0 <= i < |r.1| && r.1[i].Changed? && r.1[i].notice.prop == q ==>
        r.1[i] == Changed(o, C.Notice(q, Reported(w, o, q), Reported(r.0, o, q), C.PriorityOf(Evaluate(w, o, q))))
  {
    var ts := S.BatchReads(w, o);
    var (w1, fx) := S.Perform(w, ts);
    S.PerformKeepsEvaluation(w, ts, o);
    ReportedAfterStarts(w, w1, o, q);
    var acc := Rebuilt(w1, o);
    var read := (e: EntryId) => Read(w1, e);
    var dflt := (x: PropId) => DefaultOf(w1, o, x);
    var ns := C.BatchNotices(w1.stores[o].cache, acc, read, dflt, w1.props.Keys);
    var r := ReevaluateAll(w, o);
    assert r == (SetCache(w1, o, C.ToCache(acc)), Externals(o, fx) + Announce(o, ns));
    ChainInherits(w, o);
    C.RebuildAgreesWithEvaluate(StoreLayers(w1, o), StoreChain(w1, o), InheritingSet(w), q);
    C.RebuildDistinct(StoreLayers(w1, o), StoreChain(w1, o));
    BatchNoticesReport(w1.stores[o].cache, acc, read, dflt, w1.props.Keys, q);
    ReportedAfterRebuild(w1, o, acc, q);
    var n := C.Notice(q, Reported(w, o, q), Reported(r.0, o, q), C.PriorityOf(Evaluate(w, o, q)));
    NoticesAnnounced(o, fx, ns, q, n);
  }

  /** Starting entries leaves what a notice shows unchanged. */
  lemma ReportedAfterStarts(w: World, w1: World, o: ObjId, q: PropId)
    requires o in w.stores && S.StartsOnly(w, w1) && w1.stores == w.stores
    ensures Reported(w1, o, q) == Reported(w, o, q)
  {
    S.StartsInvisible(w, w1);
  }

  /** The change outputs of a step that passes on calls `fx` and then
      announces notices `ns` are those notices, in order. */
  lemma NoticesAnnounced(o: ObjId, fx: seq<Effect>, ns: seq<C.Notice>, q: PropId, n: C.Notice)
    requires forall j :: 0 <= j < |ns| && ns[j].prop == q ==> ns[j] == n
    ensures Notifies(Externals(o, fx) + Announce(o, ns), q) <==> C.Mentions(ns, q)
    ensures var out := Externals(o, fx) + Announce(o, ns);
      forall i :: 0 <= i < |out| && out[i].Changed? && out[i].notice.prop == q ==> out[i] == Changed(o, n)
  {
    var out := Externals(o, fx) + Announce(o, ns);
    var ann := Announce(o, ns);
    forall i | 0 <= i < |out| && out[i].Changed?
      ensures i >= |fx| && out[i] == Changed(o, ns[i - |fx|])
    {
      if i >= |fx| { assert out[i] == ann[i - |fx|]; }
    }
    if C.Mentions(ns, q) {
      var j :| 0 <= j < |ns| && ns[j].prop == q;
      assert out[j + |fx|] == ann[j];
    }
  }

  /** After the batch pass stores dictionary `acc` as the cache, a notice
      shows what `acc` maps `q` to. */
  lemma ReportedAfterRebuild(w: World, o: ObjId, acc: seq<C.Assoc>, q: PropId)
    requires o in w.stores
    ensures var l := C.Lookup(acc, q);
      Reported(SetCache(w, o, C.ToCache(acc)), o, q) ==
        C.Substitute(if l.Some? then Read(w, l.value.entry) else UnsetValue, DefaultOf(w, o, q))
  {
    var w' := SetCache(w, o, C.ToCache(acc));
    assert w' == w.(stores := w.stores[o := w.stores[o].(cache := C.ToCache(acc))]);
    assert DefaultOf(w', o, q) == DefaultOf(w, o, q);
    var c := FrameMaps.TryGet(C.ToCache(acc), q);
    assert c.Some? <==> C.Lookup(acc, q).Some?;
    assert c.Some? ==> c.value == C.Lookup(acc, q).value.entry;
  }

  /** The notices of the batch pass, in terms of the old cache and the new
      dictionary. */
  lemma BatchNoticesReport(before: FrameMaps.FrameMap<EntryId>, acc: seq<C.Assoc>, read: EntryId -> Boxed,
                           dflt: PropId -> Value, registered: set<PropId>, q: PropId)
    requires C.DistinctKeys(acc)
    ensures var ns := C.BatchNotices(before, acc, read, dflt, registered);
      var c := FrameMaps.TryGet(before, q);
      var l := C.Lookup(acc, q);
      var was := C.Substitute(if c.Some? then read(c.value) else UnsetValue, dflt(q));
      var now := C.Substitute(if l.Some? then read(l.value.entry) else UnsetValue, dflt(q));
      && (C.Mentions(ns, q) <==> q in registered && was != now)
      && forall i :: 0 <= i < |ns| && ns[i].prop == q ==>
           ns[i] == C.Notice(q, was, now, C.PriorityOf(l))
  {
    var m := FrameMaps.ToMap(before);
    var xs := C.NewNotices(acc, m, read, dflt, registered);
    var ys := C.StaleNotices(before, acc, read, dflt, registered);
    C.NewNoticesSpec(acc, m, read, dflt, registered, q);
    C.StaleNoticesSpec(before, acc, read, dflt, registered, q);
    C.MentionsAppend(xs, ys, q);
    var ns := xs + ys;
    if C.Lookup(acc, q).Some? {
      assert !C.Mentions(ys, q);
    } else {
      assert !C.Mentions(xs, q);
    }
    var c := FrameMaps.TryGet(before, q);
    var l := C.Lookup(acc, q);
    var was := C.Substitute(if c.Some? then read(c.value) else UnsetValue, dflt(q));
    var now := C.Substitute(if l.Some? then read(l.value.entry) else UnsetValue, dflt(q));
    forall i | 0 <= i < |ns| && ns[i].prop == q ensures ns[i] == C.Notice(q, was, now, C.PriorityOf(l)) {
      if i < |xs| { assert xs[i].prop == q; } else { assert ys[i - |xs|].prop == q; }
    }
  }

  // ---------------------------------------------------------------------------
  // Styling brackets

  /** `ApplyStyle` outside a styling bracket leaves the cache agreeing with
      evaluation; inside one it only inserts the frame and raises nothing. */
  lemma ApplyStyleConsistent(w: World, o: ObjId, f: FrameId)
    requires o in w.stores && InheritFramesInherit(w)
    ensures var r := ApplyStyle(w, o, f);
      && r.0.stores[o].frames == AddFrame(w, o, f).stores[o].frames
      && InheritFramesInherit(r.0)
      && (w.stores[o].styling == 0 ==> Consistent(r.0, o))
      && (w.stores[o].styling != 0 ==> r.1 == [] && r.0.stores[o].cache == w.stores[o].cache)
  {
    var w1 := AddFrame(w, o, f);
    AddFrameInheritFrames(w, o, f);
    InheritFramesKept(w, w1);
    if w.stores[o].styling == 0 {
      ReevaluateAllConsistent(w1, o);
      assert ApplyStyle(w, o, f) == ReevaluateAll(w1, o);
    }
  }

  /** `BeginStyling` only opens a bracket: evaluation and the cache are as
      before. */
  lemma BeginStylingKeeps(w: World, o: ObjId)
    requires o in w.stores && Consistent(w, o)
    ensures var w' := BeginStyling(w, o);
      && w'.stores[o].styling == w.stores[o].styling + 1
      && (forall q :: Evaluate(w', o, q) == Evaluate(w, o, q))
      && Consistent(w', o)
  {
    SameReads(w, BeginStyling(w, o), o);
    ConsistentKept(w, BeginStyling(w, o), o);
  }

  /** The bracket that closes last re-evaluates everything; any other one
      only counts down. */
  lemma EndStylingConsistent(w: World, o: ObjId)
    requires o in w.stores && InheritFramesInherit(w)
    ensures var r := EndStyling(w, o);
      && r.0.stores[o].styling == w.stores[o].styling - 1
      && r.0.stores[o].frames == w.stores[o].frames
      && (w.stores[o].styling == 1 ==> Consistent(r.0, o))
      && (w.stores[o].styling != 1 ==> r.1 == [] && r.0.stores[o].cache == w.stores[o].cache)
  {
    var s := w.stores[o];
    var w1 := UpdateStore(w, o, s.(styling := s.styling - 1));
    InheritFramesKept(w, w1);
    if s.styling == 1 { ReevaluateAllConsistent(w1, o); }
  }

  /** A style applied inside a bracket opened on an idle store ends, once the
      bracket closes, exactly as if it had been applied on its own: the same
      world and the same notifications. */
  lemma StylingBracketBatches(w: World, o: ObjId, f: FrameId)
    requires o in w.stores && w.stores[o].styling == 0
    ensures var w1 := BeginStyling(w, o);
      var (w2, out2) := ApplyStyle(w1, o, f);
      var (w3, out3) := EndStyling(w2, o);
      out2 == [] && (w3, out3) == ApplyStyle(w, o, f)
  {
    var a := AddFrame(w, o, f);
    AddFrameIgnoresStyling(w, o, f, 1);
    ClosingBracketReevaluates(a, o);
  }

  /** Closing the only open bracket is the batch pass on the store as it
      was before the bracket opened. */
  lemma ClosingBracketReevaluates(a: World, o: ObjId)
    requires o in a.stores && a.stores[o].styling == 0
    ensures EndStyling(UpdateStore(a, o, a.stores[o].(styling := 1)), o) == ReevaluateAll(a, o)
  {
    var w2 := UpdateStore(a, o, a.stores[o].(styling := 1));
    assert UpdateStore(w2, o, w2.stores[o].(styling := 0)) == a;
  }

  /** Where `AddFrame` inserts does not depend on the styling counter. */
  lemma AddFrameIgnoresStyling(w: World, o: ObjId, f: FrameId, k: int)
    requires o in w.stores
    ensures var a := AddFrame(w, o, f);
      AddFrame(UpdateStore(w, o, w.stores[o].(styling := k)), o, f) == UpdateStore(a, o, a.stores[o].(styling := k))
  {
    var s := w.stores[o];
    var n := FrameOrder.InsertionIndex(Priorities(w, s.frames), FramePriority(w, f));
    var fs := FrameOrder.InsertAt(s.frames, n, f);
    var stores := w.stores[o := s.(frames := fs, styling := k)];
    AddFrameStyledSide(w, o, f, k);
    AddFrameUnstyledSide(w, o, f, k);
    var u := UpdateStore(w, o, s.(frames := fs));
    SetOwnerIgnoresStores(u, o, f, stores);
    assert u.(stores := stores) == w.(stores := stores);
  }

  /** Inserting into the store with the counter changed is the owner
      hand-over on the world with the new store put in place. */
  lemma AddFrameStyledSide(w: World, o: ObjId, f: FrameId, k: int)
    requires o in w.stores
    ensures var s := w.stores[o];
      var fs := FrameOrder.InsertAt(s.frames, FrameOrder.InsertionIndex(Priorities(w, s.frames), FramePriority(w, f)), f);
      AddFrame(UpdateStore(w, o, s.(styling := k)), o, f) == SetOwner(w.(stores := w.stores[o := s.(frames := fs, styling := k)]), o, f)
  {
    var s := w.stores[o];
    var w1 := UpdateStore(w, o, s.(styling := k));
    var fs := FrameOrder.InsertAt(s.frames, FrameOrder.InsertionIndex(Priorities(w, s.frames), FramePriority(w, f)), f);
    PrioritiesIgnoreStores(w, w1.stores, s.frames);
    assert w1.stores[o].frames == s.frames;
    FramePriorityIgnoresStores(w, w1.stores, f);
    var s1 := s.(frames := fs, styling := k);
    assert w1.stores[o].(frames := fs) == s1;
    Overwrite(w.stores, o, s.(styling := k), s1);
    assert UpdateStore(w1, o, s1) == w.(stores := w.stores[o := s1]);
  }

  /** Changing the counter after the insertion only replaces the stores. */
  lemma AddFrameUnstyledSide(w: World, o: ObjId, f: FrameId, k: int)
    requires o in w.stores
    ensures var s := w.stores[o];
      var fs := FrameOrder.InsertAt(s.frames, FrameOrder.InsertionIndex(Priorities(w, s.frames), FramePriority(w, f)), f);
      var a := AddFrame(w, o, f);
      UpdateStore(a, o, a.stores[o].(styling := k))
        == SetOwner(UpdateStore(w, o, s.(frames := fs)), o, f).(stores := w.stores[o := s.(frames := fs, styling := k)])
  {
    var s := w.stores[o];
    var fs := FrameOrder.InsertAt(s.frames, FrameOrder.InsertionIndex(Priorities(w, s.frames), FramePriority(w, f)), f);
    var u := UpdateStore(w, o, s.(frames := fs));
    var a := AddFrame(w, o, f);
    var s1 := s.(frames := fs, styling := k);
    assert a == SetOwner(u, o, f);
    assert a.stores == w.stores[o := s.(frames := fs)];
    assert a.stores[o].(styling := k) == s1;
    Overwrite(w.stores, o, s.(frames := fs), s1);
    assert a.stores[o := s1] == w.stores[o := s1];
  }

  lemma FramePriorityIgnoresStores(w: World, stores: map<ObjId, Store>, f: FrameId)
    ensures FramePriority(w.(stores := stores), f) == FramePriority(w, f)
  {
  }

  lemma PrioritiesIgnoreStores(w: World, stores: map<ObjId, Store>, fs: seq<FrameId>)
    ensures Priorities(w.(stores := stores), fs) == Priorities(w, fs)
  {
    assert forall i :: 0 <= i < |fs| ==> FramePriority(w.(stores := stores), fs[i]) == FramePriority(w, fs[i]);
  }

  /** `SetOwner` leaves the stores alone and reads none of them. */
  lemma SetOwnerIgnoresStores(w: World, o: ObjId, f: FrameId, stores: map<ObjId, Store>)
    ensures SetOwner(w.(stores := stores), o, f) == SetOwner(w, o, f).(stores := stores)
  {
  }

  // ---------------------------------------------------------------------------
  // Reads

  /** On an agreeing store `GetValue` reads the value of the entry evaluation
      picks, and the type's default when nothing wins. */
  lemma GetValueReadsEvaluation(w: World, o: ObjId, p: PropId)
    requires o in w.stores && Consistent(w, o)
    ensures var ev := Evaluate(w, o, p);
      GetValue(w, o, p) == if ev.Some? then ReadTypedId(w, ev.value.entry) else DefaultOf(w, o, p)
  {
    assert CacheAgrees(w, o, p);
  }

  /** On a tidy store the only tier above `LocalValue` is `Animation`, so
      `IsAnimating` holds exactly when an animation wins. */
  lemma IsAnimatingIsAnimationTier(w: World, o: ObjId, p: PropId)
    requires Tidy(w, o)
    ensures IsAnimating(w, o, p).0 <==> Evaluate(w, o, p).Some? && Evaluate(w, o, p).value.priority == Animation
  {
    var w1 := S.Perform(w, S.EvaluateReads(w, o, p)).0;
    S.PerformKeepsEvaluation(w, S.EvaluateReads(w, o, p), o);
    assert IsAnimating(w, o, p).0 == (Evaluate(w1, o, p).Some? && Evaluate(w1, o, p).value.priority < LocalValue);
    WinnerTier(w, o, p);
  }

  /** On a well-formed store a winner stronger than `LocalValue` is at the
      `Animation` tier. */
  lemma WinnerTier(w: World, o: ObjId, p: PropId)
    requires Tidy(w, o)
    ensures Evaluate(w, o, p).Some? ==>
      (Evaluate(w, o, p).value.priority < LocalValue <==> Evaluate(w, o, p).value.priority == Animation)
  {
    var ls := StoreLayers(w, o);
    var ps := Priorities(w, w.stores[o].frames);
    C.ScanLayersSpec(ls, p);
    if C.ScanLayers(ls, p).Some? {
      var i :| 0 <= i < |ls| && ls[i].active && C.FirstPresent(ls[i].candidates, p).Some?
        && C.ScanLayers(ls, p) == Some(C.Winner(C.FirstPresent(ls[i].candidates, p).value, ls[i].priority));
      assert ls[i].priority == ps[i];
    }
  }

  /** A value that wins from the store's own frames comes from a frame
      `IsSet` sees. */
  lemma EffectiveIsSet(w: World, o: ObjId, p: PropId)
    requires o in w.stores && Evaluate(w, o, p).Some? && Evaluate(w, o, p).value.priority < Inherited
    ensures IsSet(w, o, p).0
  {
    var ls := StoreLayers(w, o);
    StrongWinnerFromFrames(w, o, p);
    C.ScanLayersSpec(ls, p);
    var i :| 0 <= i < |ls| && ls[i].active && C.FirstPresent(ls[i].candidates, p).Some?;
    assert Supplies(w, w.stores[o].frames[i], p);
  }

  // ---------------------------------------------------------------------------
  // Inheritance

  /** The inheritance frame `GetInheritanceFrame` makes holds inheriting
      properties only, and every other frame is kept. */
  lemma GetInheritanceFrameInherits(w: World, o: ObjId)
    requires o in w.stores && InheritFramesInherit(w)
    ensures InheritFramesInherit(GetInheritanceFrame(w, o).0)
    ensures GetInheritanceFrame(w, o).0.props == w.props
  {
    var s := w.stores[o];
    if s.inheritance.None? {
      var w2 := OwnFrameAdopted(w, o);
      OwnFrameAdoptedInherits(w, o);
      assert GetInheritanceFrame(w, o).0 == AddFrame(w2, o, w.next);
      AddFrameInheritFrames(w2, o, w.next);
      InheritFramesKept(w2, AddFrame(w2, o, w.next));
    }
  }

  /** The world just before `GetInheritanceFrame` adds the frame it made. */
  function OwnFrameAdopted(w: World, o: ObjId): (r: World)
    requires o in w.stores
    ensures o in r.stores && r.props == w.props
  {
    var s := w.stores[o];
    var g := w.next;
    var w1 := w.(frames := w.frames[g := InheritFrame(o, None, InheritingEntries(w, s.cache))], next := w.next + 1);
    UpdateStore(w1, o, s.(inheritance := Some(g)))
  }

  lemma OwnFrameAdoptedInherits(w: World, o: ObjId)
    requires o in w.stores && InheritFramesInherit(w)
    ensures InheritFramesInherit(OwnFrameAdopted(w, o))
  {
    var w2 := OwnFrameAdopted(w, o);
    forall h, q | h in w2.frames && w2.frames[h].InheritFrame? && q in FrameMaps.ToMap(w2.frames[h].values)
      ensures Inherits(w2, q)
    {
      if h != w.next {
        assert w2.frames[h] == w.frames[h];
        assert Inherits(w, q);
      }
    }
  }

  /** Re-parenting an inheritance frame keeps its entries. */
  lemma SetParentInherits(w: World, f: FrameId, frame: Option<FrameId>)
    requires InheritFramesInherit(w) && f in w.frames && w.frames[f].InheritFrame?
    ensures InheritFramesInherit(w.(frames := w.frames[f := SetParent(w.frames[f], frame)]))
  {
    var w' := w.(frames := w.frames[f := SetParent(w.frames[f], frame)]);
    forall h, q | h in w'.frames && w'.frames[h].InheritFrame? && q in FrameMaps.ToMap(w'.frames[h].values)
      ensures Inherits(w', q)
    {
      assert h in w.frames && w.frames[h].InheritFrame? && w'.frames[h].values == w.frames[h].values;
      assert q in FrameMaps.ToMap(w.frames[h].values);
      assert Inherits(w, q);
    }
  }

  /** After `InheritanceParentChanged` the cache agrees with evaluation and
      inheritance frames still hold inheriting properties only. */
  lemma InheritanceParentChangedConsistent(w: World, o: ObjId, newParent: Option<ObjId>)
    requires o in w.stores && (newParent.Some? ==> newParent.value in w.stores) && InheritFramesInherit(w)
    ensures var r := InheritanceParentChanged(w, o, newParent);
      && Consistent(r.0, o) && InheritFramesInherit(r.0)
      && |Children(w, o)| <= |r.1|
      && r.1[..|Children(w, o)|] == FrameChangedCalls(Children(w, o), r.0.stores[o].inheritance)
  {
    var (w1, frame) := ParentFrame(w, newParent);
    if newParent.Some? { GetInheritanceFrameInherits(w, newParent.value); }
    assert w1.tree == w.tree by {
      if newParent.Some? { GetInheritanceFrameTree(w, newParent.value); }
    }
    ParentInheritanceFrameChangedConsistent(w1, o, frame);
  }

  /** Taking a parent's inheritance frame leaves the logical tree alone. */
  lemma GetInheritanceFrameTree(w: World, o: ObjId)
    requires o in w.stores
    ensures GetInheritanceFrame(w, o).0.tree == w.tree
  {
  }

  /** The corrected `ParentInheritanceFrameChanged` leaves the store's cache
      agreeing with evaluation, keeps inheritance frames to inheriting
      properties, and passes the store's frame on to every child, each of
      which then does the same. */
  lemma ParentInheritanceFrameChangedConsistent(w: World, o: ObjId, frame: Option<FrameId>)
    requires o in w.stores && InheritFramesInherit(w)
    ensures var r := ParentInheritanceFrameChanged(w, o, frame);
      && Consistent(r.0, o) && InheritFramesInherit(r.0)
      && |Children(w, o)| <= |r.1|
      && r.1[..|Children(w, o)|] == FrameChangedCalls(Children(w, o), r.0.stores[o].inheritance)
  {
    var f := w.stores[o].inheritance;
    var w1 := Reattach(w, o, frame).0;
    if f.Some? && OwnsFrame(w, o, f.value) {
      SetParentInherits(w, f.value, frame);
    } else {
      InheritFramesKept(w, w1);
    }
    ReevaluateAllConsistent(w1, o);
  }

  /** A root (object 2) owning inheritance frame 1, which holds the root's
      local value 1 for the inheriting property 0; below it object 0, and
      below that object 1. Objects 0 and 1 borrow the root's frame, and the
      cache of object 1 holds the inherited value. */
  function ReparentWorld(): (w: World)
    ensures w.stores.Keys == {0, 1, 2} && Children(w, 0) == [1]
    ensures w.stores[0].inheritance == Some(1) && w.stores[1].inheritance == Some(1)
  {
    var meta := Properties.Metadata(Null, None);
    var prop := Properties.Property("P", 0, 0, meta, map[0 := meta], map[], false, true, None, false);
    var slot := [FrameMaps.Slot(0, 0)];
    World(map[0 := prop], Properties.TypeHierarchy(map[], map[]),
          map[2 := Controls.Node(None, [0]), 0 := Controls.Node(Some(2), [1]), 1 := Controls.Node(Some(0), [])],
          map[2 := Store(0, [1, 0], Some(1), Some(0), slot, 0),
              0 := Store(0, [], Some(1), None, slot, 0),
              1 := Store(0, [], Some(1), None, slot, 0)],
          map[0 := LocalFrame(slot), 1 := InheritFrame(2, None, slot)],
          map[0 := Local(L.LocalEntry(0, None, true, Val(1)))], 2)
  }

  /** Object 1 reads the root's value through the borrowed frame. */
  lemma ReparentWorldEvaluate()
    ensures Evaluate(ReparentWorld(), 1, 0) == Some(C.Winner(0, Inherited))
    ensures InheritFramesInherit(ReparentWorld())
  {
    var w := ReparentWorld();
    var c := C.Candidate(0, true, 0);
    assert StoreLayers(w, 1) == [];
    assert ChainFrom(w.frames, None, {1}) == [];
    assert ChainIds(w, 1) == [1];
    assert MapCandidates(w, w.frames[1].values) == [c];
    assert StoreChain(w, 1) == [[c]];
    assert C.FirstPresent([c], 0) == Some(0);
    assert FrameMaps.ToMap(w.frames[1].values) == map[0 := 0];
  }

  /** The batch pass leaves every inheritance frame as it was. */
  lemma ReevaluateAllKeepsInheritFrames(w: World, o: ObjId, h: FrameId)
    requires o in w.stores && h in w.frames && w.frames[h].InheritFrame?
    ensures h in ReevaluateAll(w, o).0.frames && ReevaluateAll(w, o).0.frames[h] == w.frames[h]
  {
    var ts := S.BatchReads(w, o);
    var w1 := S.Perform(w, ts).0;
    S.PerformStartsOnly(w, ts);
    assert S.EraseFrame(w1.frames[h]) == w.frames[h];
    assert ReevaluateAll(w, o).0.frames == w1.frames;
  }

  /** Detaching object 0 from the root, as written: object 0 passes its new
      (absent) frame on to object 1, which adopts it without re-evaluating.
      Its cache still holds the root's value while evaluation finds none.
      The corrected `ParentInheritanceFrameChanged` brings it up to date. */
  lemma ReparentStaleCounterexample()
    ensures var w := ReparentWorld();
      var r := InheritanceParentChangedAsWritten(w, 0, None);
      var w2 := ParentInheritanceFrameChangedAsWritten(r.0, 1, None).0;
      && CacheAgrees(w, 1, 0) && Evaluate(w, 1, 0) == Some(C.Winner(0, Inherited))
      && |r.1| > 0 && r.1[0] == ParentFrameChanged(1, None)
      && FrameMaps.TryGet(w2.stores[1].cache, 0) == Some(0) && Evaluate(w2, 1, 0).None?
      && !CacheAgrees(w2, 1, 0)
      && CacheAgrees(ParentInheritanceFrameChanged(r.0, 1, None).0, 1, 0)
  {
    var w := ReparentWorld();
    ReparentWorldEvaluate();
    var r := InheritanceParentChangedAsWritten(w, 0, None);
    ReparentDetach();
    DroppedFrameStale(r.0);
    InheritanceParentChangedConsistent(w, 0, None);
    ParentInheritanceFrameChangedConsistent(r.0, 1, None);
  }

  /** Detaching object 0 as written tells object 1 first, and leaves object 1
      and the root's frame as they were. */
  lemma ReparentDetach()
    ensures var w := ReparentWorld();
      var r := InheritanceParentChangedAsWritten(w, 0, None);
      && |r.1| > 0 && r.1[0] == ParentFrameChanged(1, None)
      && 1 in r.0.stores && r.0.stores[1] == w.stores[1]
      && 1 in r.0.frames && r.0.frames[1] == w.frames[1]
  {
    var w := ReparentWorld();
    var (w1, calls) := ParentInheritanceFrameChangedAsWritten(w, 0, None);
    assert calls == [ParentFrameChanged(1, None)];
    var r := InheritanceParentChangedAsWritten(w, 0, None);
    assert r.0 == ReevaluateAll(w1, 0).0 && r.1 == calls + ReevaluateAll(w1, 0).1;
    ReevaluateAllKeepsInheritFrames(w1, 0, 1);
  }

  /** A store that borrows another's frame and drops it as written keeps
      its cached entry, though nothing supplies the property any more. */
  lemma DroppedFrameStale(w: World)
    requires 1 in w.stores && w.stores[1] == Store(0, [], Some(1), None, [FrameMaps.Slot(0, 0)], 0)
    requires 1 in w.frames && w.frames[1].InheritFrame? && w.frames[1].owner == 2
    ensures var w2 := ParentInheritanceFrameChangedAsWritten(w, 1, None).0;
      FrameMaps.TryGet(w2.stores[1].cache, 0) == Some(0) && Evaluate(w2, 1, 0).None?
  {
    var w2 := ParentInheritanceFrameChangedAsWritten(w, 1, None).0;
    assert w2.stores[1] == w.stores[1].(inheritance := None);
    assert ChainIds(w2, 1) == [];
    assert StoreLayers(w2, 1) == [];
  }

  /** `InheritedValueChanged` on a tidy store whose cache agrees everywhere
      but at `p` repairs `p`, unless the store's own
      inheritance frame holds `p`, which stops the propagation untouched. */
  lemma InheritedValueChangedRestores(w: World, o: ObjId, p: PropId)
    requires Tidy(w, o) && AgreesExcept(w, o, p) && w.stores[o].inheritance.Some?
    ensures var f := w.stores[o].inheritance.value;
      var r := InheritedValueChangedAt(w, o, p);
      && r.Ok?
      && (OwnsFrame(w, o, f) && FrameMaps.TryGet(w.frames[f].values, p).Some? ==> r.value == (w, []))
      && (!(OwnsFrame(w, o, f) && FrameMaps.TryGet(w.frames[f].values, p).Some?) ==>
            Consistent(r.value.0, o) && Tidy(r.value.0, o))
  {
    var f := w.stores[o].inheritance.value;
    if !(OwnsFrame(w, o, f) && FrameMaps.TryGet(w.frames[f].values, p).Some?) {
      var c := FrameMaps.TryGet(w.stores[o].cache, p);
      var before := if c.Some? then Some(ReadTypedId(w, c.value)) else None;
      ReevaluateRestores(w, o, p, before);
      ReevaluateTidy(w, o, p, before);
    }
  }

  // ---------------------------------------------------------------------------
  // Removing a binding entry

  /** The world once frame `f` has left the store's list. */
  function WithoutFrame(w: World, o: ObjId, f: FrameId): (r: World)
    requires o in w.stores
    ensures o in r.stores && r.stores[o] == w.stores[o].(frames := RemoveFrame(w.stores[o].frames, f))
    ensures r.frames == w.frames && r.entries == w.entries && r.props == w.props
  {
    UpdateStore(w, o, w.stores[o].(frames := RemoveFrame(w.stores[o].frames, f)))
  }

  /** Dropping a frame keeps the rest of the list in order. */
  lemma WithoutFrameTidy(w: World, o: ObjId, f: FrameId)
    requires Tidy(w, o)
    ensures Tidy(WithoutFrame(w, o, f), o)
  {
    var fs := w.stores[o].frames;
    var w1 := WithoutFrame(w, o, f);
    var rs := w1.stores[o].frames;
    PrioritiesIgnoreStores(w, w1.stores, rs);
    InheritFramesKept(w, w1);
    if f in fs {
      RemoveFrameSplits(fs, f);
      var k := IndexOf(fs, f);
      PrioritiesWithout(w, fs, k);
      SortedWithout(Priorities(w, fs), k);
      assert forall h :: h in rs ==> h in fs[..k] || h in fs[k + 1..];
    }
  }

  lemma PrioritiesWithout(w: World, fs: seq<FrameId>, k: int)
    requires 0 <= k < |fs|
    ensures Priorities(w, fs[..k] + fs[k + 1..]) == Priorities(w, fs)[..k] + Priorities(w, fs)[k + 1..]
  {
    PrioritiesConcat(w, fs[..k], fs[k + 1..]);
    PrioritiesSlice(w, fs, 0, k);
    PrioritiesSlice(w, fs, k + 1, |fs|);
  }

  /** The tiers of a run of frames are that run of the tiers. */
  lemma PrioritiesSlice(w: World, fs: seq<FrameId>, i: int, j: int)
    requires 0 <= i <= j <= |fs|
    ensures Priorities(w, fs[i..j]) == Priorities(w, fs)[i..j]
  {
    var a := Priorities(w, fs[i..j]);
    var b := Priorities(w, fs)[i..j];
    forall t | 0 <= t < |a| ensures a[t] == b[t] {
      assert fs[i..j][t] == fs[i + t];
    }
  }

  /** The tiers of two runs of frames laid end to end. */
  lemma PrioritiesConcat(w: World, xs: seq<FrameId>, ys: seq<FrameId>)
    ensures Priorities(w, xs + ys) == Priorities(w, xs) + Priorities(w, ys)
  {
    var a := Priorities(w, xs + ys);
    var b := Priorities(w, xs) + Priorities(w, ys);
    assert |a| == |b|;
    forall t | 0 <= t < |a| ensures a[t] == b[t] {
      if t < |xs| {
        assert (xs + ys)[t] == xs[t];
      } else {
        assert (xs + ys)[t] == ys[t - |xs|];
      }
    }
  }

  /** Any tier list stays sorted and banded with one tier taken out. */
  lemma SortedWithout(ps: seq<int>, k: int)
    requires 0 <= k < |ps| && FrameOrder.Sorted(ps) && Banded(ps)
    ensures FrameOrder.Sorted(ps[..k] + ps[k + 1..]) && Banded(ps[..k] + ps[k + 1..])
  {
    var qs := ps[..k] + ps[k + 1..];
    assert forall i :: 0 <= i < |qs| ==> qs[i] == ps[if i < k then i else i + 1];
    forall i, j | 0 <= i < j < |qs| ensures FrameOrder.NotStronger(qs, i, j) {
      assert FrameOrder.NotStronger(ps, if i < k then i else i + 1, if j < k then j else j + 1);
    }
  }

  /** The store's layers before the removal are those after it with the
      removed frame put back where it was. */
  lemma WithoutFrameLayers(w: World, o: ObjId, f: FrameId)
    requires o in w.stores && f in w.stores[o].frames
    ensures var k := IndexOf(w.stores[o].frames, f);
      k <= |StoreLayers(WithoutFrame(w, o, f), o)|
      && StoreLayers(w, o) == FrameOrder.InsertAt(StoreLayers(WithoutFrame(w, o, f), o), k, LayerOf(w, f))
  {
    var fs := w.stores[o].frames;
    var w1 := WithoutFrame(w, o, f);
    var k := IndexOf(fs, f);
    RemoveFrameSplits(fs, f);
    var rs := w1.stores[o].frames;
    assert FrameOrder.InsertAt(rs, k, f) == fs;
    UpdateStoreLayers(w, o, w1.stores[o]);
    LayersInsert(w1, w, rs, k, f);
  }

  /** A binding entry's frame offers its own property only. */
  lemma BindingFrameOffersOwnProperty(w: World, f: FrameId, p: PropId, q: PropId)
    requires f in w.frames && w.frames[f].BindingFrame? && w.frames[f].entry in w.entries
    requires PropOf(w.entries[w.frames[f].entry]) == p && q != p
    ensures C.HitOf(LayerOf(w, f), q).None?
  {
    assert !C.Supplies(Candidates(w, f)[0], q);
  }

  /** Removing a frame from the list leaves the inheritance walk alone. */
  lemma WithoutFrameChain(w: World, o: ObjId, f: FrameId)
    requires o in w.stores
    ensures StoreChain(WithoutFrame(w, o, f), o) == StoreChain(w, o)
  {
    var w1 := WithoutFrame(w, o, f);
    assert ChainStart(w1, o) == ChainStart(w, o);
    var ids := ChainIds(w, o);
    forall k | 0 <= k < |ids| ensures Candidates(w1, ids[k]) == Candidates(w, ids[k]) {
      if ids[k] in w.frames && !w.frames[ids[k]].BindingFrame? {
        MapCandidatesSame(w, w1, KeyedValues(w.frames[ids[k]]));
      }
    }
  }

  /** Removing a binding frame changes the evaluation of no other property. */
  lemma WithoutFrameEvaluate(w: World, o: ObjId, f: FrameId, p: PropId, q: PropId)
    requires o in w.stores && f in w.frames && w.frames[f].BindingFrame? && w.frames[f].entry in w.entries
    requires PropOf(w.entries[w.frames[f].entry]) == p && q != p
    ensures Evaluate(WithoutFrame(w, o, f), o, q) == Evaluate(w, o, q)
  {
    var w1 := WithoutFrame(w, o, f);
    WithoutFrameScan(w, o, f, p, q);
    WithoutFrameChain(w, o, f);
    EvaluateFromScans(w, w1, o, q);
  }

  lemma WithoutFrameScan(w: World, o: ObjId, f: FrameId, p: PropId, q: PropId)
    requires o in w.stores && f in w.frames && w.frames[f].BindingFrame? && w.frames[f].entry in w.entries
    requires PropOf(w.entries[w.frames[f].entry]) == p && q != p
    ensures C.ScanLayers(StoreLayers(WithoutFrame(w, o, f), o), q) == C.ScanLayers(StoreLayers(w, o), q)
  {
    var w1 := WithoutFrame(w, o, f);
    if f in w.stores[o].frames {
      WithoutFrameLayers(w, o, f);
      BindingFrameOffersOwnProperty(w, f, p, q);
      C.ScanInsertMiss(StoreLayers(w1, o), IndexOf(w.stores[o].frames, f), LayerOf(w, f), q);
    } else {
      UpdateStoreLayers(w, o, w1.stores[o]);
      assert StoreLayers(w1, o) == StoreLayers(w, o);
    }
  }

  /** `RemoveBindingEntry` on an agreeing store: the entry's frame goes and
      the re-evaluation of its property restores agreement everywhere. */
  lemma RemoveBindingEntryConsistent(w: World, o: ObjId, f: FrameId, p: PropId, oldValue: Optional)
    requires Tidy(w, o) && Consistent(w, o)
    requires f in w.frames && w.frames[f].BindingFrame? && PropOf(w.entries[w.frames[f].entry]) == p
    ensures var w' := ValueStores.RemoveBindingEntry(w, o, f, p, oldValue).0;
      Consistent(w', o) && Tidy(w', o)
  {
    var w1 := WithoutFrame(w, o, f);
    WithoutFrameTidy(w, o, f);
    forall q | q != p ensures CacheAgrees(w1, o, q) {
      assert CacheAgrees(w, o, q);
      WithoutFrameEvaluate(w, o, f, p, q);
    }
    assert ValueStores.RemoveBindingEntry(w, o, f, p, oldValue) == ValueStores.Reevaluate(w1, o, p, oldValue);
    ReevaluateRestores(w1, o, p, oldValue);
    ReevaluateTidy(w1, o, p, oldValue);
  }

  // ---------------------------------------------------------------------------
  // Pushes from bindings and activators

  /** Replacing an entry by one for the same property, of the same kind and,
      for a binding, at the same priority, changes only what concerns that
      property and keeps the store tidy. */
  lemma RewriteTidy(w: World, o: ObjId, e: EntryId, x: Entry)
    requires Tidy(w, o) && e in w.entries && PropOf(x) == PropOf(w.entries[e])
    requires x.Binding? == w.entries[e].Binding?
    requires x.Binding? ==> x.binding.priority == w.entries[e].binding.priority
    ensures var w' := w.(entries := w.entries[e := x]);
      ChangedOnly(w, w', {PropOf(x)}) && Tidy(w', o)
  {
    var w' := w.(entries := w.entries[e := x]);
    forall h | h in w.frames ensures FramePriority(w', h) == FramePriority(w, h) {}
    PrioritiesSame(w, w', w.stores[o].frames);
    assert forall q :: Inherits(w', q) == Inherits(w, q);
    forall h, q | h in w'.frames && q in FrameMaps.ToMap(KeyedValues(w'.frames[h]))
      ensures FrameMaps.ToMap(KeyedValues(w'.frames[h]))[q] in w'.entries
        && PropOf(w'.entries[FrameMaps.ToMap(KeyedValues(w'.frames[h]))[q]]) == q
    {
      var y := FrameMaps.ToMap(KeyedValues(w.frames[h]))[q];
      assert y in w.entries && PropOf(w.entries[y]) == q;
    }
  }

  /** Replacing an entry by one that has a value exactly when it had one
      leaves every layer, and so every evaluation, as it was. */
  lemma PresenceKept(w: World, o: ObjId, e: EntryId, x: Entry)
    requires Tidy(w, o) && Consistent(w, o) && e in w.entries && PropOf(x) == PropOf(w.entries[e])
    requires x.Binding? == w.entries[e].Binding?
    requires x.Binding? ==> x.binding.priority == w.entries[e].binding.priority
    requires HasValue(x) == HasValue(w.entries[e])
    ensures var w' := w.(entries := w.entries[e := x]);
      Consistent(w', o) && Tidy(w', o)
  {
    var w' := w.(entries := w.entries[e := x]);
    RewriteTidy(w, o, e, x);
    assert forall y :: Present(w', y) == Present(w, y);
    forall h ensures C.HitOf(LayerOf(w', h), PropOf(x)) == C.HitOf(LayerOf(w, h), PropOf(x)) {
      if h in w.frames && !w.frames[h].BindingFrame? {
        var m := KeyedValues(w.frames[h]);
        assert MapCandidates(w', m) == MapCandidates(w, m);
      }
      assert LayerOf(w', h) == LayerOf(w, h);
    }
    SameHitsKeepAll(w, w', o, PropOf(x));
    ConsistentKept(w, w', o);
  }

  /** A call the store only passes on to the world outside. */
  predicate PassedOn(x: Effect) {
    x.Subscribe? || x.Unsubscribe?
  }

  lemma {:induction false} DispatchPassedOn(w: World, o: ObjId, f: FrameId, pre: seq<Effect>, post: seq<Effect>)
    requires o in w.stores
    requires forall i :: 0 <= i < |pre| ==> PassedOn(pre[i])
    ensures Dispatch(w, o, f, pre + post).0 == Dispatch(w, o, f, post).0
    decreases |pre|
  {
    if |pre| == 0 {
      assert pre + post == post;
    } else {
      var fx := pre + post;
      assert fx[0] == pre[0] && fx[1..] == pre[1..] + post;
      ApplyPassedOn(w, o, f, pre[0]);
      DispatchPassedOn(w, o, f, pre[1..], post);
      assert Dispatch(w, o, f, fx).0 == Dispatch(Apply(w, o, f, fx[0]).0, o, f, fx[1..]).0;
    }
  }

  /** Carrying out a single call is applying it. */
  lemma DispatchOne(w: World, o: ObjId, f: FrameId, x: Effect)
    requires o in w.stores
    ensures Dispatch(w, o, f, [x]) == Apply(w, o, f, x)
  {
    var a := Apply(w, o, f, x);
    assert [x][0] == x && [x][1..] == [];
    assert Dispatch(a.0, o, f, []) == (a.0, []);
    assert a.1 + [] == a.1;
  }

  lemma ApplyRemoval(w: World, o: ObjId, f: FrameId, p: PropId, oldValue: Optional)
    requires o in w.stores
    ensures Apply(w, o, f, RemoveBindingEntry(p, oldValue)) == ValueStores.RemoveBindingEntry(w, o, f, p, oldValue)
  {}

  lemma ApplyPassedOn(w: World, o: ObjId, f: FrameId, x: Effect)
    requires o in w.stores && PassedOn(x)
    ensures Apply(w, o, f, x) == (w, [External(o, x)])
  {}

  /** An owned binding entry's step either reports its old value once, or
      keeps whether it has a value and calls back with calls passed on to
      its source followed by at most a removal request. */
  lemma BindingStepShape(b: B.BindingEntry, ev: B.Event) returns (pre: seq<Effect>, post: seq<Effect>)
    requires b.owned
    ensures var r := B.Step(b, ev);
      || r.1 == [ValueChanged(b.prop, B.Current(b))]
      || (&& r.0.hasValue == b.hasValue && r.1 == pre + post
          && (forall i :: 0 <= i < |pre| ==> PassedOn(pre[i]))
          && (post == [] || post == [RemoveBindingEntry(b.prop, B.Current(b))]))
  {
    var fx := B.Step(b, ev).1;
    match ev {
      case Read =>
        pre, post := fx, [];
      case Disposed =>
        pre := if b.subscription.Live? then [Unsubscribe(b.source)] else [];
        post := [RemoveBindingEntry(b.prop, B.Current(b))];
      case _ =>
        pre, post := [], fx;
    }
  }

  /** An event on a binding entry that reports to store `o` — a pushed value,
      completion, error, disposal, a read, or `Subscribe` returning — keeps
      the store agreeing with evaluation, and tidy. */
  lemma BindingEventConsistent(w: World, o: ObjId, f: FrameId, ev: B.Event)
    requires Tidy(w, o) && Consistent(w, o)
    requires f in w.frames && w.frames[f].BindingFrame?
    requires var e := w.frames[f].entry; e in w.entries && w.entries[e].Binding? && w.entries[e].binding.owned
    ensures var w' := BindingEvent(w, o, f, ev).0;
      Consistent(w', o) && Tidy(w', o)
  {
    var e := w.frames[f].entry;
    var b := w.entries[e].binding;
    var r := B.Step(b, ev);
    var w1 := w.(entries := w.entries[e := Binding(r.0)]);
    assert BindingEvent(w, o, f, ev) == Dispatch(w1, o, f, r.1);
    var pre, post := BindingStepShape(b, ev);
    if r.1 == [ValueChanged(b.prop, B.Current(b))] {
      BindingChangeConsistent(w, o, f, r.0);
    } else {
      BindingQuietConsistent(w, o, f, r.0, pre, post);
    }
  }

  /** A binding entry's report of its old value, carried out. */
  lemma BindingChangeConsistent(w: World, o: ObjId, f: FrameId, b': B.BindingEntry)
    requires Tidy(w, o) && Consistent(w, o)
    requires f in w.frames && w.frames[f].BindingFrame?
    requires var e := w.frames[f].entry; e in w.entries && w.entries[e].Binding?
    requires var b := w.entries[w.frames[f].entry].binding; b'.prop == b.prop && b'.priority == b.priority
    ensures var b := w.entries[w.frames[f].entry].binding;
      var w1 := w.(entries := w.entries[w.frames[f].entry := Binding(b')]);
      var w' := Dispatch(w1, o, f, [ValueChanged(b.prop, B.Current(b))]).0;
      Consistent(w', o) && Tidy(w', o)
  {
    var e := w.frames[f].entry;
    var b := w.entries[e].binding;
    var w1 := w.(entries := w.entries[e := Binding(b')]);
    RewriteTidy(w, o, e, Binding(b'));
    LocalChangeAgreesExcept(w, w1, o, b.prop);
    DispatchChangeRestores(w1, o, f, b.prop, B.Current(b));
  }

  /** A binding entry's step that keeps whether it has a value, with calls
      passed on and at most a removal request, carried out. */
  lemma BindingQuietConsistent(w: World, o: ObjId, f: FrameId, b': B.BindingEntry, pre: seq<Effect>, post: seq<Effect>)
    requires Tidy(w, o) && Consistent(w, o)
    requires f in w.frames && w.frames[f].BindingFrame?
    requires var e := w.frames[f].entry; e in w.entries && w.entries[e].Binding?
    requires var b := w.entries[w.frames[f].entry].binding;
      b'.prop == b.prop && b'.priority == b.priority && b'.hasValue == b.hasValue
    requires forall i :: 0 <= i < |pre| ==> PassedOn(pre[i])
    requires var b := w.entries[w.frames[f].entry].binding;
      post == [] || post == [RemoveBindingEntry(b.prop, B.Current(b))]
    ensures var w1 := w.(entries := w.entries[w.frames[f].entry := Binding(b')]);
      var w' := Dispatch(w1, o, f, pre + post).0;
      Consistent(w', o) && Tidy(w', o)
  {
    var e := w.frames[f].entry;
    var b := w.entries[e].binding;
    var w1 := w.(entries := w.entries[e := Binding(b')]);
    var w' := Dispatch(w1, o, f, pre + post).0;
    PresenceKept(w, o, e, Binding(b'));
    DispatchPassedOn(w1, o, f, pre, post);
    if post == [] {
      assert w' == w1;
    } else {
      DispatchOne(w1, o, f, post[0]);
      ApplyRemoval(w1, o, f, b.prop, B.Current(b));
      RemoveBindingEntryConsistent(w1, o, f, b.prop, B.Current(b));
    }
  }

  /** The local entry for `p` clearing itself, with its calls carried out,
      keeps the store agreeing with evaluation, and tidy. */
  lemma LocalClearConsistent(w: World, o: ObjId, p: PropId)
    requires Tidy(w, o) && Consistent(w, o) && LocalEntryId(w, o, p).Some?
    ensures var e := LocalEntryId(w, o, p).value;
      var w' := Dispatch(ClearedEntry(w, e), o, w.stores[o].local.value, L.ClearValue(w.entries[e].local).1).0;
      Consistent(w', o) && Tidy(w', o)
  {
    var e := LocalEntryId(w, o, p).value;
    var g := w.stores[o].local.value;
    var le := w.entries[e].local;
    assert KeyedValues(w.frames[g]) == w.frames[g].values && FrameMaps.ToMap(w.frames[g].values)[p] == e;
    assert PropOf(w.entries[e]) == p;
    var w1 := ClearedEntry(w, e);
    ClearedEntryTidy(w, o, e);
    ClearedEntryAgrees(w, o, e);
    if !le.hasValue {
      assert w1 == w && CacheAgrees(w, o, p);
    }
    assert FrameMaps.TryGet(w1.frames[g].values, p) == Some(e);
    ClearCallsRestore(w1, o, g, p, le);
  }

  /** A value pushed to the local entry for `p` keeps the store agreeing with
      evaluation, and tidy. */
  lemma LocalSetConsistent(w: World, o: ObjId, p: PropId, x: Value)
    requires Tidy(w, o) && Consistent(w, o) && LocalEntryId(w, o, p).Some?
    ensures var w' := LocalEvent(w, o, p, L.Next(WithValue(x))).0;
      Consistent(w', o) && Tidy(w', o)
  {
    var e := LocalEntryId(w, o, p).value;
    var g := w.stores[o].local.value;
    var le := w.entries[e].local;
    assert KeyedValues(w.frames[g]) == w.frames[g].values && FrameMaps.ToMap(w.frames[g].values)[p] == e;
    assert PropOf(w.entries[e]) == p;
    var (le', fx) := L.SetValue(le, x);
    var w1 := w.(entries := w.entries[e := Local(le')]);
    assert LocalEvent(w, o, p, L.Next(WithValue(x))) == Dispatch(w1, o, g, fx);
    if fx == [] {
      assert w1 == w;
    } else {
      RewriteTidy(w, o, e, Local(le'));
      LocalChangeAgreesExcept(w, w1, o, p);
      DispatchChangeRestores(w1, o, g, p, L.Current(le));
    }
  }

  lemma Overwrite<K, V>(m: map<K, V>, k: K, a: V, b: V)
    ensures m[k := a][k := b] == m[k := b]
  {}

  /** The end of the local entry's binding (completion, error, or disposal
      after the subscription is disposed) keeps the store agreeing with
      evaluation, and tidy. */
  lemma LocalEndConsistent(w: World, o: ObjId, p: PropId, pre: seq<Effect>)
    requires Tidy(w, o) && Consistent(w, o) && LocalEntryId(w, o, p).Some?
    requires forall i :: 0 <= i < |pre| ==> PassedOn(pre[i])
    ensures var e := LocalEntryId(w, o, p).value;
      var r := L.BindingCompleted(w.entries[e].local);
      var w' := Dispatch(w.(entries := w.entries[e := Local(r.0)]), o, w.stores[o].local.value, pre + r.1).0;
      Consistent(w', o) && Tidy(w', o)
  {
    var e := LocalEntryId(w, o, p).value;
    var g := w.stores[o].local.value;
    var le0 := w.entries[e].local.(subscription := None);
    var w0 := w.(entries := w.entries[e := Local(le0)]);
    PresenceKept(w, o, e, Local(le0));
    assert LocalEntryId(w0, o, p) == Some(e);
    LocalClearConsistent(w0, o, p);
    var r := L.BindingCompleted(w.entries[e].local);
    assert w0.entries[e].local == le0 && r == L.ClearValue(le0);
    Overwrite(w.entries, e, Local(le0), Local(r.0));
    DispatchPassedOn(ClearedEntry(w0, e), o, g, pre, r.1);
  }

  /** Any event from the binding of store `o`'s local entry for `p` — a
      pushed value or error, completion, or disposal — keeps the store
      agreeing with evaluation, and tidy. */
  lemma LocalEventConsistent(w: World, o: ObjId, p: PropId, ev: L.Event)
    requires Tidy(w, o) && Consistent(w, o)
    ensures var w' := LocalEvent(w, o, p, ev).0;
      Consistent(w', o) && Tidy(w', o)
  {
    var m := LocalEntryId(w, o, p);
    if m.Some? {
      var e := m.value;
      var g := w.stores[o].local.value;
      var le := w.entries[e].local;
      match ev {
        case Next(v) =>
          match v {
            case WithValue(x) => LocalSetConsistent(w, o, p, x);
            case BindingError =>
              assert LocalEvent(w, o, p, ev).0 == Dispatch(ClearedEntry(w, e), o, g, L.ClearValue(le).1).0;
              LocalClearConsistent(w, o, p);
            case Valueless =>
              assert w.(entries := w.entries[e := Local(le)]) == w;
          }
        case Completed =>
          assert L.BindingCompleted(le).1 == [] + L.BindingCompleted(le).1;
          LocalEndConsistent(w, o, p, []);
        case Disposed =>
          var pre := if le.subscription.Some? then [Unsubscribe(le.subscription.value)] else [];
          LocalEndConsistent(w, o, p, pre);
      }
    }
  }

  /** Flipping a style instance's activity keeps the store tidy. */
  lemma FlipTidy(w: World, o: ObjId, f: FrameId, value: bool)
    requires Tidy(w, o) && f in w.frames && w.frames[f].StyleFrame?
    ensures Tidy(w.(frames := w.frames[f := StyleFrame(w.frames[f].instance.(active := value))]), o)
  {
    var w1 := w.(frames := w.frames[f := StyleFrame(w.frames[f].instance.(active := value))]);
    forall h | h in w.frames ensures FramePriority(w1, h) == FramePriority(w, h) && KeyedValues(w1.frames[h]) == KeyedValues(w.frames[h]) {}
    PrioritiesSame(w, w1, w.stores[o].frames);
    InheritFramesKept(w, w1);
  }

  /** An activator push to a style instance of store `o` keeps the store
      agreeing with evaluation, and tidy: a repeated value changes nothing,
      a flip re-evaluates everything. */
  lemma ActivatorNextConsistent(w: World, o: ObjId, f: FrameId, value: bool)
    requires Tidy(w, o) && Consistent(w, o)
    requires f in w.frames && w.frames[f].StyleFrame? && w.frames[f].instance.store == Some(o)
    ensures var w' := ActivatorNext(w, f, value).0;
      Consistent(w', o) && Tidy(w', o)
    ensures w.frames[f].instance.active == value ==> ActivatorNext(w, f, value) == (w, [])
  {
    if w.frames[f].instance.active == value {
      ActivatorRepeat(w, o, f, value);
    } else {
      ActivatorFlipConsistent(w, o, f, value);
    }
  }

  /** An activator push to an instance of store `o` stores the new instance
      and carries out its calls on that store. */
  lemma ActivatorNextDispatches(w: World, o: ObjId, f: FrameId, value: bool)
    requires o in w.stores
    requires f in w.frames && w.frames[f].StyleFrame? && w.frames[f].instance.store == Some(o)
    ensures var (si', fx) := SI.OnNext(w.frames[f].instance, value);
      ActivatorNext(w, f, value) == Dispatch(w.(frames := w.frames[f := StyleFrame(si')]), o, f, fx)
  {
  }

  lemma ApplyActivation(w: World, o: ObjId, f: FrameId)
    requires o in w.stores
    ensures Apply(w, o, f, FrameActivationChanged) == ReevaluateAll(w, o)
  {
    var x := FrameActivationChanged;
    assert !x.ValueChanged? && !x.ValueChangedUntyped? && !x.RemoveFromFrame? && !x.RemoveBindingEntry?;
    assert x.FrameActivationChanged?;
  }

  /** A repeated activator value leaves the world alone and says nothing. */
  lemma ActivatorRepeat(w: World, o: ObjId, f: FrameId, value: bool)
    requires o in w.stores
    requires f in w.frames && w.frames[f].StyleFrame? && w.frames[f].instance.store == Some(o)
    requires w.frames[f].instance.active == value
    ensures ActivatorNext(w, f, value) == (w, [])
  {
    var si := w.frames[f].instance;
    assert SI.OnNext(si, value) == (si, []);
    assert w.frames[f := StyleFrame(si)] == w.frames;
    assert Dispatch(w, o, f, []) == (w, []);
  }

  /** A flipped activator value re-evaluates everything, which leaves the
      store agreeing with evaluation and tidy. */
  lemma ActivatorFlipConsistent(w: World, o: ObjId, f: FrameId, value: bool)
    requires Tidy(w, o) && Consistent(w, o)
    requires f in w.frames && w.frames[f].StyleFrame? && w.frames[f].instance.store == Some(o)
    requires w.frames[f].instance.active != value
    ensures var w' := ActivatorNext(w, f, value).0;
      Consistent(w', o) && Tidy(w', o)
  {
    var si := w.frames[f].instance;
    var w1 := w.(frames := w.frames[f := StyleFrame(si.(active := value))]);
    assert SI.OnNext(si, value) == (si.(active := value), [FrameActivationChanged]);
    ActivatorNextDispatches(w, o, f, value);
    DispatchOne(w1, o, f, FrameActivationChanged);
    ApplyActivation(w1, o, f);
    FlipTidy(w, o, f, value);
    ReevaluateAllConsistent(w1, o);
    ReevaluateAllTidy(w1, o);
  }

  /** A value pushed to a setter binding instance of a style instance of
      store `o` keeps the store agreeing with evaluation, and tidy. */
  lemma SetterBindingNextConsistent(w: World, o: ObjId, f: FrameId, p: PropId, v: SB.Pushed)
    requires Tidy(w, o) && Consistent(w, o)
    requires f in w.frames && w.frames[f].StyleFrame? && w.frames[f].instance.store == Some(o)
    ensures var w' := SetterBindingNext(w, f, p, v).0;
      Consistent(w', o) && Tidy(w', o)
  {
    var si := w.frames[f].instance;
    var m := FrameMaps.TryGet(si.values, p);
    if m.Some? && m.value in w.entries && w.entries[m.value].SetterBinding? {
      var e := m.value;
      var sb := w.entries[e].instance;
      assert KeyedValues(w.frames[f]) == si.values && FrameMaps.ToMap(si.values)[p] == e;
      assert PropOf(w.entries[e]) == p;
      var x := SetterBinding(sb.(value := v));
      var w1 := w.(entries := w.entries[e := x]);
      RewriteTidy(w, o, e, x);
      LocalChangeAgreesExcept(w, w1, o, p);
      assert sb.prop == p;
      DispatchOne(w1, o, f, ValueChangedUntyped(p, sb.value));
      assert SetterBindingNext(w, f, p, v).0 == ReevaluateUntyped(w1, o, p, sb.value).0;
      ReevaluateUntypedRestores(w1, o, p, sb.value);
      ReevaluateUntypedTidy(w1, o, p, sb.value);
    }
  }
}
