/**
 * When a change to the arena leaves a store's evaluation alone. A change is
 * local to a set of properties when every frame keeps its shape and its
 * entries for the other properties, and every entry of another property is
 * untouched; evaluation of the other properties then cannot tell the two
 * arenas apart.
 */
module Locality {
  import opened Base
  import FrameMaps
  import C = Cascade
  import opened Arena
  import opened Evaluation

  /** Two frame maps hold the same entry for every property outside `ps`. */
  ghost predicate AgreeOutside(m: FrameMaps.FrameMap<EntryId>, m': FrameMaps.FrameMap<EntryId>, ps: set<PropId>) {
    forall q :: q !in ps ==> FrameMaps.TryGet(m', q) == FrameMaps.TryGet(m, q)
  }

  /** `fr'` is `fr` with at most its entries for `ps` changed. */
  ghost predicate SameShape(fr: Frame, fr': Frame, ps: set<PropId>) {
    match fr
    case LocalFrame(vs) => fr'.LocalFrame? && AgreeOutside(vs, fr'.values, ps)
    case BindingFrame(_) => fr' == fr
    case StyleFrame(si) =>
      fr'.StyleFrame? && fr'.instance.active == si.active && fr'.instance.priority == si.priority
      && AgreeOutside(si.values, fr'.instance.values, ps)
    case InheritFrame(owner, parent, vs) =>
      fr'.InheritFrame? && fr'.owner == owner && fr'.parent == parent && AgreeOutside(vs, fr'.values, ps)
  }

  /** Every entry a frame refers to is in the arena, filed under its own
      property; a binding frame's entry is a binding entry. */
  ghost predicate Keyed(w: World) {
    && (forall h, q :: h in w.frames && q in FrameMaps.ToMap(KeyedValues(w.frames[h])) ==>
          FrameMaps.ToMap(KeyedValues(w.frames[h]))[q] in w.entries
          && PropOf(w.entries[FrameMaps.ToMap(KeyedValues(w.frames[h]))[q]]) == q)
    && (forall h :: h in w.frames && w.frames[h].BindingFrame? ==>
          w.frames[h].entry in w.entries && w.entries[w.frames[h].entry].Binding?)
  }

  /** From `w` to `w'` only what concerns the properties `ps` changed. */
  ghost predicate ChangedOnly(w: World, w': World, ps: set<PropId>) {
    && w'.frames.Keys == w.frames.Keys
    && (forall h :: h in w.frames ==> SameShape(w.frames[h], w'.frames[h], ps))
    && (forall e :: e in w.entries ==> e in w'.entries && PropOf(w'.entries[e]) == PropOf(w.entries[e]))
    && (forall e :: e in w.entries && PropOf(w.entries[e]) !in ps ==> w'.entries[e] == w.entries[e])
  }

  lemma {:induction false} ChangedOnlyTransitive(w: World, w': World, w'': World, ps: set<PropId>)
    requires ChangedOnly(w, w', ps) && ChangedOnly(w', w'', ps)
    ensures ChangedOnly(w, w'', ps)
  {
    forall h | h in w.frames ensures SameShape(w.frames[h], w''.frames[h], ps) {
      assert SameShape(w.frames[h], w'.frames[h], ps) && SameShape(w'.frames[h], w''.frames[h], ps);
    }
  }

  /** Under a local change a frame offers the same hit for every other
      property. */
  lemma FrameHitOutside(w: World, w': World, ps: set<PropId>, h: FrameId, q: PropId)
    requires Keyed(w) && ChangedOnly(w, w', ps) && q !in ps
    ensures FrameActive(w', h) == FrameActive(w, h)
    ensures FrameHit(w', h, q) == FrameHit(w, h, q)
    ensures FrameHit(w, h, q).Some? ==> FramePriority(w', h) == FramePriority(w, h)
  {
    if h in w.frames {
      assert SameShape(w.frames[h], w'.frames[h], ps);
      var vs := KeyedValues(w.frames[h]);
      var e := FrameMaps.TryGet(vs, q);
      if !w.frames[h].BindingFrame? && e.Some? {
        assert FrameMaps.ToMap(vs)[q] == e.value;
      }
    }
  }

  lemma HitOutside(w: World, w': World, ps: set<PropId>, h: FrameId, q: PropId)
    requires Keyed(w) && ChangedOnly(w, w', ps) && q !in ps
    ensures C.HitOf(LayerOf(w', h), q) == C.HitOf(LayerOf(w, h), q)
  {
    FrameHitOutside(w, w', ps, h, q);
    HitOfFrame(w, h, q);
    HitOfFrame(w', h, q);
  }

  /** Walks along parents that agree give the same chain. */
  lemma {:induction false} ChainFromSameParents(frames: map<FrameId, Frame>, frames': map<FrameId, Frame>,
                                                f: Option<FrameId>, visited: set<FrameId>)
    requires frames'.Keys == frames.Keys
    requires forall g :: g in frames ==> frames'[g].InheritFrame? == frames[g].InheritFrame?
    requires forall g :: g in frames && frames[g].InheritFrame? ==> frames'[g].parent == frames[g].parent
    ensures ChainFrom(frames', f, visited) == ChainFrom(frames, f, visited)
    decreases frames.Keys - visited
  {
    if f.Some? && f.value in frames && f.value !in visited && frames[f.value].InheritFrame? {
      ChainFromSameParents(frames, frames', frames[f.value].parent, visited + {f.value});
    }
  }

  lemma ChainIdsOutside(w: World, w': World, o: ObjId, ps: set<PropId>)
    requires o in w.stores && o in w'.stores && w'.stores[o].inheritance == w.stores[o].inheritance
    requires ChangedOnly(w, w', ps)
    ensures ChainStart(w', o) == ChainStart(w, o)
    ensures ChainIds(w', o) == ChainIds(w, o)
  {
    forall g | g in w.frames ensures w'.frames[g].InheritFrame? == w.frames[g].InheritFrame?
      && (w.frames[g].InheritFrame? ==> w'.frames[g].parent == w.frames[g].parent && w'.frames[g].owner == w.frames[g].owner)
    {
      assert SameShape(w.frames[g], w'.frames[g], ps);
    }
    ChainFromSameParents(w.frames, w'.frames, ChainStart(w, o), {});
  }

  /** Frame lists whose frames offer the same hits scan alike. */
  lemma LayersOutside(w: World, w': World, fs: seq<FrameId>, q: PropId)
    requires forall h :: h in fs ==> C.HitOf(LayerOf(w', h), q) == C.HitOf(LayerOf(w, h), q)
    ensures C.ScanLayers(Layers(w', fs), q) == C.ScanLayers(Layers(w, fs), q)
  {
    var ls, ls' := Layers(w, fs), Layers(w', fs);
    forall i | 0 <= i < |ls| ensures C.HitOf(ls[i], q) == C.HitOf(ls'[i], q) {
      assert fs[i] in fs;
    }
    C.ScanPointwise(ls, ls', q);
  }

  /** Chains whose frames offer the same entries scan alike. */
  lemma ChainOutside(w: World, w': World, ids: seq<FrameId>, q: PropId)
    requires forall k :: 0 <= k < |ids| ==> ids[k] in w.frames && w.frames[ids[k]].InheritFrame?
    requires forall h :: h in ids ==> C.HitOf(LayerOf(w', h), q) == C.HitOf(LayerOf(w, h), q)
    requires forall h :: h in ids ==> FrameActive(w', h)
    ensures C.ScanChain(ChainCandidates(w', ids), q) == C.ScanChain(ChainCandidates(w, ids), q)
  {
    var ch, ch' := ChainCandidates(w, ids), ChainCandidates(w', ids);
    forall k | 0 <= k < |ids| ensures C.FirstPresent(ch[k], q) == C.FirstPresent(ch'[k], q) {
      assert ids[k] in ids;
    }
    C.ChainPointwise(ch, ch', q);
  }

  /** A change local to `ps` keeps the evaluation of every other property of
      a store whose frame list and inheritance frame stay. */
  lemma EvaluateOutside(w: World, w': World, o: ObjId, ps: set<PropId>, q: PropId)
    requires o in w.stores && o in w'.stores && w'.props == w.props
    requires w'.stores[o].frames == w.stores[o].frames && w'.stores[o].inheritance == w.stores[o].inheritance
    requires Keyed(w) && ChangedOnly(w, w', ps) && q !in ps
    ensures Evaluate(w', o, q) == Evaluate(w, o, q)
  {
    forall h ensures C.HitOf(LayerOf(w', h), q) == C.HitOf(LayerOf(w, h), q) {
      HitOutside(w, w', ps, h, q);
    }
    LayersOutside(w, w', w.stores[o].frames, q);
    ChainIdsOutside(w, w', o, ps);
    var ids := ChainIds(w, o);
    forall h | h in ids ensures FrameActive(w', h) {
      FrameHitOutside(w, w', ps, h, q);
    }
    ChainOutside(w, w', ids, q);
  }

  lemma {:induction false} MapCandidatesSame(w: World, w': World, m: seq<FrameMaps.Slot<EntryId>>)
    requires w'.entries == w.entries
    ensures MapCandidates(w', m) == MapCandidates(w, m)
  {
    if |m| > 0 { MapCandidatesSame(w, w', m[1..]); }
  }

  /** Nothing the evaluation reads changed. */
  lemma SameReads(w: World, w': World, o: ObjId)
    requires o in w.stores && o in w'.stores && w'.props == w.props
    requires w'.stores[o].frames == w.stores[o].frames && w'.stores[o].inheritance == w.stores[o].inheritance
    requires w'.frames == w.frames && w'.entries == w.entries
    ensures forall q :: Evaluate(w', o, q) == Evaluate(w, o, q)
  {
    forall h ensures LayerOf(w', h) == LayerOf(w, h) {
      if h in w.frames { MapCandidatesSame(w, w', KeyedValues(w.frames[h])); }
    }
    var fs := w.stores[o].frames;
    assert Layers(w', fs) == Layers(w, fs);
    var ids := ChainIds(w, o);
    assert ChainCandidates(w', ids) == ChainCandidates(w, ids) by {
      forall k | 0 <= k < |ids| ensures Candidates(w', ids[k]) == Candidates(w, ids[k]) {
        if ids[k] in w.frames { MapCandidatesSame(w, w', KeyedValues(w.frames[ids[k]])); }
      }
    }
  }
}
