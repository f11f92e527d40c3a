/**
 * A store's frames and inheritance chain as the cascade scans them, and the
 * effective-value cache invariant. `Evaluate` is `EvaluateEffectiveValue`;
 * `Consistent` is "the cache maps every property to exactly the entry
 * `Evaluate` picks, and holds no other property".
 */
module Evaluation {
  import opened Base
  import FrameMaps
  import C = Cascade
  import opened Arena
  import Properties
  import SI = StyleInstances
  import SB = SetterBindings

  /** The candidates of an id-keyed frame, in storage order. */
  function MapCandidates(w: World, m: seq<FrameMaps.Slot<EntryId>>): (r: seq<C.Candidate>)
    ensures |r| == |m|
    ensures forall j :: 0 <= j < |m| ==> r[j] == C.Candidate(m[j].key, Present(w, m[j].entry), m[j].entry)
  {
    if |m| == 0 then []
    else [C.Candidate(m[0].key, Present(w, m[0].entry), m[0].entry)] + MapCandidates(w, m[1..])
  }

  /** A frame's candidates: a binding frame offers its single entry under the
      entry's own property. */
  function Candidates(w: World, f: FrameId): seq<C.Candidate> {
    if f !in w.frames then []
    else match w.frames[f]
      case BindingFrame(e) => if e in w.entries then [C.Candidate(PropOf(w.entries[e]), Present(w, e), e)] else []
      case _ => MapCandidates(w, KeyedValues(w.frames[f]))
  }

  function LayerOf(w: World, f: FrameId): C.Layer {
    C.Layer(FramePriority(w, f), FrameActive(w, f), Candidates(w, f))
  }

  function Layers(w: World, fs: seq<FrameId>): (r: seq<C.Layer>)
    ensures |r| == |fs|
    ensures forall i :: 0 <= i < |fs| ==> r[i] == LayerOf(w, fs[i])
  {
    if |fs| == 0 then [] else Layers(w, fs[..|fs| - 1]) + [LayerOf(w, fs[|fs| - 1])]
  }

  /** Where the store's walk up the inheritance chain starts: its frame, or
      that frame's parent when the store owns it (an owned frame is already
      among the store's own frames). */
  function ChainStart(w: World, o: ObjId): Option<FrameId>
    requires o in w.stores
  {
    var f := w.stores[o].inheritance;
    if f.Some? && f.value in w.frames && w.frames[f.value].InheritFrame? && w.frames[f.value].owner == o
    then w.frames[f.value].parent
    else f
  }

  function ChainIds(w: World, o: ObjId): seq<FrameId>
    requires o in w.stores
  {
    ChainFrom(w.frames, ChainStart(w, o), {})
  }

  function ChainCandidates(w: World, ids: seq<FrameId>): (r: seq<seq<C.Candidate>>)
    ensures |r| == |ids|
    ensures forall k :: 0 <= k < |ids| ==> r[k] == Candidates(w, ids[k])
  {
    if |ids| == 0 then [] else [Candidates(w, ids[0])] + ChainCandidates(w, ids[1..])
  }

  function StoreLayers(w: World, o: ObjId): seq<C.Layer>
    requires o in w.stores
  {
    Layers(w, w.stores[o].frames)
  }

  function StoreChain(w: World, o: ObjId): seq<seq<C.Candidate>>
    requires o in w.stores
  {
    ChainCandidates(w, ChainIds(w, o))
  }

  /** `EvaluateEffectiveValue` on store `o`. */
  function Evaluate(w: World, o: ObjId, p: PropId): Option<C.Winner>
    requires o in w.stores
  {
    C.Evaluate(StoreLayers(w, o), StoreChain(w, o), p, Inherits(w, p))
  }

  /** The cache agrees with evaluation for `p`. */
  predicate CacheAgrees(w: World, o: ObjId, p: PropId)
    requires o in w.stores
  {
    var ev := Evaluate(w, o, p);
    FrameMaps.TryGet(w.stores[o].cache, p) == (if ev.Some? then Some(ev.value.entry) else None)
  }

  ghost predicate Consistent(w: World, o: ObjId)
    requires o in w.stores
  {
    forall p :: CacheAgrees(w, o, p)
  }

  // ---------------------------------------------------------------------------
  // Reading a frame for one property

  /** What an id-keyed frame offers for `p`: its entry under `p`, if present. */
  function MapHit(w: World, m: FrameMaps.FrameMap<EntryId>, p: PropId): Option<EntryId> {
    var e := FrameMaps.TryGet(m, p);
    if e.Some? && Present(w, e.value) then e else None
  }

  lemma {:induction false} FirstPresentOfMap(w: World, m: FrameMaps.FrameMap<EntryId>, p: PropId)
    ensures C.FirstPresent(MapCandidates(w, m), p) == MapHit(w, m, p)
  {
    if |m| > 0 {
      var tail: FrameMaps.FrameMap<EntryId> := m[1..];
      FirstPresentOfMap(w, tail, p);
      assert MapCandidates(w, m)[1..] == MapCandidates(w, tail);
      if m[0].key == p {
        FrameMaps.HeadBelowTail(m);
        assert FrameMaps.TryGet(tail, p).None?;
      }
    }
  }

  /** What frame `f` offers for `p`, read off the arena directly. */
  function FrameHit(w: World, f: FrameId, p: PropId): (r: Option<EntryId>)
    ensures r.Some? ==> Present(w, r.value)
  {
    if f !in w.frames then None
    else match w.frames[f]
      case BindingFrame(e) => if e in w.entries && PropOf(w.entries[e]) == p && Present(w, e) then Some(e) else None
      case _ => MapHit(w, KeyedValues(w.frames[f]), p)
  }

  lemma FirstPresentOfFrame(w: World, f: FrameId, p: PropId)
    ensures C.FirstPresent(Candidates(w, f), p) == FrameHit(w, f, p)
    ensures C.FirstPresent(Candidates(w, f), p).Some? ==> Present(w, C.FirstPresent(Candidates(w, f), p).value)
  {
    if f in w.frames && !w.frames[f].BindingFrame? {
      FirstPresentOfMap(w, KeyedValues(w.frames[f]), p);
    }
  }

  /** The hit the scan sees at frame `f`, in the arena's own terms. */
  lemma HitOfFrame(w: World, f: FrameId, p: PropId)
    ensures C.HitOf(LayerOf(w, f), p) ==
      (if FrameActive(w, f) && FrameHit(w, f, p).Some? then Some(C.Winner(FrameHit(w, f, p).value, FramePriority(w, f))) else None)
  {
    FirstPresentOfFrame(w, f, p);
  }

  /** The entry frame `f` holds for `p`, whether or not it has a value: the
      one entry `value.Property == property` matches in the frame. */
  function FrameEntry(w: World, f: FrameId, p: PropId): (r: Option<EntryId>)
    ensures FrameHit(w, f, p).Some? ==> r == FrameHit(w, f, p)
    ensures r.Some? && Present(w, r.value) ==> FrameHit(w, f, p) == r
  {
    if f !in w.frames then None
    else match w.frames[f]
      case BindingFrame(e) => if e in w.entries && PropOf(w.entries[e]) == p then Some(e) else None
      case _ => FrameMaps.TryGet(KeyedValues(w.frames[f]), p)
  }

  // ---------------------------------------------------------------------------
  // The frame loop with `HasValue` as written

  /** `EvaluateEffectiveValue`'s frame loop with `Arena.HasValueAsWritten`:
      from the strongest frame down, the first active frame whose entry for
      `p` claims a value. */
  function ScanAsWritten(w: World, fs: seq<FrameId>, p: PropId): (r: Option<C.Winner>)
    ensures r.Some? ==> r.value.entry in w.entries && HasValueAsWritten(w.entries[r.value.entry])
    ensures r.Some? ==> exists i :: 0 <= i < |fs| && FrameActive(w, fs[i]) && FrameEntry(w, fs[i], p) == Some(r.value.entry)
    decreases |fs|
  {
    if |fs| == 0 then None
    else
      var n := |fs| - 1;
      var e := FrameEntry(w, fs[n], p);
      if FrameActive(w, fs[n]) && e.Some? && e.value in w.entries && HasValueAsWritten(w.entries[e.value]) then
        Some(C.Winner(e.value, FramePriority(w, fs[n])))
      else
        assert forall i :: 0 <= i < n ==> fs[..n][i] == fs[i];
        ScanAsWritten(w, fs[..n], p)
  }

  /** One frame's step of the loop as written matches its cascade hit when
      the entry it holds for `p` reads the same both ways. */
  lemma FrameAsWritten(w: World, f: FrameId, p: PropId)
    requires forall e :: e in w.entries ==> HasValueAsWritten(w.entries[e]) == HasValue(w.entries[e])
    ensures var e := FrameEntry(w, f, p);
      C.HitOf(LayerOf(w, f), p)
      == if FrameActive(w, f) && e.Some? && e.value in w.entries && HasValueAsWritten(w.entries[e.value])
         then Some(C.Winner(e.value, FramePriority(w, f))) else None
  {
    HitOfFrame(w, f, p);
    var e := FrameEntry(w, f, p);
    if e.Some? && e.value in w.entries {
      assert HasValueAsWritten(w.entries[e.value]) == Present(w, e.value);
    }
  }

  /** Where no entry's `HasValue` as written differs from the corrected one,
      the loop as written picks the cascade's winner. */
  lemma {:induction false} ScanAsWrittenAgrees(w: World, fs: seq<FrameId>, p: PropId)
    requires forall e :: e in w.entries ==> HasValueAsWritten(w.entries[e]) == HasValue(w.entries[e])
    ensures ScanAsWritten(w, fs, p) == C.ScanLayers(Layers(w, fs), p)
    decreases |fs|
  {
    if |fs| > 0 {
      var n := |fs| - 1;
      ScanAsWrittenAgrees(w, fs[..n], p);
      var ls := Layers(w, fs);
      assert ls[..n] == Layers(w, fs[..n]);
      assert ls[n] == LayerOf(w, fs[n]);
      FrameAsWritten(w, fs[n], p);
      assert C.ScanLayers(ls, p) == if C.HitOf(ls[n], p).Some? then C.HitOf(ls[n], p) else C.ScanLayers(ls[..n], p);
    }
  }

  /** A store with an unconditional style setting property 0 to 2 and, above
      it, an active trigger style whose setter binding has completed. */
  function FinishedTriggerWorld(): (w: World)
    ensures 0 in w.stores && w.stores[0].frames == [1, 2]
  {
    World(map[], Properties.TypeHierarchy(map[], map[]), map[],
          map[0 := Store(0, [1, 2], None, None, [], 0)],
          map[1 := StyleFrame(SI.StyleInstance(None, false, true, Style, Some(0), [FrameMaps.Slot(0, 10)])),
              2 := StyleFrame(SI.StyleInstance(Some(5), true, true, StyleTrigger, Some(0), [FrameMaps.Slot(0, 11)]))],
          map[10 := Constant(0, Val(2)), 11 := SetterBinding(SB.SetterBinding(0, 3, true, FinishedValue))], 12)
  }

  /** As written, the finished setter binding wins the scan and the store
      reads `default` for property 0; with the corrected `HasValue` the
      style's 2 wins. */
  lemma FinishedSetterShadowsStyle()
    ensures var w := FinishedTriggerWorld();
      && ScanAsWritten(w, w.stores[0].frames, 0) == Some(C.Winner(11, StyleTrigger)) && Read(w, 11) == Boxed(Null)
      && Evaluate(w, 0, 0) == Some(C.Winner(10, Style)) && Read(w, 10) == Boxed(Val(2))
  {
    var w := FinishedTriggerWorld();
    HitOfFrame(w, 2, 0);
    HitOfFrame(w, 1, 0);
    assert Layers(w, [1, 2])[..1] == Layers(w, [1]);
  }
}
