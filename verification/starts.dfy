/**
 * Lazy starts. Reading an entry's `HasValue` starts it: a binding entry
 * subscribes to its source, a style setter's binding instance initiates its
 * binding. Reading a style instance's `IsActive` subscribes to its activator,
 * once. A scan therefore changes the arena, but only in ways that no later
 * read can see. Each scan lists what it reads, in order, as `Touch`es, and
 * `Perform` carries out the starts those reads make.
 */
module Starts {
  import opened Base
  import opened Effects
  import FrameMaps
  import C = Cascade
  import B = BindingEntries
  import SB = SetterBindings
  import SI = StyleInstances
  import opened Arena
  import opened Evaluation
  import Locality

  /** One read a scan makes: a frame's `IsActive`, or an entry's `HasValue`. */
  datatype Touch = ReadsActivity(frame: FrameId) | ReadsValue(entry: EntryId)

  // ---------------------------------------------------------------------------
  // Starting one entry

  /** The entry has made the call its first read makes. */
  predicate Started(x: Entry) {
    match x
    case Binding(be) => !be.subscription.NotSubscribed?
    case SetterBinding(sb) => sb.instanced
    case _ => true
  }

  /** An entry with its start forgotten. */
  function Erase(x: Entry): (r: Entry)
    ensures PropOf(r) == PropOf(x) && HasValue(r) == HasValue(x) && ReadObject(r) == ReadObject(x)
    ensures r.Binding? == x.Binding? && (x.Binding? ==> r.binding.priority == x.binding.priority)
    ensures r.Local? == x.Local? && (x.Local? ==> r == x)
  {
    match x
    case Binding(be) => Binding(be.(subscription := B.NotSubscribed))
    case SetterBinding(sb) => SetterBinding(sb.(instanced := false))
    case _ => x
  }

  /** A frame with its activator subscription forgotten. */
  function EraseFrame(fr: Frame): (r: Frame)
    ensures r.StyleFrame? == fr.StyleFrame? && (!fr.StyleFrame? ==> r == fr)
    ensures fr.StyleFrame? ==>
      r.instance.active == fr.instance.active && r.instance.priority == fr.instance.priority
      && r.instance.values == fr.instance.values
  {
    match fr
    case StyleFrame(si) => StyleFrame(si.(subscribed := false))
    case _ => fr
  }

  /** `HasValue`'s start: `BindingEntry.StartIfNecessary`, whose `Subscribe`
      call then returns, or `SetterBindingInstance.StartIfNecessary` against
      the store the style instance was added to. Other entries start nothing. */
  function StartEntry(x: Entry): (r: (Entry, seq<Effect>))
    ensures Started(r.0) && Erase(r.0) == Erase(x)
    ensures Started(x) ==> r == (x, [])
    ensures !Started(x) && x.Binding? ==>
      r.0.binding.subscription.Live? && r.1 == [Subscribe(x.binding.source)]
    ensures !Started(x) && x.SetterBinding? ==> r.1 == [InitiateBinding(x.instance.binding)]
  {
    match x
    case Binding(be) =>
      var (be1, fx) := B.StartIfNecessary(be);
      (Binding(if be.subscription.NotSubscribed? then B.SubscribeReturned(be1) else be1), fx)
    case SetterBinding(sb) =>
      var (sb1, fx) := SB.Start(sb, true).value;
      (SetterBinding(sb1), fx)
    case _ => (x, [])
  }

  // ---------------------------------------------------------------------------
  // Worlds that differ by starts only

  /** `w'` is `w` with some entries started and some activators subscribed. */
  ghost predicate StartsOnly(w: World, w': World) {
    && w'.props == w.props && w'.types == w.types && w'.tree == w.tree && w'.next == w.next
    && w'.frames.Keys == w.frames.Keys && w'.entries.Keys == w.entries.Keys
    && (forall h :: h in w.frames ==> EraseFrame(w'.frames[h]) == EraseFrame(w.frames[h]))
    && (forall e :: e in w.entries ==> Erase(w'.entries[e]) == Erase(w.entries[e]))
  }

  lemma StartsOnlyTransitive(w: World, w1: World, w2: World)
    requires StartsOnly(w, w1) && StartsOnly(w1, w2)
    ensures StartsOnly(w, w2)
  {
  }

  /** An entry reads the same once started. */
  lemma EntryAlike(x: Entry, y: Entry)
    requires Erase(y) == Erase(x)
    ensures PropOf(y) == PropOf(x) && HasValue(y) == HasValue(x) && ReadObject(y) == ReadObject(x)
    ensures y.Binding? == x.Binding? && (x.Binding? ==> y.binding.priority == x.binding.priority)
    ensures y.Local? == x.Local? && (x.Local? ==> y == x)
    ensures y.Constant? == x.Constant? && y.SetterBinding? == x.SetterBinding?
  {
  }

  /** A frame reads the same once its activator is subscribed. */
  lemma FrameAlike(fr: Frame, fr': Frame)
    requires EraseFrame(fr') == EraseFrame(fr)
    ensures KeyedValues(fr') == KeyedValues(fr) && fr'.BindingFrame? == fr.BindingFrame?
    ensures fr'.InheritFrame? == fr.InheritFrame?
    ensures !fr.StyleFrame? ==> fr' == fr
    ensures fr.StyleFrame? ==>
      fr'.StyleFrame? && fr'.instance.active == fr.instance.active && fr'.instance.priority == fr.instance.priority
  {
  }

  /** Nothing a read sees changes under starts. */
  lemma StartsInvisible(w: World, w': World)
    requires StartsOnly(w, w')
    ensures forall e :: Present(w', e) == Present(w, e)
    ensures forall e :: Read(w', e) == Read(w, e)
    ensures forall e :: e in w.entries ==> ReadTyped(w'.entries[e]) == ReadTyped(w.entries[e])
    ensures forall e :: e in w.entries ==> PropOf(w'.entries[e]) == PropOf(w.entries[e])
    ensures forall e :: e in w.entries ==>
      w'.entries[e].Local? == w.entries[e].Local? && w'.entries[e].Binding? == w.entries[e].Binding?
    ensures forall h :: FramePriority(w', h) == FramePriority(w, h)
    ensures forall h :: FrameActive(w', h) == FrameActive(w, h)
    ensures forall h :: h in w.frames ==> KeyedValues(w'.frames[h]) == KeyedValues(w.frames[h])
    ensures forall h :: h in w.frames ==> w'.frames[h].InheritFrame? == w.frames[h].InheritFrame?
    ensures forall h :: h in w.frames && !w.frames[h].StyleFrame? ==> w'.frames[h] == w.frames[h]
    ensures forall h :: LayerOf(w', h) == LayerOf(w, h)
    ensures forall h, q :: FrameHit(w', h, q) == FrameHit(w, h, q)
  {
    EntriesAlike(w, w');
    FramesAlike(w, w');
    forall h ensures LayerOf(w', h) == LayerOf(w, h) && forall q :: FrameHit(w', h, q) == FrameHit(w, h, q) {
      FrameReadsAlike(w, w', h);
    }
  }

  lemma FrameReadsAlike(w: World, w': World, h: FrameId)
    requires StartsOnly(w, w')
    requires forall e :: Present(w', e) == Present(w, e)
    requires forall e :: e in w.entries ==> PropOf(w'.entries[e]) == PropOf(w.entries[e])
    requires forall h :: FramePriority(w', h) == FramePriority(w, h)
    requires forall h :: FrameActive(w', h) == FrameActive(w, h)
    ensures Candidates(w', h) == Candidates(w, h)
    ensures LayerOf(w', h) == LayerOf(w, h)
    ensures forall q :: FrameHit(w', h, q) == FrameHit(w, h, q)
  {
    if h in w.frames {
      FrameAlike(w.frames[h], w'.frames[h]);
      if !w.frames[h].BindingFrame? {
        MapCandidatesAlike(w, w', KeyedValues(w.frames[h]));
      }
    }
  }

  lemma EntriesAlike(w: World, w': World)
    requires StartsOnly(w, w')
    ensures forall e :: Present(w', e) == Present(w, e)
    ensures forall e :: Read(w', e) == Read(w, e)
    ensures forall e :: e in w.entries ==> ReadTyped(w'.entries[e]) == ReadTyped(w.entries[e])
    ensures forall e :: e in w.entries ==> PropOf(w'.entries[e]) == PropOf(w.entries[e])
    ensures forall e :: e in w.entries ==>
      w'.entries[e].Binding? == w.entries[e].Binding?
      && (w.entries[e].Binding? ==> w'.entries[e].binding.priority == w.entries[e].binding.priority)
    ensures forall e :: e in w.entries ==> w'.entries[e].Local? == w.entries[e].Local?
  {
    forall e | e in w.entries
      ensures ReadObject(w'.entries[e]) == ReadObject(w.entries[e]) && HasValue(w'.entries[e]) == HasValue(w.entries[e])
      ensures PropOf(w'.entries[e]) == PropOf(w.entries[e])
      ensures w'.entries[e].Binding? == w.entries[e].Binding?
      ensures w.entries[e].Binding? ==> w'.entries[e].binding.priority == w.entries[e].binding.priority
      ensures w'.entries[e].Local? == w.entries[e].Local?
    {
      EntryAlike(w.entries[e], w'.entries[e]);
    }
  }

  lemma FramesAlike(w: World, w': World)
    requires StartsOnly(w, w')
    ensures forall h :: FramePriority(w', h) == FramePriority(w, h)
    ensures forall h :: FrameActive(w', h) == FrameActive(w, h)
    ensures forall h :: h in w.frames ==> KeyedValues(w'.frames[h]) == KeyedValues(w.frames[h])
    ensures forall h :: h in w.frames ==> w'.frames[h].InheritFrame? == w.frames[h].InheritFrame?
    ensures forall h :: h in w.frames && !w.frames[h].StyleFrame? ==> w'.frames[h] == w.frames[h]
  {
    forall h | h in w.frames
      ensures KeyedValues(w'.frames[h]) == KeyedValues(w.frames[h]) && w'.frames[h].InheritFrame? == w.frames[h].InheritFrame?
      ensures !w.frames[h].StyleFrame? ==> w'.frames[h] == w.frames[h]
      ensures FrameActive(w', h) == FrameActive(w, h)
    {
      FrameAlike(w.frames[h], w'.frames[h]);
    }
    forall h ensures FramePriority(w', h) == FramePriority(w, h) {
      if h in w.frames {
        FrameAlike(w.frames[h], w'.frames[h]);
        if w.frames[h].BindingFrame? {
          var e := w.frames[h].entry;
          if e in w.entries { EntryAlike(w.entries[e], w'.entries[e]); }
        }
      }
    }
  }

  lemma MapHitAlike(w: World, w': World, m: FrameMaps.FrameMap<EntryId>, q: PropId)
    requires forall e :: Present(w', e) == Present(w, e)
    ensures MapHit(w', m, q) == MapHit(w, m, q)
  {
  }

  lemma {:induction false} MapCandidatesAlike(w: World, w': World, m: seq<FrameMaps.Slot<EntryId>>)
    requires forall e :: Present(w', e) == Present(w, e)
    ensures MapCandidates(w', m) == MapCandidates(w, m)
  {
    if |m| > 0 { MapCandidatesAlike(w, w', m[1..]); }
  }

  /** Starting entries changes no store's evaluation. */
  lemma StartsKeepEvaluation(w: World, w': World, o: ObjId)
    requires StartsOnly(w, w') && o in w.stores && o in w'.stores
    requires w'.stores[o].frames == w.stores[o].frames && w'.stores[o].inheritance == w.stores[o].inheritance
    ensures ChainIds(w', o) == ChainIds(w, o)
    ensures StoreLayers(w', o) == StoreLayers(w, o) && StoreChain(w', o) == StoreChain(w, o)
    ensures forall q :: Evaluate(w', o, q) == Evaluate(w, o, q)
  {
    StartsKeepChain(w, w', o);
    StartsKeepLayers(w, w', o);
  }

  /** Starts leave the inheritance chain and what it offers alone. */
  lemma StartsKeepChain(w: World, w': World, o: ObjId)
    requires StartsOnly(w, w') && o in w.stores && o in w'.stores
    requires w'.stores[o].inheritance == w.stores[o].inheritance
    ensures ChainIds(w', o) == ChainIds(w, o) && StoreChain(w', o) == StoreChain(w, o)
  {
    StartsInvisible(w, w');
    assert ChainStart(w', o) == ChainStart(w, o);
    forall g | g in w.frames ensures w'.frames[g].InheritFrame? == w.frames[g].InheritFrame? {
      assert EraseFrame(w'.frames[g]) == EraseFrame(w.frames[g]);
    }
    Locality.ChainFromSameParents(w.frames, w'.frames, ChainStart(w, o), {});
    var ids := ChainIds(w, o);
    assert ChainCandidates(w', ids) == ChainCandidates(w, ids) by {
      forall k | 0 <= k < |ids| ensures Candidates(w', ids[k]) == Candidates(w, ids[k]) {
        assert LayerOf(w', ids[k]) == LayerOf(w, ids[k]);
      }
    }
  }

  /** Starts leave every frame layer of the store alone. */
  lemma StartsKeepLayers(w: World, w': World, o: ObjId)
    requires StartsOnly(w, w') && o in w.stores && o in w'.stores
    requires w'.stores[o].frames == w.stores[o].frames
    ensures StoreLayers(w', o) == StoreLayers(w, o)
  {
    StartsInvisible(w, w');
    assert Layers(w', w.stores[o].frames) == Layers(w, w.stores[o].frames);
  }

  // ---------------------------------------------------------------------------
  // Carrying out the reads

  /** One read, with the start it makes. */
  function TouchOne(w: World, t: Touch): (r: (World, seq<Effect>))
    ensures r.0.stores == w.stores && r.0.entries.Keys == w.entries.Keys && r.0.frames.Keys == w.frames.Keys
  {
    match t
    case ReadsActivity(f) =>
      if f in w.frames && w.frames[f].StyleFrame? then
        var (_, si, fx) := SI.ReadActive(w.frames[f].instance);
        (w.(frames := w.frames[f := StyleFrame(si)]), fx)
      else (w, [])
    case ReadsValue(e) =>
      if e in w.entries then
        var (x, fx) := StartEntry(w.entries[e]);
        (w.(entries := w.entries[e := x]), fx)
      else (w, [])
  }

  /** The reads of a scan, in order, with every call they make. */
  function Perform(w: World, ts: seq<Touch>): (r: (World, seq<Effect>))
    ensures r.0.stores == w.stores && r.0.entries.Keys == w.entries.Keys && r.0.frames.Keys == w.frames.Keys
    decreases |ts|
  {
    if |ts| == 0 then (w, [])
    else
      var (w1, fx1) := TouchOne(w, ts[0]);
      var (w2, fx2) := Perform(w1, ts[1..]);
      (w2, fx1 + fx2)
  }

  lemma TouchOneStartsOnly(w: World, t: Touch)
    ensures StartsOnly(w, TouchOne(w, t).0)
  {
    var w1 := TouchOne(w, t).0;
    match t
    case ReadsActivity(f) =>
      if f in w.frames && w.frames[f].StyleFrame? {
        var si := w.frames[f].instance;
        assert w1.frames == w.frames[f := StyleFrame(SI.ReadActive(si).1)] && w1.entries == w.entries;
        assert EraseFrame(StyleFrame(SI.ReadActive(si).1)) == EraseFrame(w.frames[f]);
      } else {
        assert w1 == w;
      }
    case ReadsValue(e) =>
      if e in w.entries {
        assert w1.entries == w.entries[e := StartEntry(w.entries[e]).0] && w1.frames == w.frames;
      } else {
        assert w1 == w;
      }
  }

  /** Reads start entries and subscribe activators, and change nothing else. */
  lemma {:induction false} PerformStartsOnly(w: World, ts: seq<Touch>)
    ensures StartsOnly(w, Perform(w, ts).0)
    decreases |ts|
  {
    if |ts| > 0 {
      var w1 := TouchOne(w, ts[0]).0;
      TouchOneStartsOnly(w, ts[0]);
      PerformStartsOnly(w1, ts[1..]);
      StartsOnlyTransitive(w, w1, Perform(w1, ts[1..]).0);
    }
  }

  /** Reads change no store's evaluation. */
  lemma PerformKeepsEvaluation(w: World, ts: seq<Touch>, o: ObjId)
    requires o in w.stores
    ensures StartsOnly(w, Perform(w, ts).0)
    ensures StoreLayers(Perform(w, ts).0, o) == StoreLayers(w, o) && StoreChain(Perform(w, ts).0, o) == StoreChain(w, o)
    ensures forall q :: Evaluate(Perform(w, ts).0, o, q) == Evaluate(w, o, q)
  {
    PerformStartsOnly(w, ts);
    StartsKeepEvaluation(w, Perform(w, ts).0, o);
  }

  /** An entry ends up started exactly when some read touched its value, and
      it is started once, however often it is read. */
  lemma {:induction false} PerformEntry(w: World, ts: seq<Touch>, e: EntryId)
    requires e in w.entries
    ensures Perform(w, ts).0.entries[e] ==
      if ReadsValue(e) in ts then StartEntry(w.entries[e]).0 else w.entries[e]
    decreases |ts|
  {
    if |ts| > 0 {
      var w1 := TouchOne(w, ts[0]).0;
      assert Perform(w, ts).0 == Perform(w1, ts[1..]).0;
      TouchOneEntry(w, ts[0], e);
      PerformEntry(w1, ts[1..], e);
      assert ReadsValue(e) in ts <==> ts[0] == ReadsValue(e) || ReadsValue(e) in ts[1..] by {
        assert ts == [ts[0]] + ts[1..];
      }
    }
  }

  /** One read starts the entry it reads and leaves every other alone. */
  lemma TouchOneEntry(w: World, t: Touch, e: EntryId)
    requires e in w.entries
    ensures TouchOne(w, t).0.entries[e] == if t == ReadsValue(e) then StartEntry(w.entries[e]).0 else w.entries[e]
  {
  }

  /** A style frame ends up subscribed to its activator exactly when some read
      touched its activity; no other frame changes. */
  lemma {:induction false} PerformFrame(w: World, ts: seq<Touch>, f: FrameId)
    requires f in w.frames
    ensures Perform(w, ts).0.frames[f] ==
      if ReadsActivity(f) in ts && w.frames[f].StyleFrame? then StyleFrame(SI.ReadActive(w.frames[f].instance).1)
      else w.frames[f]
    decreases |ts|
  {
    if |ts| > 0 {
      var w1 := TouchOne(w, ts[0]).0;
      assert Perform(w, ts).0 == Perform(w1, ts[1..]).0;
      TouchOneFrame(w, ts[0], f);
      PerformFrame(w1, ts[1..], f);
      assert ReadsActivity(f) in ts <==> ts[0] == ReadsActivity(f) || ReadsActivity(f) in ts[1..] by {
        assert ts == [ts[0]] + ts[1..];
      }
      if w.frames[f].StyleFrame? { SI.SubscribesOnce(w.frames[f].instance); }
    }
  }

  /** One read subscribes the activator of the style frame it reads and
      leaves every other frame alone. */
  lemma TouchOneFrame(w: World, t: Touch, f: FrameId)
    requires f in w.frames
    ensures TouchOne(w, t).0.frames[f] ==
      if t == ReadsActivity(f) && w.frames[f].StyleFrame? then StyleFrame(SI.ReadActive(w.frames[f].instance).1)
      else w.frames[f]
  {
  }

  /** A binding entry still waiting to subscribe to `s`. */
  predicate Pending(w: World, e: EntryId, s: SourceId) {
    e in w.entries && w.entries[e].Binding? && w.entries[e].binding.subscription.NotSubscribed?
    && w.entries[e].binding.source == s
  }

  /** The entries the reads touch that are waiting to subscribe to `s`. */
  function Waiting(w: World, ts: seq<Touch>, s: SourceId): set<EntryId> {
    set t | t in ts && t.ReadsValue? && Pending(w, t.entry, s) :: t.entry
  }

  /** With one entry waiting to subscribe, the reads subscribe it when they
      touch it. */
  lemma WaitingOnly(w: World, ts: seq<Touch>, s: SourceId, x: EntryId)
    requires forall y :: Pending(w, y, s) <==> y == x
    ensures Waiting(w, ts, s) == if ReadsValue(x) in ts then {x} else {}
  {
  }

  lemma WaitingCons(w: World, t: Touch, rest: seq<Touch>, s: SourceId)
    ensures Waiting(w, [t] + rest, s) ==
      (if t.ReadsValue? && Pending(w, t.entry, s) then {t.entry} else {}) + Waiting(w, rest, s)
  {
    var ts := [t] + rest;
    assert forall x :: x in ts <==> x == t || x in rest;
  }

  /** Waiting sets over arenas that agree on every entry but `ex`, which the
      second arena has started. */
  lemma WaitingExcept(w: World, w1: World, rest: seq<Touch>, s: SourceId, ex: EntryId)
    requires forall x :: x != ex ==> Pending(w1, x, s) == Pending(w, x, s)
    requires !Pending(w1, ex, s)
    ensures Waiting(w1, rest, s) == Waiting(w, rest, s) - {ex}
  {
  }

  /** One read calls `Subscribe(s)` once if it reads a waiting entry of `s`,
      which is then no longer waiting, and otherwise not at all. */
  lemma TouchOneSubscribes(w: World, t: Touch, s: SourceId)
    ensures var (w1, fx1) := TouchOne(w, t);
      && multiset(fx1)[Subscribe(s)] == (if t.ReadsValue? && Pending(w, t.entry, s) then 1 else 0)
      && (forall x :: !(t.ReadsValue? && x == t.entry) ==> Pending(w1, x, s) == Pending(w, x, s))
      && (t.ReadsValue? ==> !Pending(w1, t.entry, s))
  {
    if t.ReadsValue? && t.entry in w.entries {
      var x := w.entries[t.entry];
      if x.Binding? && !Started(x) && x.binding.source != s {
        assert StartEntry(x).1 == [Subscribe(x.binding.source)];
      }
    }
  }

  /** The first read takes its entry off the waiting list, if it was on it. */
  lemma WaitingStep(w: World, t: Touch, rest: seq<Touch>, s: SourceId)
    ensures |Waiting(w, [t] + rest, s)| ==
      (if t.ReadsValue? && Pending(w, t.entry, s) then 1 else 0) + |Waiting(TouchOne(w, t).0, rest, s)|
  {
    var w1 := TouchOne(w, t).0;
    TouchOneSubscribes(w, t, s);
    WaitingCons(w, t, rest, s);
    if t.ReadsValue? {
      WaitingExcept(w, w1, rest, s, t.entry);
    } else {
      assert Waiting(w1, rest, s) == Waiting(w, rest, s);
    }
  }

  /** `Subscribe(s)` is called once for every waiting entry read, and never
      for an entry already started. */
  lemma {:induction false} PerformSubscribes(w: World, ts: seq<Touch>, s: SourceId)
    ensures multiset(Perform(w, ts).1)[Subscribe(s)] == |Waiting(w, ts, s)|
    decreases |ts|
  {
    if |ts| == 0 {
      assert Waiting(w, ts, s) == {};
    } else {
      var t := ts[0];
      var (w1, fx1) := TouchOne(w, t);
      var rest := ts[1..];
      var here := if t.ReadsValue? && Pending(w, t.entry, s) then 1 else 0;
      PerformSubscribes(w1, rest, s);
      TouchOneSubscribes(w, t, s);
      assert multiset(Perform(w, ts).1)[Subscribe(s)] == multiset(fx1)[Subscribe(s)] + multiset(Perform(w1, rest).1)[Subscribe(s)] by {
        assert Perform(w, ts).1 == fx1 + Perform(w1, rest).1;
      }
      assert ts == [t] + rest;
      WaitingStep(w, t, rest, s);
    }
  }

  // ---------------------------------------------------------------------------
  // What the scans read

    /** `EvaluateEffectiveValue`'s frame loop: from the strongest frame down,
      every frame's `IsActive`, then in an active frame the `HasValue` of its
      entry for `p`; the first active frame with a value ends the loop. */
  function ScanReads(w: World, fs: seq<FrameId>, p: PropId): seq<Touch>
    decreases |fs|
  {
    if |fs| == 0 then []
    else
      var f := fs[|fs| - 1];
      var e := FrameEntry(w, f, p);
      var here := [ReadsActivity(f)] + (if FrameActive(w, f) && e.Some? then [ReadsValue(e.value)] else []);
      if FrameActive(w, f) && FrameHit(w, f, p).Some? then here
      else here + ScanReads(w, fs[..|fs| - 1], p)
  }

  /** The inheritance walk, nearest frame first: each frame's entry for `p`
      is asked `HasValue` until one has a value. */
  function ChainReads(w: World, ids: seq<FrameId>, p: PropId): seq<Touch>
    decreases |ids|
  {
    if |ids| == 0 then []
    else
      var e := FrameEntry(w, ids[0], p);
      var here := if e.Some? then [ReadsValue(e.value)] else [];
      if FrameHit(w, ids[0], p).Some? then here else here + ChainReads(w, ids[1..], p)
  }

  /** All reads of `EvaluateEffectiveValue`: the walk runs only for an
      inheriting property the frames left without a value. */
  function EvaluateReads(w: World, o: ObjId, p: PropId): seq<Touch>
    requires o in w.stores
  {
    ScanReads(w, w.stores[o].frames, p)
    + (if C.ScanLayers(StoreLayers(w, o), p).None? && Inherits(w, p) then ChainReads(w, ChainIds(w, o), p) else [])
  }

  /** `IsSet`'s loop: every frame, active or not, from the strongest down,
      until one has a value for `p`. */
  function IsSetReads(w: World, fs: seq<FrameId>, p: PropId): seq<Touch>
    decreases |fs|
  {
    if |fs| == 0 then []
    else
      var f := fs[|fs| - 1];
      var e := FrameEntry(w, f, p);
      var here := if e.Some? then [ReadsValue(e.value)] else [];
      if FrameHit(w, f, p).Some? then here else here + IsSetReads(w, fs[..|fs| - 1], p)
  }

  /** One frame of `ReevaluateEffectiveValues`: `HasValue` is asked of every
      entry whose property has no winner yet. */
  function FrameValueReads(acc: seq<C.Assoc>, cs: seq<C.Candidate>, priority: int): seq<Touch>
    decreases |cs|
  {
    if |cs| == 0 then []
    else
      (if C.Lookup(acc, cs[0].prop).None? then [ReadsValue(cs[0].entry)] else [])
      + FrameValueReads(C.Step(acc, cs[0], priority), cs[1..], priority)
  }

  /** The batch pass's frame loop, from the strongest frame down. */
  function BatchFrameReads(w: World, acc: seq<C.Assoc>, fs: seq<FrameId>): seq<Touch>
    decreases |fs|
  {
    if |fs| == 0 then []
    else
      var f := fs[|fs| - 1];
      var l := LayerOf(w, f);
      [ReadsActivity(f)] + (if l.active then FrameValueReads(acc, l.candidates, l.priority) else [])
      + BatchFrameReads(w, if l.active then C.CollectFrame(acc, l.candidates, l.priority) else acc, fs[..|fs| - 1])
  }

  /** The batch pass's inheritance walk, nearest frame first. */
  function BatchChainReads(w: World, acc: seq<C.Assoc>, ids: seq<FrameId>): seq<Touch>
    decreases |ids|
  {
    if |ids| == 0 then []
    else
      FrameValueReads(acc, Candidates(w, ids[0]), Inherited)
      + BatchChainReads(w, C.CollectFrame(acc, Candidates(w, ids[0]), Inherited), ids[1..])
  }

  /** All reads of `ReevaluateEffectiveValues`. */
  function BatchReads(w: World, o: ObjId): seq<Touch>
    requires o in w.stores
  {
    BatchFrameReads(w, [], w.stores[o].frames)
    + BatchChainReads(w, C.CollectLayers([], StoreLayers(w, o)), ChainIds(w, o))
  }

  // ---------------------------------------------------------------------------
  // Which entries the scans start

  /** The scan gets down to position `i`: no active frame above it has a
      value for `p`. */
  ghost predicate Reaches(w: World, fs: seq<FrameId>, i: int, p: PropId) {
    forall j :: 0 <= j < |fs| && i < j ==> !(FrameActive(w, fs[j]) && FrameHit(w, fs[j], p).Some?)
  }

  /** An entry only one active frame holds is read exactly when the scan gets
      down to that frame. */
  lemma {:induction false} ScanReadsAt(w: World, fs: seq<FrameId>, k: int, p: PropId, x: EntryId)
    requires 0 <= k < |fs| && FrameActive(w, fs[k]) && FrameEntry(w, fs[k], p) == Some(x)
    requires forall j :: 0 <= j < |fs| && j != k ==> FrameEntry(w, fs[j], p) != Some(x)
    ensures ReadsValue(x) in ScanReads(w, fs, p) <==> Reaches(w, fs, k, p)
    decreases |fs|
  {
    var n := |fs| - 1;
    var f := fs[n];
    var e := FrameEntry(w, f, p);
    var here := [ReadsActivity(f)] + (if FrameActive(w, f) && e.Some? then [ReadsValue(e.value)] else []);
    ScanReadsUnfold(w, fs, p);
    if k == n {
      assert ReadsValue(x) in here;
    } else {
      assert e != Some(x);
      assert ReadsValue(x) !in here;
      if !(FrameActive(w, f) && FrameHit(w, f, p).Some?) {
        var init := fs[..n];
        forall j | 0 <= j < |init| && j != k ensures FrameEntry(w, init[j], p) != Some(x) {
          assert init[j] == fs[j];
        }
        ScanReadsAt(w, init, k, p, x);
        ReachesStep(w, fs, k, p);
      }
    }
  }

  /** One step of the scan: the strongest frame's reads, then the rest of
      the scan unless that frame supplies the property. */
  lemma ScanReadsUnfold(w: World, fs: seq<FrameId>, p: PropId)
    requires |fs| > 0
    ensures var f := fs[|fs| - 1];
      var e := FrameEntry(w, f, p);
      ScanReads(w, fs, p)
      == [ReadsActivity(f)] + (if FrameActive(w, f) && e.Some? then [ReadsValue(e.value)] else [])
         + (if FrameActive(w, f) && FrameHit(w, f, p).Some? then [] else ScanReads(w, fs[..|fs| - 1], p))
  {
  }

  /** Reaching a frame below the strongest one means passing the strongest. */
  lemma ReachesStep(w: World, fs: seq<FrameId>, k: int, p: PropId)
    requires 0 <= k < |fs| - 1
    requires !(FrameActive(w, fs[|fs| - 1]) && FrameHit(w, fs[|fs| - 1], p).Some?)
    ensures Reaches(w, fs[..|fs| - 1], k, p) <==> Reaches(w, fs, k, p)
  {
    var init := fs[..|fs| - 1];
    assert forall j :: 0 <= j < |init| ==> init[j] == fs[j];
  }

  /** An entry no chain frame holds is never read by the walk. */
  lemma {:induction false} ChainReadsOnly(w: World, ids: seq<FrameId>, p: PropId, x: EntryId)
    requires forall k :: 0 <= k < |ids| ==> FrameEntry(w, ids[k], p) != Some(x)
    ensures ReadsValue(x) !in ChainReads(w, ids, p)
    decreases |ids|
  {
    if |ids| > 0 {
      ChainReadsOnly(w, ids[1..], p, x);
    }
  }

  /** An entry that one active frame of the store holds, and no other frame
      of the store or of the chain, is read by the evaluation exactly when
      the scan gets down to that frame. */
  lemma EvaluateReadsAt(w: World, o: ObjId, p: PropId, k: int, x: EntryId)
    requires o in w.stores && 0 <= k < |w.stores[o].frames|
    requires FrameActive(w, w.stores[o].frames[k]) && FrameEntry(w, w.stores[o].frames[k], p) == Some(x)
    requires forall j :: 0 <= j < |w.stores[o].frames| && j != k ==> FrameEntry(w, w.stores[o].frames[j], p) != Some(x)
    requires forall j :: 0 <= j < |ChainIds(w, o)| ==> FrameEntry(w, ChainIds(w, o)[j], p) != Some(x)
    ensures ReadsValue(x) in EvaluateReads(w, o, p) <==> Reaches(w, w.stores[o].frames, k, p)
  {
    ScanReadsAt(w, w.stores[o].frames, k, p, x);
    ChainReadsOnly(w, ChainIds(w, o), p, x);
  }

  /** The frame scan reads the value of the entry it picks. */
  lemma {:induction false} ScanReadsWinner(w: World, fs: seq<FrameId>, p: PropId)
    requires C.ScanLayers(Layers(w, fs), p).Some?
    ensures ReadsValue(C.ScanLayers(Layers(w, fs), p).value.entry) in ScanReads(w, fs, p)
    decreases |fs|
  {
    var n := |fs| - 1;
    var f := fs[n];
    var ls := Layers(w, fs);
    assert ls[..n] == Layers(w, fs[..n]);
    HitOfFrame(w, f, p);
    if !(FrameActive(w, f) && FrameHit(w, f, p).Some?) {
      ScanReadsWinner(w, fs[..n], p);
    }
  }

  /** The walk reads the value of the entry it picks. */
  lemma {:induction false} ChainReadsWinner(w: World, ids: seq<FrameId>, p: PropId)
    requires C.ScanChain(ChainCandidates(w, ids), p).Some?
    ensures ReadsValue(C.ScanChain(ChainCandidates(w, ids), p).value.entry) in ChainReads(w, ids, p)
    decreases |ids|
  {
    FirstPresentOfFrame(w, ids[0], p);
    if FrameHit(w, ids[0], p).None? {
      assert ChainCandidates(w, ids)[1..] == ChainCandidates(w, ids[1..]);
      ChainReadsWinner(w, ids[1..], p);
    }
  }

  /** `EvaluateEffectiveValue` reads, and so starts, the entry it returns. */
  lemma EvaluateReadsWinner(w: World, o: ObjId, p: PropId)
    requires o in w.stores && Evaluate(w, o, p).Some?
    ensures ReadsValue(Evaluate(w, o, p).value.entry) in EvaluateReads(w, o, p)
  {
    if C.ScanLayers(StoreLayers(w, o), p).Some? {
      ScanReadsWinner(w, w.stores[o].frames, p);
    } else {
      ChainReadsWinner(w, ChainIds(w, o), p);
    }
  }

  /** One frame of the batch pass reads every entry it makes a winner. */
  lemma {:induction false} FrameValueReadsWinners(acc: seq<C.Assoc>, cs: seq<C.Candidate>, priority: int, q: PropId)
    requires C.Lookup(acc, q).None? && C.FirstPresent(cs, q).Some?
    ensures ReadsValue(C.FirstPresent(cs, q).value) in FrameValueReads(acc, cs, priority)
    decreases |cs|
  {
    if !C.Supplies(cs[0], q) {
      var acc1 := C.Step(acc, cs[0], priority);
      if C.Lookup(acc, cs[0].prop).None? && cs[0].present {
        C.LookupAppend(acc, C.Assoc(cs[0].prop, C.Winner(cs[0].entry, priority)), q);
      }
      FrameValueReadsWinners(acc1, cs[1..], priority, q);
    }
  }

  lemma {:induction false} BatchFrameReadsWinners(w: World, acc: seq<C.Assoc>, fs: seq<FrameId>, q: PropId)
    requires C.Lookup(acc, q).None? && C.ScanLayers(Layers(w, fs), q).Some?
    ensures ReadsValue(C.ScanLayers(Layers(w, fs), q).value.entry) in BatchFrameReads(w, acc, fs)
    decreases |fs|
  {
    var n := |fs| - 1;
    var f := fs[n];
    var l := LayerOf(w, f);
    assert Layers(w, fs)[..n] == Layers(w, fs[..n]);
    if l.active && C.FirstPresent(l.candidates, q).Some? {
      FrameValueReadsWinners(acc, l.candidates, l.priority, q);
    } else {
      var acc1 := if l.active then C.CollectFrame(acc, l.candidates, l.priority) else acc;
      if l.active { C.CollectFrameLookup(acc, l.candidates, l.priority, q); }
      BatchFrameReadsWinners(w, acc1, fs[..n], q);
    }
  }

  lemma {:induction false} BatchChainReadsWinners(w: World, acc: seq<C.Assoc>, ids: seq<FrameId>, q: PropId)
    requires C.Lookup(acc, q).None? && C.ScanChain(ChainCandidates(w, ids), q).Some?
    ensures ReadsValue(C.ScanChain(ChainCandidates(w, ids), q).value.entry) in BatchChainReads(w, acc, ids)
    decreases |ids|
  {
    var cs := Candidates(w, ids[0]);
    if C.FirstPresent(cs, q).Some? {
      FrameValueReadsWinners(acc, cs, Inherited, q);
    } else {
      C.CollectFrameLookup(acc, cs, Inherited, q);
      assert ChainCandidates(w, ids)[1..] == ChainCandidates(w, ids[1..]);
      BatchChainReadsWinners(w, C.CollectFrame(acc, cs, Inherited), ids[1..], q);
    }
  }

  /** The batch pass reads, and so starts, every entry its new dictionary
      holds. */
  lemma BatchReadsWinners(w: World, o: ObjId, q: PropId)
    requires o in w.stores
    requires C.Lookup(C.Rebuild(StoreLayers(w, o), StoreChain(w, o)), q).Some?
    ensures ReadsValue(C.Lookup(C.Rebuild(StoreLayers(w, o), StoreChain(w, o)), q).value.entry) in BatchReads(w, o)
  {
    var ls := StoreLayers(w, o);
    var acc := C.CollectLayers([], ls);
    C.CollectLayersLookup([], ls, q);
    C.CollectChainLookup(acc, StoreChain(w, o), q);
    if C.ScanLayers(ls, q).Some? {
      BatchFrameReadsWinners(w, [], w.stores[o].frames, q);
    } else {
      BatchChainReadsWinners(w, acc, ChainIds(w, o), q);
    }
  }
}
