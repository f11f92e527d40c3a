/**
 * The cascade of the boxing prototype's `ValueStore`: its frames, the scan
 * that finds a property's effective value, and the batch pass that rebuilds
 * the whole dictionary of effective values. Unlike the main store, this one
 * caches VALUES (not entries), has no inheritance, and reads every entry
 * through its untyped `TryGetValue`.
 */
module BoxedCascade {
  import opened Base
  import FrameMaps
  import FrameOrder
  import C = Cascade
  import PL = PrototypeLocalEntries
  import BB = BoxedBindingEntries

  /** What one entry of a frame answers: its property, and the value its
      `TryGetValue` yields, if any. */
  datatype Reading = Reading(prop: PropId, value: Option<Value>)

  /** An `IValueFrame` of the boxing store. */
  datatype BoxedFrame =
      /** `LocalValueFrame`: always active at `LocalValue`, one entry per
          property. */
    | LocalFrame(values: FrameMaps.FrameMap<PL.ProtoLocal>)
      /** `BindingEntry<T>`: an always-active frame whose only entry is itself. */
    | BindingFrame(binding: BB.BoxedBinding)
      /** An applied style as the store sees it: its priority, whether it is
          active, and what its entries answer, in order. */
    | StyleFrame(priority: int, active: bool, readings: seq<Reading>)

  function Priority(f: BoxedFrame): int {
    match f
    case LocalFrame(_) => LocalValue
    case BindingFrame(b) => b.priority
    case StyleFrame(priority, _, _) => priority
  }

  predicate Active(f: BoxedFrame) {
    !f.StyleFrame? || f.active
  }

  /** A local frame's entries in storage order; `Add` files each entry under
      its own property's id. */
  function LocalReadings(m: seq<FrameMaps.Slot<PL.ProtoLocal>>): (r: seq<Reading>)
    ensures |r| == |m|
  {
    if |m| == 0 then [] else [Reading(m[0].key, m[0].entry.value)] + LocalReadings(m[1..])
  }

  /** The entries a frame's `Values` enumerates, as their `TryGetValue`
      answers: a binding entry has a value unless it holds `UnsetValue`. */
  function Readings(f: BoxedFrame): seq<Reading> {
    match f
    case LocalFrame(m) => LocalReadings(m)
    case BindingFrame(b) => [Reading(b.prop, if b.value.Boxed? then Some(b.value.value) else None)]
    case StyleFrame(_, _, rs) => rs
  }

  /** The scan's inner loop: the first entry for `p` whose `TryGetValue`
      succeeds. */
  function FirstValue(rs: seq<Reading>, p: PropId): (r: Option<Value>)
    ensures r.Some? ==> exists j :: 0 <= j < |rs| && rs[j] == Reading(p, r)
    ensures r.None? <==> forall j :: 0 <= j < |rs| && rs[j].prop == p ==> rs[j].value.None?
  {
    if |rs| == 0 then None
    else if rs[0].prop == p && rs[0].value.Some? then rs[0].value
    else
      var r := FirstValue(rs[1..], p);
      assert forall j :: 1 <= j < |rs| ==> rs[j] == rs[1..][j - 1];
      r
  }

  /** What a frame offers for `p`, active or not. */
  function Offer(f: BoxedFrame, p: PropId): Option<Value> {
    FirstValue(Readings(f), p)
  }

  /** The frame takes part in the scan for `p` and has a value for it. */
  predicate Supplies(f: BoxedFrame, p: PropId) {
    Active(f) && Offer(f, p).Some?
  }

  /** An effective value and the priority of the frame it came from. */
  datatype Found = Found(value: Value, priority: int)

  /** The private `ReevaluateEffectiveValue(property, out result, out
      priority)`: frames from the strongest end, inactive ones skipped, the
      first that supplies a value wins at its own priority. */
  function Scan(frames: seq<BoxedFrame>, p: PropId): Option<Found>
    decreases |frames|
  {
    if |frames| == 0 then None
    else
      var f := frames[|frames| - 1];
      if Supplies(f, p) then Some(Found(Offer(f, p).value, Priority(f)))
      else Scan(frames[..|frames| - 1], p)
  }

  /** The value the scan finds, if any. */
  function Effective(frames: seq<BoxedFrame>, p: PropId): Option<Value> {
    if Scan(frames, p).Some? then Some(Scan(frames, p).value.value) else None
  }

  /** The priority `RaisePropertyChanged` is given: the winner's, or `Unset`. */
  function ScanPriority(frames: seq<BoxedFrame>, p: PropId): int {
    if Scan(frames, p).Some? then Scan(frames, p).value.priority else Unset
  }

  /** A local frame offers what the entry filed under the property holds. */
  lemma {:induction false} LocalOffer(m: FrameMaps.FrameMap<PL.ProtoLocal>, q: PropId)
    ensures Offer(LocalFrame(m), q) ==
      if FrameMaps.TryGet(m, q).Some? then FrameMaps.TryGet(m, q).value.value else None
  {
    if |m| > 0 {
      var tail: FrameMaps.FrameMap<PL.ProtoLocal> := m[1..];
      LocalOffer(tail, q);
      assert LocalReadings(m)[1..] == LocalReadings(tail);
      if m[0].key == q {
        FrameMaps.HeadBelowTail(m);
        assert q !in FrameMaps.ToMap(tail);
      }
    }
  }

  /** A binding frame offers a value for its own property only. */
  lemma BindingOffer(b: BB.BoxedBinding, q: PropId)
    ensures Offer(BindingFrame(b), q) == if b.prop == q && b.value.Boxed? then Some(b.value.value) else None
  {
    var rs := Readings(BindingFrame(b));
    assert rs[1..] == [];
  }

  /** Absent a supplier the scan finds nothing. */
  lemma {:induction false} ScanNone(frames: seq<BoxedFrame>, p: PropId)
    ensures Scan(frames, p).None? <==> forall i :: 0 <= i < |frames| ==> !Supplies(frames[i], p)
    decreases |frames|
  {
    if |frames| > 0 {
      var init := frames[..|frames| - 1];
      ScanNone(init, p);
      assert forall i :: 0 <= i < |init| ==> init[i] == frames[i];
    }
  }

  /** A scan that finds something stops at the strongest supplier. */
  lemma {:induction false} ScanWinner(frames: seq<BoxedFrame>, p: PropId) returns (i: nat)
    requires Scan(frames, p).Some?
    ensures i < |frames| && Supplies(frames[i], p)
    ensures forall j :: i < j < |frames| ==> !Supplies(frames[j], p)
    ensures Scan(frames, p) == Some(Found(Offer(frames[i], p).value, Priority(frames[i])))
    decreases |frames|
  {
    var n := |frames|;
    if Supplies(frames[n - 1], p) {
      i := n - 1;
    } else {
      var init := frames[..n - 1];
      i := ScanWinner(init, p);
      assert forall j :: i < j < n - 1 ==> init[j] == frames[j];
    }
  }

  /** The strongest active frame with a value for `p` decides it. */
  lemma {:induction false} ScanTopmost(frames: seq<BoxedFrame>, p: PropId, i: nat)
    requires i < |frames| && Supplies(frames[i], p)
    requires forall j :: i < j < |frames| ==> !Supplies(frames[j], p)
    ensures Scan(frames, p) == Some(Found(Offer(frames[i], p).value, Priority(frames[i])))
    decreases |frames|
  {
    var n := |frames|;
    if i < n - 1 {
      var init := frames[..n - 1];
      assert !Supplies(frames[n - 1], p);
      assert forall j :: i < j < n - 1 ==> init[j] == frames[j];
      ScanTopmost(init, p, i);
    }
  }

  /** The scan against its declarative reading: nothing when no active frame
      has a value, else the value and priority of the strongest that has. */
  lemma ScanSpec(frames: seq<BoxedFrame>, p: PropId)
    ensures Scan(frames, p).None? <==> forall i :: 0 <= i < |frames| ==> !Supplies(frames[i], p)
    ensures forall i :: 0 <= i < |frames| && Supplies(frames[i], p)
                        && (forall j :: i < j < |frames| ==> !Supplies(frames[j], p)) ==>
      Scan(frames, p) == Some(Found(Offer(frames[i], p).value, Priority(frames[i])))
  {
    ScanNone(frames, p);
    forall i | 0 <= i < |frames| && Supplies(frames[i], p) && (forall j :: i < j < |frames| ==> !Supplies(frames[j], p))
      ensures Scan(frames, p) == Some(Found(Offer(frames[i], p).value, Priority(frames[i])))
    {
      ScanTopmost(frames, p, i);
    }
  }

  /** The scan looks at a frame appended on the strong end first. */
  lemma ScanSnoc(frames: seq<BoxedFrame>, f: BoxedFrame, q: PropId)
    ensures Scan(frames + [f], q) ==
      if Supplies(f, q) then Some(Found(Offer(f, q).value, Priority(f))) else Scan(frames, q)
  {
    assert (frames + [f])[..|frames|] == frames;
  }

  /** Two frames look alike to the scan for `q`. */
  predicate SameFor(f: BoxedFrame, f': BoxedFrame, q: PropId) {
    && Supplies(f', q) == Supplies(f, q)
    && (Supplies(f, q) ==> Offer(f', q) == Offer(f, q) && Priority(f') == Priority(f))
  }

  /** Frame lists that look alike frame by frame scan alike. */
  lemma {:induction false} ScanPointwise(frames: seq<BoxedFrame>, frames': seq<BoxedFrame>, q: PropId)
    requires |frames'| == |frames|
    requires forall i :: 0 <= i < |frames| ==> SameFor(frames[i], frames'[i], q)
    ensures Scan(frames', q) == Scan(frames, q)
    decreases |frames|
  {
    var n := |frames|;
    if n > 0 {
      var init, init' := frames[..n - 1], frames'[..n - 1];
      assert frames == init + [frames[n - 1]] && frames' == init' + [frames'[n - 1]];
      ScanSnoc(init, frames[n - 1], q);
      ScanSnoc(init', frames'[n - 1], q);
      if !Supplies(frames[n - 1], q) {
        assert forall i :: 0 <= i < n - 1 ==> SameFor(init[i], init'[i], q) by {
          assert forall i :: 0 <= i < n - 1 ==> init[i] == frames[i] && init'[i] == frames'[i];
        }
        ScanPointwise(init, init', q);
      }
    }
  }

  /** A frame without a value for `q` can be inserted anywhere without
      changing `q`'s scan. */
  lemma {:induction false} ScanInsertMiss(frames: seq<BoxedFrame>, k: nat, f: BoxedFrame, q: PropId)
    requires k <= |frames| && !Supplies(f, q)
    ensures Scan(FrameOrder.InsertAt(frames, k, f), q) == Scan(frames, q)
    decreases |frames|
  {
    var n := |frames|;
    if k == n {
      assert FrameOrder.InsertAt(frames, k, f) == frames + [f];
      ScanSnoc(frames, f, q);
    } else {
      var init, last := frames[..n - 1], frames[n - 1];
      assert frames == init + [last];
      assert FrameOrder.InsertAt(frames, k, f) == FrameOrder.InsertAt(init, k, f) + [last];
      ScanInsertMiss(init, k, f, q);
      ScanSnoc(init, last, q);
      ScanSnoc(FrameOrder.InsertAt(init, k, f), last, q);
    }
  }

  /** `List.RemoveAt`. */
  function RemoveAt<T>(s: seq<T>, i: nat): (r: seq<T>)
    requires i < |s|
    ensures |r| == |s| - 1
    ensures forall j :: 0 <= j < i ==> r[j] == s[j]
    ensures forall j :: i <= j < |r| ==> r[j] == s[j + 1]
  {
    s[..i] + s[i + 1..]
  }

  /** Removing a frame without a value for `q` leaves `q`'s scan. */
  lemma ScanRemoveMiss(frames: seq<BoxedFrame>, i: nat, q: PropId)
    requires i < |frames| && !Supplies(frames[i], q)
    ensures Scan(RemoveAt(frames, i), q) == Scan(frames, q)
  {
    var rest := RemoveAt(frames, i);
    assert FrameOrder.InsertAt(rest, i, frames[i]) == frames;
    ScanInsertMiss(rest, i, frames[i], q);
  }

  // ---------------------------------------------------------------------------
  // The batch pass

  /** One entry of the new dictionary, in insertion order. */
  datatype Pick = Pick(prop: PropId, found: Found)

  function Lookup(picks: seq<Pick>, p: PropId): Option<Found> {
    if |picks| == 0 then None
    else if picks[0].prop == p then Some(picks[0].found)
    else Lookup(picks[1..], p)
  }

  predicate DistinctKeys(picks: seq<Pick>) {
    forall i, j :: 0 <= i < j < |picks| ==> picks[i].prop != picks[j].prop
  }

  lemma {:induction false} LookupAppend(picks: seq<Pick>, x: Pick, q: PropId)
    ensures Lookup(picks + [x], q) ==
      if Lookup(picks, q).Some? then Lookup(picks, q)
      else if x.prop == q then Some(x.found) else None
  {
    if |picks| > 0 {
      assert (picks + [x])[1..] == picks[1..] + [x];
      LookupAppend(picks[1..], x, q);
    }
  }

  lemma {:induction false} LookupNoneMeansAbsent(picks: seq<Pick>, q: PropId)
    ensures Lookup(picks, q).None? <==> forall i :: 0 <= i < |picks| ==> picks[i].prop != q
  {
    if |picks| > 0 {
      LookupNoneMeansAbsent(picks[1..], q);
      assert forall i :: 1 <= i < |picks| ==> picks[i] == picks[1..][i - 1];
    }
  }

  /** One entry of the pass: added when its property is not in the new
      dictionary yet and its `TryGetValue` succeeds. */
  function Take(picks: seq<Pick>, r: Reading, priority: int): seq<Pick> {
    if Lookup(picks, r.prop).None? && r.value.Some? then picks + [Pick(r.prop, Found(r.value.value, priority))]
    else picks
  }

  /** The pass over one frame's entries. */
  function CollectFrame(picks: seq<Pick>, rs: seq<Reading>, priority: int): seq<Pick>
    decreases |rs|
  {
    if |rs| == 0 then picks else CollectFrame(Take(picks, rs[0], priority), rs[1..], priority)
  }

  /** The pass over the frames: active ones, from the strongest end. */
  function Collect(picks: seq<Pick>, frames: seq<BoxedFrame>): seq<Pick>
    decreases |frames|
  {
    if |frames| == 0 then picks
    else
      var f := frames[|frames| - 1];
      Collect(if Active(f) then CollectFrame(picks, Readings(f), Priority(f)) else picks, frames[..|frames| - 1])
  }

  lemma {:induction false} CollectFrameLookup(picks: seq<Pick>, rs: seq<Reading>, priority: int, q: PropId)
    ensures Lookup(CollectFrame(picks, rs, priority), q) ==
      if Lookup(picks, q).Some? then Lookup(picks, q)
      else if FirstValue(rs, q).Some? then Some(Found(FirstValue(rs, q).value, priority))
      else None
    decreases |rs|
  {
    if |rs| > 0 {
      CollectFrameLookup(Take(picks, rs[0], priority), rs[1..], priority, q);
      if Lookup(picks, rs[0].prop).None? && rs[0].value.Some? {
        LookupAppend(picks, Pick(rs[0].prop, Found(rs[0].value.value, priority)), q);
      }
    }
  }

  lemma {:induction false} CollectLookup(picks: seq<Pick>, frames: seq<BoxedFrame>, q: PropId)
    ensures Lookup(Collect(picks, frames), q) ==
      if Lookup(picks, q).Some? then Lookup(picks, q) else Scan(frames, q)
    decreases |frames|
  {
    if |frames| > 0 {
      var f := frames[|frames| - 1];
      var picks' := if Active(f) then CollectFrame(picks, Readings(f), Priority(f)) else picks;
      CollectLookup(picks', frames[..|frames| - 1], q);
      if Active(f) {
        CollectFrameLookup(picks, Readings(f), Priority(f), q);
      }
    }
  }

  lemma {:induction false} TakeDistinct(picks: seq<Pick>, r: Reading, priority: int)
    requires DistinctKeys(picks)
    ensures DistinctKeys(Take(picks, r, priority))
  {
    if Lookup(picks, r.prop).None? && r.value.Some? {
      LookupNoneMeansAbsent(picks, r.prop);
    }
  }

  lemma {:induction false} CollectFrameDistinct(picks: seq<Pick>, rs: seq<Reading>, priority: int)
    requires DistinctKeys(picks)
    ensures DistinctKeys(CollectFrame(picks, rs, priority))
    decreases |rs|
  {
    if |rs| > 0 {
      TakeDistinct(picks, rs[0], priority);
      CollectFrameDistinct(Take(picks, rs[0], priority), rs[1..], priority);
    }
  }

  lemma {:induction false} CollectDistinct(picks: seq<Pick>, frames: seq<BoxedFrame>)
    requires DistinctKeys(picks)
    ensures DistinctKeys(Collect(picks, frames))
    decreases |frames|
  {
    if |frames| > 0 {
      var f := frames[|frames| - 1];
      if Active(f) { CollectFrameDistinct(picks, Readings(f), Priority(f)); }
      var picks' := if Active(f) then CollectFrame(picks, Readings(f), Priority(f)) else picks;
      CollectDistinct(picks', frames[..|frames| - 1]);
    }
  }

  /** The new dictionary the pass builds: one entry per property, holding
      exactly what the targeted scan would find. */
  lemma Rebuild(frames: seq<BoxedFrame>, q: PropId)
    ensures DistinctKeys(Collect([], frames))
    ensures Lookup(Collect([], frames), q) == Scan(frames, q)
  {
    CollectDistinct([], frames);
    CollectLookup([], frames, q);
  }

  /** `_effectiveValues = newValues`: the dictionary as an id-keyed map. */
  function Install(picks: seq<Pick>): (r: FrameMaps.FrameMap<Value>)
    ensures forall q :: FrameMaps.TryGet(r, q) == if Lookup(picks, q).Some? then Some(Lookup(picks, q).value.value) else None
  {
    if |picks| == 0 then []
    else
      var rest := Install(picks[1..]);
      var r := FrameMaps.Set(rest, picks[0].prop, picks[0].found.value);
      assert FrameMaps.ToMap(r) == FrameMaps.ToMap(rest)[picks[0].prop := picks[0].found.value];
      r
  }

  // ---------------------------------------------------------------------------
  // Change notifications

  /** `RaisePropertyChanged`: a notification goes out exactly when the two
      values are not `Equals`. */
  function Raise(p: PropId, oldValue: Value, newValue: Value, priority: int): (r: seq<C.Notice>)
    ensures |r| <= 1
    ensures |r| == 1 <==> oldValue != newValue
    ensures |r| == 1 ==> r[0] == C.Notice(p, Boxed(oldValue), Boxed(newValue), priority)
  {
    if oldValue != newValue then [C.Notice(p, Boxed(oldValue), Boxed(newValue), priority)] else []
  }

  /** The first loop of the diff: each entry of the new dictionary, in
      insertion order, against the old dictionary's value or the default.
      Ids the registry does not know raise nothing. The source removes each
      such id from the old dictionary as it goes; the ids are distinct, so
      reading the untouched old dictionary is the same. */
  function NewNotices(picks: seq<Pick>, before: map<PropId, Value>,
                      dflt: PropId -> Value, registered: set<PropId>): seq<C.Notice>
  {
    if |picks| == 0 then []
    else
      var a := picks[0];
      var oldValue := if a.prop in before then before[a.prop] else dflt(a.prop);
      var here := if a.prop in registered then Raise(a.prop, oldValue, a.found.value, a.found.priority) else [];
      here + NewNotices(picks[1..], before, dflt, registered)
  }

  /** The second loop: what is left of the old dictionary reverts to the
      default at priority `Unset`. `Dictionary` enumeration order is not
      specified; the model enumerates ids in ascending order. */
  function StaleNotices(before: FrameMaps.FrameMap<Value>, picks: seq<Pick>,
                        dflt: PropId -> Value, registered: set<PropId>): seq<C.Notice>
  {
    if |before| == 0 then []
    else
      var s := before[0];
      var here := if Lookup(picks, s.key).None? && s.key in registered
        then Raise(s.key, s.entry, dflt(s.key), Unset)
        else [];
      here + StaleNotices(before[1..], picks, dflt, registered)
  }

  /** A property of the new dictionary is reported, once, exactly when its
      value differs from the old one (or the default), at its frame's
      priority. */
  lemma {:induction false} NewNoticesSpec(picks: seq<Pick>, before: map<PropId, Value>,
                                          dflt: PropId -> Value, registered: set<PropId>, q: PropId)
    requires DistinctKeys(picks)
    ensures var ns := NewNotices(picks, before, dflt, registered);
      C.Mentions(ns, q) <==>
        (q in registered && Lookup(picks, q).Some?
         && (if q in before then before[q] else dflt(q)) != Lookup(picks, q).value.value)
    ensures var ns := NewNotices(picks, before, dflt, registered);
      forall i :: 0 <= i < |ns| && ns[i].prop == q ==>
        Lookup(picks, q).Some? &&
        ns[i] == C.Notice(q, Boxed(if q in before then before[q] else dflt(q)),
                          Boxed(Lookup(picks, q).value.value), Lookup(picks, q).value.priority)
  {
    if |picks| > 0 {
      var a := picks[0];
      var tail := picks[1..];
      var rest := NewNotices(tail, before, dflt, registered);
      var oldValue := if a.prop in before then before[a.prop] else dflt(a.prop);
      var here := if a.prop in registered then Raise(a.prop, oldValue, a.found.value, a.found.priority) else [];
      assert forall i :: 0 <= i < |here| ==> here[i].prop == a.prop;
      assert DistinctKeys(tail);
      NewNoticesSpec(tail, before, dflt, registered, q);
      var ns := NewNotices(picks, before, dflt, registered);
      assert ns == here + rest;
      C.MentionsAppend(here, rest, q);
      if a.prop == q {
        LookupNoneMeansAbsent(tail, q);
        assert !C.Mentions(rest, q);
      } else {
        assert !C.Mentions(here, q);
      }
      forall i | 0 <= i < |ns| && ns[i].prop == q
        ensures Lookup(picks, q).Some? &&
          ns[i] == C.Notice(q, Boxed(if q in before then before[q] else dflt(q)),
                            Boxed(Lookup(picks, q).value.value), Lookup(picks, q).value.priority)
      {
        if i >= |here| {
          assert ns[i] == rest[i - |here|];
          assert C.Mentions(rest, q);
        }
      }
    }
  }

  /** A property only the old dictionary had is reported, once, exactly when
      its old value differs from the default, at priority `Unset`. */
  lemma {:induction false} StaleNoticesSpec(before: FrameMaps.FrameMap<Value>, picks: seq<Pick>,
                                            dflt: PropId -> Value, registered: set<PropId>, q: PropId)
    ensures var ns := StaleNotices(before, picks, dflt, registered);
      C.Mentions(ns, q) <==>
        (q in registered && q in FrameMaps.ToMap(before) && Lookup(picks, q).None?
         && FrameMaps.ToMap(before)[q] != dflt(q))
    ensures var ns := StaleNotices(before, picks, dflt, registered);
      forall i :: 0 <= i < |ns| && ns[i].prop == q ==>
        q in FrameMaps.ToMap(before) &&
        ns[i] == C.Notice(q, Boxed(FrameMaps.ToMap(before)[q]), Boxed(dflt(q)), Unset)
  {
    if |before| > 0 {
      var s := before[0];
      var tail: FrameMaps.FrameMap<Value> := before[1..];
      FrameMaps.HeadBelowTail(before);
      StaleNoticesSpec(tail, picks, dflt, registered, q);
      var rest := StaleNotices(tail, picks, dflt, registered);
      var here := if Lookup(picks, s.key).None? && s.key in registered
        then Raise(s.key, s.entry, dflt(s.key), Unset)
        else [];
      assert forall i :: 0 <= i < |here| ==> here[i].prop == s.key;
      var ns := StaleNotices(before, picks, dflt, registered);
      assert ns == here + rest;
      C.MentionsAppend(here, rest, q);
      assert FrameMaps.ToMap(before) == FrameMaps.ToMap(tail)[s.key := s.entry];
      if s.key == q {
        assert q !in FrameMaps.ToMap(tail);
        assert !C.Mentions(rest, q);
      } else {
        assert !C.Mentions(here, q);
      }
      forall i | 0 <= i < |ns| && ns[i].prop == q
        ensures q in FrameMaps.ToMap(before) &&
          ns[i] == C.Notice(q, Boxed(FrameMaps.ToMap(before)[q]), Boxed(dflt(q)), Unset)
      {
        if i >= |here| {
          assert ns[i] == rest[i - |here|];
          assert C.Mentions(rest, q);
        }
      }
    }
  }
}
