/**
 * `LocalValueFrame`: the store's frame of local values, always active at the
 * `LocalValue` tier, holding at most one `LocalValueEntry` per property. A
 * new entry is drawn from the arena at id `next`.
 */
module LocalValueFrames {
  import opened Base
  import opened Effects
  import FrameMaps
  import L = LocalValueEntries
  import opened Arena

  /** Every entry the frame holds is a local entry in the arena (the source's
      casts to `LocalValueEntry<T>`). */
  predicate Holds(vs: FrameMaps.FrameMap<EntryId>, entries: map<EntryId, Entry>) {
    forall p :: p in FrameMaps.ToMap(vs) ==>
      FrameMaps.ToMap(vs)[p] in entries && entries[FrameMaps.ToMap(vs)[p]].Local?
  }

  /** Every id in use is below `next`. */
  predicate Fresh(entries: map<EntryId, Entry>, next: nat) {
    forall e :: e in entries ==> e < next
  }

  /** The frame after an operation, the arena, the next fresh id, the calls
      the touched entry made, and that entry's id. */
  datatype Step = Step(values: FrameMaps.FrameMap<EntryId>, entries: map<EntryId, Entry>, next: nat,
                       effects: seq<Effect>, entry: EntryId)

  /** The entry for `p`: the existing one, or a new one under id `next`. */
  function Existing(vs: FrameMaps.FrameMap<EntryId>, entries: map<EntryId, Entry>, next: nat, p: PropId)
    : (r: (FrameMaps.FrameMap<EntryId>, map<EntryId, Entry>, nat, EntryId))
    requires Holds(vs, entries)
    requires next !in entries
    ensures FrameMaps.TryGet(r.0, p) == Some(r.3) && r.3 in r.1 && r.1[r.3].Local?
    ensures FrameMaps.TryGet(vs, p).Some? ==> r == (vs, entries, next, FrameMaps.TryGet(vs, p).value)
    ensures FrameMaps.TryGet(vs, p).None? ==>
      r.3 == next && r.2 == next + 1 && r.1 == entries[next := Local(L.Create(p))]
      && FrameMaps.ToMap(r.0) == FrameMaps.ToMap(vs)[p := next]
  {
    match FrameMaps.TryGet(vs, p)
    case Some(e) => (vs, entries, next, e)
    case None => (FrameMaps.Insert(vs, p, next), entries[next := Local(L.Create(p))], next + 1, next)
  }

  /** `SetValue`: the property's entry (reused, or created and added) takes
      the value; the calls are that entry's. */
  function SetValue(vs: FrameMaps.FrameMap<EntryId>, entries: map<EntryId, Entry>, next: nat, p: PropId, v: Value)
    : (r: Step)
    requires Holds(vs, entries) && next !in entries
    ensures FrameMaps.TryGet(r.values, p) == Some(r.entry)
    ensures r.entry in r.entries && r.entries[r.entry].Local? && L.Current(r.entries[r.entry].local) == Some(v)
    ensures FrameMaps.TryGet(vs, p).Some? ==> r.values == vs && r.next == next
    ensures FrameMaps.TryGet(vs, p).None? ==>
      r.entry == next && r.next == next + 1 && FrameMaps.ToMap(r.values) == FrameMaps.ToMap(vs)[p := next]
    ensures forall e :: e in entries && e != r.entry ==> e in r.entries && r.entries[e] == entries[e]
    ensures r.entries.Keys == entries.Keys + {r.entry}
    ensures FrameMaps.TryGet(vs, p).Some? ==> r.entries[r.entry].local.prop == entries[r.entry].local.prop
    ensures FrameMaps.TryGet(vs, p).None? ==> r.entries[r.entry].local.prop == p
    ensures r.effects == [] <==>
      FrameMaps.TryGet(vs, p).Some? && L.Current(entries[FrameMaps.TryGet(vs, p).value].local) == Some(v)
    ensures r.effects == [] ==> r.values == vs && r.entries == entries && r.next == next
    ensures r.effects != [] ==>
      |r.effects| == 1 && r.effects[0].ValueChanged? && r.effects[0].prop == r.entries[r.entry].local.prop
  {
    var (vs1, es1, next1, e) := Existing(vs, entries, next, p);
    var (le, fx) := L.SetValue(es1[e].local, v);
    Step(vs1, es1[e := Local(le)], next1, fx, e)
  }

  /** `AddBinding`: the property's entry (reused, or created and added) gets
      the binding, replacing any previous one. */
  function AddBinding(vs: FrameMaps.FrameMap<EntryId>, entries: map<EntryId, Entry>, next: nat, p: PropId, source: SourceId)
    : (r: Step)
    requires Holds(vs, entries) && next !in entries
    ensures FrameMaps.TryGet(r.values, p) == Some(r.entry)
    ensures r.entry in r.entries && r.entries[r.entry].Local?
    ensures r.entries[r.entry].local.subscription == Some(source)
    ensures FrameMaps.TryGet(vs, p).Some? ==>
      r.values == vs && r.next == next && r.entries[r.entry].local == entries[r.entry].local.(subscription := Some(source))
    ensures FrameMaps.TryGet(vs, p).None? ==>
      r.entry == next && r.next == next + 1 && FrameMaps.ToMap(r.values) == FrameMaps.ToMap(vs)[p := next]
      && L.Current(r.entries[r.entry].local).None? && r.entries[r.entry].local.prop == p
    ensures forall e :: e in entries && e != r.entry ==> e in r.entries && r.entries[e] == entries[e]
    ensures r.entries.Keys == entries.Keys + {r.entry}
    ensures |r.effects| >= 1 && r.effects[|r.effects| - 1] == Subscribe(source)
  {
    var (vs1, es1, next1, e) := Existing(vs, entries, next, p);
    var (le, fx) := L.AddBinding(es1[e].local, source);
    Step(vs1, es1[e := Local(le)], next1, fx, e)
  }

  /** `ClearValue`: drops the property's entry; reports whether there was one. */
  function ClearValue(vs: FrameMaps.FrameMap<EntryId>, p: PropId): (r: (FrameMaps.FrameMap<EntryId>, bool))
    ensures r.1 <==> p in FrameMaps.ToMap(vs)
    ensures FrameMaps.ToMap(r.0) == FrameMaps.ToMap(vs) - {p}
  {
    FrameMaps.Remove(vs, p)
  }

  /** Setting a property twice leaves one entry for it: the second call
      reuses the entry the first one created. */
  lemma SetValueReusesEntry(vs: FrameMaps.FrameMap<EntryId>, entries: map<EntryId, Entry>, next: nat,
                            p: PropId, v1: Value, v2: Value)
    requires Holds(vs, entries) && Fresh(entries, next)
    ensures var r1 := SetValue(vs, entries, next, p, v1);
      Holds(r1.values, r1.entries) && Fresh(r1.entries, r1.next) &&
      var r2 := SetValue(r1.values, r1.entries, r1.next, p, v2);
      r2.values == r1.values && r2.entry == r1.entry && r2.next == r1.next
      && |FrameMaps.ToMap(r2.values).Keys| == |r2.values|
  {
    var r1 := SetValue(vs, entries, next, p, v1);
    assert Holds(r1.values, r1.entries) by {
      forall q | q in FrameMaps.ToMap(r1.values)
        ensures FrameMaps.ToMap(r1.values)[q] in r1.entries && r1.entries[FrameMaps.ToMap(r1.values)[q]].Local?
      {
        if q != p {
          assert q in FrameMaps.ToMap(vs) && FrameMaps.ToMap(r1.values)[q] == FrameMaps.ToMap(vs)[q];
        }
      }
    }
    FrameMaps.OneEntryPerKey(r1.values);
  }
}
