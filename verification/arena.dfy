/**
 * The object graph the stores work on. The source keeps live references
 * between objects: a store's frame list, the inheritance frames that several
 * stores share, and entries that sit both in their frame and in other stores'
 * inheritance frames and effective-value caches. The model keeps every object
 * in an arena keyed by id, so sharing is by id and a change to an entry is
 * seen by everything that refers to it.
 */
module Arena {
  import opened Base
  import FrameMaps
  import Properties
  import Controls
  import L = LocalValueEntries
  import B = BindingEntries
  import SB = SetterBindings
  import SI = StyleInstances

  /** An `IValue`: one property's contribution in a frame. */
  datatype Entry =
    | Local(local: L.LocalEntry)
    | Binding(binding: B.BindingEntry)
      /** A `Setter` with a constant value is its own entry. */
    | Constant(prop: PropId, value: Value)
    | SetterBinding(instance: SB.SetterBinding)

  /** An `IValueFrame`. A binding entry is a frame of its own; the other
      frames hold one entry per property id, under that entry's property. */
  datatype Frame =
    | LocalFrame(values: FrameMaps.FrameMap<EntryId>)
    | BindingFrame(entry: EntryId)
    | StyleFrame(instance: SI.StyleInstance)
    | InheritFrame(owner: ObjId, parent: Option<FrameId>, values: FrameMaps.FrameMap<EntryId>)

  /** A `ValueStore`: its owner's type, the frame list (weakest first), the
      inheritance frame it reads through, its local-value frame, the
      effective-value cache (property id to winning entry) and the styling
      bracket counter. */
  datatype Store = Store(
    typeId: TypeId,
    frames: seq<FrameId>,
    inheritance: Option<FrameId>,
    local: Option<FrameId>,
    cache: FrameMaps.FrameMap<EntryId>,
    styling: int)

  type Hierarchy = h: Properties.TypeHierarchy | Properties.WellFounded(h)
    witness Properties.TypeHierarchy(map[], map[])

  /** Everything the stores can reach: the property registry and the type
      hierarchy, the logical tree, and the arenas. `next` is the next fresh
      id for a frame or an entry. */
  datatype World = World(
    props: map<PropId, Properties.Property>,
    types: Hierarchy,
    tree: Controls.Tree,
    stores: map<ObjId, Store>,
    frames: map<FrameId, Frame>,
    entries: map<EntryId, Entry>,
    next: nat)

  // ---------------------------------------------------------------------------
  // Entries as the store reads them

  function PropOf(e: Entry): PropId {
    match e
    case Local(le) => le.prop
    case Binding(be) => be.prop
    case Constant(p, _) => p
    case SetterBinding(sb) => sb.prop
  }

  /** `IValue.HasValue`. A setter binding instance is taken to have a value
      only while it holds one (the corrected reading of its property). */
  predicate HasValue(e: Entry) {
    match e
    case Local(le) => le.hasValue
    case Binding(be) => be.hasValue
    case Constant(_, _) => true
    case SetterBinding(sb) => sb.value.Boxed?
  }

  /** `IValue.HasValue` as written: a setter binding instance compares its
      stored object with `UnsetValue` only, so a finished one still counts. */
  predicate HasValueAsWritten(e: Entry) {
    match e
    case SetterBinding(sb) => sb.value != UnsetValue
    case _ => HasValue(e)
  }

  /** The object `TryGetValue` hands out: a cleared local or binding entry
      holds `default`, a finished setter binding hands out `default`, and one
      that never received a value hands out `UnsetValue`. */
  function ReadObject(e: Entry): (r: Boxed)
    ensures HasValue(e) ==> r.Boxed?
    ensures !r.FinishedValue?
  {
    match e
    case Local(le) => Boxed(le.value)
    case Binding(be) => Boxed(be.value)
    case Constant(_, v) => Boxed(v)
    case SetterBinding(sb) =>
      if sb.value.Boxed? then sb.value else if sb.value.FinishedValue? then Boxed(Null) else UnsetValue
  }

  /** The typed read `EffectiveValue.GetValue<T>()`. */
  function ReadTyped(e: Entry): (r: Value)
    ensures ReadObject(e).Boxed? ==> r == ReadObject(e).value
  {
    if ReadObject(e).Boxed? then ReadObject(e).value else Null
  }

  predicate Present(w: World, e: EntryId) {
    e in w.entries && HasValue(w.entries[e])
  }

  function EntryProp(w: World, e: EntryId): Option<PropId> {
    if e in w.entries then Some(PropOf(w.entries[e])) else None
  }

  /** The untyped read of an entry id, total over the arena. */
  function Read(w: World, e: EntryId): Boxed {
    if e in w.entries then ReadObject(w.entries[e]) else UnsetValue
  }

  // ---------------------------------------------------------------------------
  // Frames

  function FramePriority(w: World, f: FrameId): int {
    if f !in w.frames then Unset
    else match w.frames[f]
      case LocalFrame(_) => LocalValue
      case BindingFrame(e) => if e in w.entries && w.entries[e].Binding? then w.entries[e].binding.priority else Unset
      case StyleFrame(si) => si.priority
      case InheritFrame(_, _, _) => Inherited
  }

  /** `IsActive`: only a style instance can be inactive. */
  predicate FrameActive(w: World, f: FrameId) {
    f in w.frames && (w.frames[f].StyleFrame? ==> w.frames[f].instance.active)
  }

  /** The id-keyed entries of a frame (a binding frame has none). */
  function KeyedValues(fr: Frame): FrameMaps.FrameMap<EntryId> {
    match fr
    case LocalFrame(vs) => vs
    case BindingFrame(_) => []
    case StyleFrame(si) => si.values
    case InheritFrame(_, _, vs) => vs
  }

  // ---------------------------------------------------------------------------
  // Inheritance frames

  /** The inheritance chain from `f` along `Parent`, nearest first. A frame
      already visited ends the walk, so the walk terminates on any arena. */
  function ChainFrom(frames: map<FrameId, Frame>, f: Option<FrameId>, visited: set<FrameId>): (r: seq<FrameId>)
    ensures forall k :: 0 <= k < |r| ==> r[k] in frames && frames[r[k]].InheritFrame? && r[k] !in visited
    ensures |r| > 0 ==> f == Some(r[0])
    decreases frames.Keys - visited
  {
    if f.Some? && f.value in frames && f.value !in visited && frames[f.value].InheritFrame? then
      [f.value] + ChainFrom(frames, frames[f.value].parent, visited + {f.value})
    else []
  }

  /** The chain is a walk along parent pointers that never repeats a frame. */
  lemma {:induction false} ChainFromWalksParents(frames: map<FrameId, Frame>, f: Option<FrameId>, visited: set<FrameId>)
    ensures forall k :: 0 <= k < |ChainFrom(frames, f, visited)| - 1 ==>
      frames[ChainFrom(frames, f, visited)[k]].parent == Some(ChainFrom(frames, f, visited)[k + 1])
    ensures forall i, j :: 0 <= i < j < |ChainFrom(frames, f, visited)| ==>
      ChainFrom(frames, f, visited)[i] != ChainFrom(frames, f, visited)[j]
    decreases frames.Keys - visited
  {
    if f.Some? && f.value in frames && f.value !in visited && frames[f.value].InheritFrame? {
      var rest := ChainFrom(frames, frames[f.value].parent, visited + {f.value});
      ChainFromWalksParents(frames, frames[f.value].parent, visited + {f.value});
      var r := ChainFrom(frames, f, visited);
      assert r == [f.value] + rest;
      forall k | 0 <= k < |r| - 1 ensures frames[r[k]].parent == Some(r[k + 1]) {
        assert r[k + 1] == rest[k];
        if 0 < k { assert r[k] == rest[k - 1]; }
      }
      forall i, j | 0 <= i < j < |r| ensures r[i] != r[j] {
        assert r[j] == rest[j - 1] && rest[j - 1] !in visited + {f.value};
        if 0 < i { assert r[i] == rest[i - 1] && rest[i - 1] != rest[j - 1]; }
      }
    }
  }

  /** Chains only read parent pointers: an arena that keeps every inheritance
      frame's kind and parent (and whose parents resolve) gives the same
      chain in any larger arena. */
  lemma {:induction false} ChainFromStable(frames: map<FrameId, Frame>, frames': map<FrameId, Frame>,
                                           f: Option<FrameId>, visited: set<FrameId>)
    requires forall g :: g in frames ==> g in frames' && frames'[g].InheritFrame? == frames[g].InheritFrame?
    requires forall g :: g in frames && frames[g].InheritFrame? ==> frames'[g].parent == frames[g].parent
    requires forall g :: g in frames && frames[g].InheritFrame? && frames[g].parent.Some? ==> frames[g].parent.value in frames
    requires f.Some? ==> f.value in frames
    ensures ChainFrom(frames', f, visited) == ChainFrom(frames, f, visited)
    decreases frames.Keys - visited
  {
    if f.Some? && f.value !in visited && frames[f.value].InheritFrame? {
      ChainFromStable(frames, frames', frames[f.value].parent, visited + {f.value});
    }
  }

  /** `TryGetFromThisOrAncestor`: the entry stored for `p` in the nearest
      frame of the chain from `f` that holds one. */
  function TryGetFromThisOrAncestor(frames: map<FrameId, Frame>, f: FrameId, p: PropId): (r: Option<EntryId>)
  {
    FirstHolding(frames, ChainFrom(frames, Some(f), {}), p)
  }

  function FirstHolding(frames: map<FrameId, Frame>, chain: seq<FrameId>, p: PropId): (r: Option<EntryId>)
    requires forall k :: 0 <= k < |chain| ==> chain[k] in frames
  {
    if |chain| == 0 then None
    else
      var here := FrameMaps.TryGet(KeyedValues(frames[chain[0]]), p);
      if here.Some? then here else FirstHolding(frames, chain[1..], p)
  }

  /** The declarative reading of the walk, both directions: nothing is found
      exactly when no frame of the chain holds `p`; otherwise the result is
      what the first frame holding `p` stores. */
  lemma {:induction false} FirstHoldingSpec(frames: map<FrameId, Frame>, chain: seq<FrameId>, p: PropId)
    requires forall k :: 0 <= k < |chain| ==> chain[k] in frames
    ensures FirstHolding(frames, chain, p).None? <==>
      forall k :: 0 <= k < |chain| ==> p !in FrameMaps.ToMap(KeyedValues(frames[chain[k]]))
    ensures FirstHolding(frames, chain, p).Some? ==>
      exists k :: 0 <= k < |chain| && p in FrameMaps.ToMap(KeyedValues(frames[chain[k]]))
        && FirstHolding(frames, chain, p).value == FrameMaps.ToMap(KeyedValues(frames[chain[k]]))[p]
        && forall j :: 0 <= j < k ==> p !in FrameMaps.ToMap(KeyedValues(frames[chain[j]]))
  {
    if |chain| > 0 && FrameMaps.TryGet(KeyedValues(frames[chain[0]]), p).None? {
      var tail := chain[1..];
      FirstHoldingSpec(frames, tail, p);
      if FirstHolding(frames, tail, p).Some? {
        var k :| 0 <= k < |tail| && p in FrameMaps.ToMap(KeyedValues(frames[tail[k]]))
          && FirstHolding(frames, tail, p).value == FrameMaps.ToMap(KeyedValues(frames[tail[k]]))[p]
          && forall j :: 0 <= j < k ==> p !in FrameMaps.ToMap(KeyedValues(frames[tail[j]]));
        assert chain[k + 1] == tail[k];
        assert forall j :: 0 <= j < k + 1 ==> p !in FrameMaps.ToMap(KeyedValues(frames[chain[j]])) by {
          forall j | 0 <= j < k + 1 ensures p !in FrameMaps.ToMap(KeyedValues(frames[chain[j]])) {
            if j > 0 { assert chain[j] == tail[j - 1]; }
          }
        }
      } else {
        forall k | 0 <= k < |chain| ensures p !in FrameMaps.ToMap(KeyedValues(frames[chain[k]])) {
          if k > 0 { assert chain[k] == tail[k - 1]; }
        }
      }
    }
  }

  /** `InheritanceFrame.SetParent`: only the parent changes; the owner is
      fixed at construction and the entries stay. */
  function SetParent(fr: Frame, parent: Option<FrameId>): (r: Frame)
    requires fr.InheritFrame?
    ensures r.InheritFrame? && r.parent == parent
    ensures r.owner == fr.owner && r.values == fr.values
  {
    fr.(parent := parent)
  }

  /** `InheritanceFrame.SetValue`: inserts or replaces the entry under its
      property in this frame only. */
  function SetInheritedValue(fr: Frame, p: PropId, e: EntryId): (r: Frame)
    requires fr.InheritFrame?
    ensures r.InheritFrame? && r.owner == fr.owner && r.parent == fr.parent
    ensures FrameMaps.ToMap(r.values) == FrameMaps.ToMap(fr.values)[p := e]
  {
    fr.(values := FrameMaps.Set(fr.values, p, e))
  }

  /** Children of an object in the logical tree, in order. */
  function Children(w: World, o: ObjId): seq<ObjId> {
    if o in w.tree then w.tree[o].children else []
  }

  /** `StyledPropertyBase.Inherits` of a registered property. */
  predicate Inherits(w: World, p: PropId) {
    p in w.props && w.props[p].inherits
  }

  /** `GetDefaultValue(Owner.GetType())` for a property and a store. */
  function DefaultOf(w: World, o: ObjId, p: PropId): Value {
    if p in w.props && o in w.stores then Properties.Resolve(w.props[p], w.types, w.stores[o].typeId).defaultValue
    else Null
  }
}
