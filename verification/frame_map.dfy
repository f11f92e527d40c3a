/**
 * `ValueFrameBase`: the id-keyed sorted list that holds a frame's entries.
 * A frame map is a sequence of slots whose keys (property ids) strictly
 * ascend, so each property has at most one entry and `Values` enumerates the
 * entries in ascending id order. `ToMap` is the reference reading of a frame
 * map as a finite map from property id to entry.
 */
module FrameMaps {
  import opened Base

  datatype Slot<E> = Slot(key: PropId, entry: E)

  ghost predicate Ascending<E>(m: seq<Slot<E>>) {
    forall i, j :: 0 <= i < j < |m| ==> m[i].key < m[j].key
  }

  type FrameMap<E> = m: seq<Slot<E>> | Ascending(m) witness []

  /** The map a slot sequence denotes; an earlier slot shadows a later one. */
  function ToMap<E>(m: seq<Slot<E>>): map<PropId, E>
  {
    if |m| == 0 then map[] else ToMap(m[1..])[m[0].key := m[0].entry]
  }

  lemma {:induction false} ToMapKeys<E>(m: seq<Slot<E>>, k: PropId)
    ensures k in ToMap(m) <==> exists i :: 0 <= i < |m| && m[i].key == k
  {
    if |m| > 0 {
      ToMapKeys(m[1..], k);
      if k != m[0].key && k in ToMap(m) {
        var i :| 0 <= i < |m[1..]| && m[1..][i].key == k;
        assert m[i + 1].key == k;
      }
      if k != m[0].key && (exists i :: 0 <= i < |m| && m[i].key == k) {
        var i :| 0 <= i < |m| && m[i].key == k;
        assert m[1..][i - 1].key == k;
      }
    }
  }

  /** The entries in storage order (ascending property id). */
  function Values<E>(m: FrameMap<E>): (r: seq<E>)
    ensures |r| == |m|
    ensures forall i :: 0 <= i < |m| ==> r[i] == m[i].entry
  {
    if |m| == 0 then [] else [m[0].entry] + Values(m[1..])
  }

  /** `TryGet`: the entry stored under `k`, if any. */
  function TryGet<E>(m: seq<Slot<E>>, k: PropId): (r: Option<E>)
    ensures r.Some? <==> k in ToMap(m)
    ensures r.Some? ==> r.value == ToMap(m)[k]
  {
    if |m| == 0 then None
    else if m[0].key == k then Some(m[0].entry)
    else TryGet(m[1..], k)
  }

  lemma HeadBelowTail<E>(m: FrameMap<E>)
    requires |m| > 0
    ensures forall k :: k in ToMap(m[1..]) ==> m[0].key < k
  {
    forall k | k in ToMap(m[1..])
      ensures m[0].key < k
    {
      ToMapKeys(m[1..], k);
      var i :| 0 <= i < |m[1..]| && m[1..][i].key == k;
      assert m[i + 1].key == k;
    }
  }

  lemma Cons<E>(x: Slot<E>, rest: FrameMap<E>)
    requires forall k :: k in ToMap(rest) ==> x.key < k
    ensures Ascending([x] + rest)
  {
    var r := [x] + rest;
    forall i, j | 0 <= i < j < |r|
      ensures r[i].key < r[j].key
    {
      assert r[j] == rest[j - 1];
      ToMapKeys(rest, rest[j - 1].key);
    }
  }

  function Insert<E>(m: FrameMap<E>, k: PropId, e: E): (r: FrameMap<E>)
    requires k !in ToMap(m)
    ensures ToMap(r) == ToMap(m)[k := e]
    ensures |r| == |m| + 1
  {
    if |m| == 0 then [Slot(k, e)]
    else if k < m[0].key then
      HeadBelowTail(m);
      Cons(Slot(k, e), m);
      [Slot(k, e)] + m
    else
      var tail: FrameMap<E> := m[1..];
      HeadBelowTail(m);
      var rest := Insert(tail, k, e);
      Cons(m[0], rest);
      [m[0]] + rest
  }

  /** `Add`: `SortedList.Add` rejects a key that is already present. */
  function Add<E>(m: FrameMap<E>, k: PropId, e: E): (r: Result<FrameMap<E>>)
    ensures r.Fail? <==> k in ToMap(m)
    ensures r.Fail? ==> r.error == DuplicateKey
    ensures r.Ok? ==> ToMap(r.value) == ToMap(m)[k := e] && |r.value| == |m| + 1
  {
    if TryGet(m, k).Some? then Fail(DuplicateKey) else Ok(Insert(m, k, e))
  }

  /** `Remove`: deletes the entry under `k`; reports whether there was one. */
  function Remove<E>(m: FrameMap<E>, k: PropId): (r: (FrameMap<E>, bool))
    ensures r.1 <==> k in ToMap(m)
    ensures ToMap(r.0) == ToMap(m) - {k}
    ensures |r.0| == if r.1 then |m| - 1 else |m|
  {
    if |m| == 0 then ([], false)
    else if m[0].key == k then
      HeadBelowTail(m);
      (m[1..], true)
    else
      var tail: FrameMap<E> := m[1..];
      HeadBelowTail(m);
      var (rest, found) := Remove(tail, k);
      Cons(m[0], rest);
      ([m[0]] + rest, found)
  }

  /** `Set`: inserts the entry, or overwrites the one already under `k`. */
  function Set<E>(m: FrameMap<E>, k: PropId, e: E): (r: FrameMap<E>)
    ensures ToMap(r) == ToMap(m)[k := e]
    ensures |r| == if k in ToMap(m) then |m| else |m| + 1
  {
    if TryGet(m, k).Some? then
      var (removed, _) := Remove(m, k);
      Insert(removed, k, e)
    else
      Insert(m, k, e)
  }

  /** Each slot is what the map holds under its key. */
  lemma {:induction false} SlotInMap<E>(m: FrameMap<E>, j: int)
    requires 0 <= j < |m|
    ensures m[j].key in ToMap(m) && ToMap(m)[m[j].key] == m[j].entry
  {
    if j > 0 {
      var tail: FrameMap<E> := m[1..];
      SlotInMap(tail, j - 1);
      HeadBelowTail(m);
    }
  }

  /** At most one entry per property id: a frame map has exactly as many
      slots as its map has keys. */
  lemma {:induction false} OneEntryPerKey<E>(m: FrameMap<E>)
    ensures |ToMap(m).Keys| == |m|
  {
    if |m| > 0 {
      var tail: FrameMap<E> := m[1..];
      OneEntryPerKey(tail);
      ToMapKeys(tail, m[0].key);
      assert m[0].key !in ToMap(tail);
      assert ToMap(m).Keys == ToMap(tail).Keys + {m[0].key};
    }
  }
}
