/**
 * Change-notification arguments and their recycling pool (boxing prototype).
 * An argument object is identified by `id`, so the model can tell a recycled
 * object from a fresh one. The pool is a stack (top at the end) that never
 * holds more than `MaxPoolSize` objects.
 */
module ChangeArgs {
  import opened Base

  const MaxPoolSize: nat := 4

  /** `AvaloniaPropertyChangedEventArgs`. `sender` and `property` are `None`
      once recycled; the values are `object?`, where `null` is `Boxed(Null)`. */
  datatype Args = Args(
    id: nat,
    sender: Option<ObjId>,
    property: Option<PropId>,
    oldValue: Boxed,
    newValue: Boxed,
    priority: int,
    isEffectiveValueChange: bool)

  /** The constructor: every field as given, marked as an effective change. */
  function Create(id: nat, sender: ObjId, property: PropId, oldValue: Boxed, newValue: Boxed, priority: int): (a: Args)
    ensures a.id == id && a.sender == Some(sender) && a.property == Some(property)
    ensures a.oldValue == oldValue && a.newValue == newValue && a.priority == priority
    ensures a.isEffectiveValueChange
  {
    Args(id, Some(sender), Some(property), oldValue, newValue, priority, true)
  }

  /** `Initialize`: overwrites all five fields and marks the change effective
      again; the object keeps its identity. */
  function Initialize(a: Args, sender: ObjId, property: PropId, oldValue: Boxed, newValue: Boxed, priority: int): (r: Args)
    ensures r == Create(a.id, sender, property, oldValue, newValue, priority)
  {
    a.(sender := Some(sender), property := Some(property), oldValue := oldValue,
       newValue := newValue, priority := priority, isEffectiveValueChange := true)
  }

  /** `MarkNonEffectiveValue`: clears the effective flag and nothing else. */
  function MarkNonEffectiveValue(a: Args): (r: Args)
    ensures !r.isEffectiveValueChange
    ensures r.(isEffectiveValueChange := a.isEffectiveValueChange) == a
  {
    a.(isEffectiveValueChange := false)
  }

  /** `Recycle`: drops the sender, property and both values; the priority and
      the effective flag are left as they were. */
  function Recycle(a: Args): (r: Args)
    ensures r.sender.None? && r.property.None?
    ensures r.oldValue == Boxed(Null) && r.newValue == Boxed(Null)
    ensures r.id == a.id && r.priority == a.priority && r.isEffectiveValueChange == a.isEffectiveValueChange
  {
    a.(sender := None, property := None, oldValue := Boxed(Null), newValue := Boxed(Null))
  }

  /** The pooled objects (top of the stack last) and the number of objects
      created so far, which names the next fresh one. */
  datatype Pool = Pool(stack: seq<Args>, created: nat)

  predicate Bounded(p: Pool) {
    |p.stack| <= MaxPoolSize
  }

  /** Every object the pool holds has been recycled: no sender, no property. */
  predicate AllRecycled(p: Pool) {
    forall i :: 0 <= i < |p.stack| ==> p.stack[i].sender.None? && p.stack[i].property.None?
  }

  /** `Get`: a fresh object when the pool is empty, otherwise the top object
      popped and re-initialised. Either way the result carries exactly the
      given sender, property, values and priority. */
  function Get(p: Pool, sender: ObjId, property: PropId, oldValue: Boxed, newValue: Boxed, priority: int): (r: (Pool, Args))
    ensures r.1.sender == Some(sender) && r.1.property == Some(property)
    ensures r.1.oldValue == oldValue && r.1.newValue == newValue && r.1.priority == priority
    ensures r.1.isEffectiveValueChange
    ensures |p.stack| == 0 ==> r.1.id == p.created && r.0 == Pool([], p.created + 1)
    ensures |p.stack| > 0 ==> r.1.id == p.stack[|p.stack| - 1].id && r.0 == Pool(p.stack[..|p.stack| - 1], p.created)
    ensures Bounded(p) ==> Bounded(r.0)
    ensures AllRecycled(p) ==> AllRecycled(r.0)
  {
    if |p.stack| == 0 then
      (Pool([], p.created + 1), Create(p.created, sender, property, oldValue, newValue, priority))
    else
      var e := p.stack[|p.stack| - 1];
      (Pool(p.stack[..|p.stack| - 1], p.created), Initialize(e, sender, property, oldValue, newValue, priority))
  }

  /** `Release`: recycles and pushes the object only while the pool holds fewer
      than `MaxPoolSize`; otherwise the object is dropped. */
  function Release(p: Pool, a: Args): (r: Pool)
    ensures |p.stack| < MaxPoolSize ==> r == Pool(p.stack + [Recycle(a)], p.created)
    ensures |p.stack| >= MaxPoolSize ==> r == p
    ensures Bounded(p) ==> Bounded(r)
    ensures AllRecycled(p) ==> AllRecycled(r)
  {
    if |p.stack| < MaxPoolSize then Pool(p.stack + [Recycle(a)], p.created) else p
  }

  /** Releasing into a pool with room and then getting hands back the same
      object, carrying the new arguments and none of the old ones. */
  lemma ReleaseThenGetReuses(p: Pool, a: Args, sender: ObjId, property: PropId, oldValue: Boxed, newValue: Boxed, priority: int)
    requires |p.stack| < MaxPoolSize
    ensures var r := Get(Release(p, a), sender, property, oldValue, newValue, priority);
      r.1 == Create(a.id, sender, property, oldValue, newValue, priority) && r.0 == p
  {
    assert (p.stack + [Recycle(a)])[..|p.stack|] == p.stack;
  }
}
