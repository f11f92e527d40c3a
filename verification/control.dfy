/**
 * `Control.Parent`: the logical tree's bookkeeping. Each control keeps its
 * parent and an ordered child list; the inheritance children of a store are
 * exactly that list.
 */
module Controls {
  import opened Base

  datatype Node = Node(parent: Option<ObjId>, children: seq<ObjId>)

  type Tree = map<ObjId, Node>

  /** `List.Remove`: drops the first occurrence, if any. */
  function RemoveFirst(s: seq<ObjId>, x: ObjId): (r: seq<ObjId>)
    ensures x !in s ==> r == s
    ensures x in s ==> |r| == |s| - 1
    ensures forall y :: y != x ==> (y in r <==> y in s)
    ensures forall y :: y in r ==> y in s
  {
    if s == [] then []
    else if s[0] == x then s[1..]
    else [s[0]] + RemoveFirst(s[1..], x)
  }

  predicate NoDuplicates(s: seq<ObjId>) {
    forall i, j :: 0 <= i < j < |s| ==> s[i] != s[j]
  }

  /** Removing the only occurrence leaves a duplicate-free list without it. */
  lemma {:induction false} RemoveFirstNoDuplicates(s: seq<ObjId>, x: ObjId)
    requires NoDuplicates(s)
    ensures NoDuplicates(RemoveFirst(s, x)) && x !in RemoveFirst(s, x)
    decreases |s|
  {
    if s != [] {
      var tail := s[1..];
      assert NoDuplicates(tail) by {
        forall i, j | 0 <= i < j < |tail| ensures tail[i] != tail[j] { assert tail[i] == s[i + 1] && tail[j] == s[j + 1]; }
      }
      assert s[0] !in tail by {
        forall k | 0 <= k < |tail| ensures tail[k] != s[0] { assert tail[k] == s[k + 1]; }
      }
      if s[0] != x {
        RemoveFirstNoDuplicates(tail, x);
        ConsNoDuplicates(s[0], RemoveFirst(tail, x));
      }
    }
  }

  /** A duplicate-free list stays so under a new head. */
  lemma ConsNoDuplicates(x: ObjId, s: seq<ObjId>)
    requires NoDuplicates(s) && x !in s
    ensures NoDuplicates([x] + s)
  {
    var r := [x] + s;
    forall i, j | 0 <= i < j < |r| ensures r[i] != r[j] {
      if i == 0 { assert r[j] == s[j - 1]; }
      else { assert r[i] == s[i - 1] && r[j] == s[j - 1]; }
    }
  }

  lemma AppendNoDuplicates(s: seq<ObjId>, x: ObjId)
    requires NoDuplicates(s) && x !in s
    ensures NoDuplicates(s + [x])
  {
    forall i, j | 0 <= i < j < |s + [x]| ensures (s + [x])[i] != (s + [x])[j] {
      if j == |s| { assert (s + [x])[i] == s[i]; }
      else { assert (s + [x])[i] == s[i] && (s + [x])[j] == s[j]; }
    }
  }

  /** Every object the tree mentions is in it. */
  predicate Closed(t: Tree) {
    forall o :: o in t ==>
      (t[o].parent.Some? ==> t[o].parent.value in t) &&
      (forall c :: c in t[o].children ==> c in t)
  }

  /** Parent pointers and child lists describe the same edges, each once. */
  predicate Coherent(t: Tree) {
    && Closed(t)
    && (forall o, c :: o in t && c in t ==> (c in t[o].children <==> t[c].parent == Some(o)))
    && (forall o :: o in t ==> NoDuplicates(t[o].children))
  }

  /** The first half of the setter: leave the old parent's child list. */
  function Detach(t: Tree, c: ObjId): (r: Tree)
    requires Closed(t) && c in t
    ensures Closed(r) && r.Keys == t.Keys
    ensures forall o :: o in t ==> r[o].parent == t[o].parent
    ensures forall o :: o in t && Some(o) != t[c].parent ==> r[o] == t[o]
    ensures t[c].parent.Some? ==>
      r[t[c].parent.value].children == RemoveFirst(t[t[c].parent.value].children, c)
  {
    if t[c].parent.Some? then
      var op := t[c].parent.value;
      t[op := t[op].(children := RemoveFirst(t[op].children, c))]
    else t
  }

  /** The second half: point at the new parent and join its child list. */
  function Attach(t: Tree, c: ObjId, np: Option<ObjId>): (r: Tree)
    requires Closed(t) && c in t && (np.Some? ==> np.value in t)
    ensures Closed(r) && r.Keys == t.Keys
    ensures r[c].parent == np
    ensures forall o :: o in t && o != c ==> r[o].parent == t[o].parent
    ensures forall o :: o in t && Some(o) != np ==> r[o].children == t[o].children
    ensures np.Some? ==> r[np.value].children == t[np.value].children + [c]
  {
    var t2 := t[c := t[c].(parent := np)];
    assert Closed(t2);
    if np.Some? then t2[np.value := t2[np.value].(children := t2[np.value].children + [c])] else t2
  }

  /** The `Parent` setter. The flag says whether the parent actually changed,
      which is when `InheritanceParentChanged` is called, once. */
  function SetParent(t: Tree, c: ObjId, np: Option<ObjId>): (r: (Tree, bool))
    requires Closed(t) && c in t && (np.Some? ==> np.value in t)
    ensures r.1 <==> t[c].parent != np
    ensures !r.1 ==> r.0 == t
    ensures r.1 ==> r.0 == Attach(Detach(t, c), c, np)
    ensures Closed(r.0) && r.0.Keys == t.Keys && r.0[c].parent == np
  {
    if t[c].parent == np then (t, false)
    else (Attach(Detach(t, c), c, np), true)
  }

  /** Coherent except that `c` is in nobody's child list. */
  predicate Detached(t: Tree, c: ObjId) {
    && Closed(t)
    && (forall o, d :: o in t && d in t && d != c ==> (d in t[o].children <==> t[d].parent == Some(o)))
    && (forall o :: o in t ==> NoDuplicates(t[o].children) && c !in t[o].children)
  }

  lemma {:induction false} DetachLeavesDetached(t: Tree, c: ObjId)
    requires Coherent(t) && c in t
    ensures Detached(Detach(t, c), c)
  {
    var t1 := Detach(t, c);
    forall o | o in t ensures NoDuplicates(t1[o].children) && c !in t1[o].children {
      if Some(o) == t[c].parent {
        RemoveFirstNoDuplicates(t[o].children, c);
      } else {
        assert t1[o] == t[o];
      }
    }
  }

  lemma {:induction false} AttachCoherent(t: Tree, c: ObjId, np: Option<ObjId>)
    requires Detached(t, c) && c in t && (np.Some? ==> np.value in t)
    ensures Coherent(Attach(t, c, np))
  {
    var t2 := Attach(t, c, np);
    forall o | o in t ensures NoDuplicates(t2[o].children) {
      if Some(o) == np { AppendNoDuplicates(t[o].children, c); }
    }
  }

  /** The parent setter keeps the tree coherent: afterwards the control is in
      its new parent's child list, in no other, and no list has a duplicate. */
  lemma {:induction false} SetParentCoherent(t: Tree, c: ObjId, np: Option<ObjId>)
    requires Coherent(t) && c in t && (np.Some? ==> np.value in t)
    ensures var (t', _) := SetParent(t, c, np);
      Coherent(t') && (np.Some? ==> c in t'[np.value].children)
      && (forall o :: o in t' && Some(o) != np ==> c !in t'[o].children)
  {
    var (t', changed) := SetParent(t, c, np);
    if changed {
      DetachLeavesDetached(t, c);
      AttachCoherent(Detach(t, c), c, np);
    }
  }

  /** The store's view of its inheritance children: the child list. */
  function InheritanceChildCount(t: Tree, o: ObjId): (r: nat)
    requires o in t
    ensures r == |t[o].children|
  {
    |t[o].children|
  }

  function InheritanceChild(t: Tree, o: ObjId, i: nat): (r: ObjId)
    requires o in t && i < |t[o].children|
    ensures r == t[o].children[i] && r in t[o].children
  {
    t[o].children[i]
  }
}
