/**
 * The cascade resolver of `ValueStore`, stated over a store's frames as the
 * scans see them. A layer is a frame: its priority, whether it is active, and
 * its entries in storage order, each with its property id and whether it
 * currently has a value. The inheritance chain is the list of inheritance
 * frames the store walks, nearest first.
 *
 * `Evaluate` is the single-property evaluation; `Rebuild` is the batch pass
 * that builds the whole effective-value cache in one sweep. The main theorem,
 * `RebuildAgreesWithEvaluate`, says the two agree on every property.
 */
module Cascade {
  import opened Base
  import FrameMaps

  datatype Candidate = Candidate(prop: PropId, present: bool, entry: EntryId)

  datatype Layer = Layer(priority: int, active: bool, candidates: seq<Candidate>)

  /** The entry that supplies the effective value and the priority it wins at. */
  datatype Winner = Winner(entry: EntryId, priority: int)

  predicate Supplies(c: Candidate, p: PropId) {
    c.prop == p && c.present
  }

  /** The first entry of a frame that is for `p` and has a value. */
  function FirstPresent(cs: seq<Candidate>, p: PropId): (r: Option<EntryId>)
    ensures r.None? <==> forall j :: 0 <= j < |cs| ==> !Supplies(cs[j], p)
  {
    if |cs| == 0 then None
    else if Supplies(cs[0], p) then Some(cs[0].entry)
    else FirstPresent(cs[1..], p)
  }

  /** `FirstPresent` returns the entry of the first supplying candidate. */
  lemma {:induction false} FirstPresentIsFirst(cs: seq<Candidate>, p: PropId)
    requires FirstPresent(cs, p).Some?
    ensures exists j :: 0 <= j < |cs| && Supplies(cs[j], p) && cs[j].entry == FirstPresent(cs, p).value
                        && forall k :: 0 <= k < j ==> !Supplies(cs[k], p)
  {
    if !Supplies(cs[0], p) {
      FirstPresentIsFirst(cs[1..], p);
      var j :| 0 <= j < |cs[1..]| && Supplies(cs[1..][j], p) && cs[1..][j].entry == FirstPresent(cs[1..], p).value
                && forall k :: 0 <= k < j ==> !Supplies(cs[1..][k], p);
      assert Supplies(cs[j + 1], p);
      assert forall k :: 0 <= k < j + 1 ==> !Supplies(cs[k], p) by {
        forall k | 0 <= k < j + 1 ensures !Supplies(cs[k], p) {
          if k > 0 { assert cs[k] == cs[1..][k - 1]; }
        }
      }
    }
  }

  /** The frame scan: from the strongest (last) frame down, skipping inactive
      frames, the first frame that supplies `p` wins at its own priority. */
  function ScanLayers(ls: seq<Layer>, p: PropId): (r: Option<Winner>)
    decreases |ls|
  {
    if |ls| == 0 then None
    else
      var last := ls[|ls| - 1];
      if last.active && FirstPresent(last.candidates, p).Some? then
        Some(Winner(FirstPresent(last.candidates, p).value, last.priority))
      else ScanLayers(ls[..|ls| - 1], p)
  }

  /** The declarative reading of the frame scan, in both directions: no winner
      exactly when no active frame supplies `p`; otherwise the winner comes from
      an active frame that supplies `p` with no supplying active frame after it. */
  lemma ScanLayersSpec(ls: seq<Layer>, p: PropId)
    ensures ScanLayers(ls, p).None? <==>
      forall i :: 0 <= i < |ls| && ls[i].active ==> FirstPresent(ls[i].candidates, p).None?
    ensures ScanLayers(ls, p).Some? ==>
      exists i :: 0 <= i < |ls| && ls[i].active && FirstPresent(ls[i].candidates, p).Some?
        && ScanLayers(ls, p) == Some(Winner(FirstPresent(ls[i].candidates, p).value, ls[i].priority))
        && forall k :: i < k < |ls| && ls[k].active ==> FirstPresent(ls[k].candidates, p).None?
  {
    ScanLayersNone(ls, p);
    ScanLayersSome(ls, p);
  }

  lemma {:induction false} ScanLayersNone(ls: seq<Layer>, p: PropId)
    ensures ScanLayers(ls, p).None? <==>
      forall i :: 0 <= i < |ls| && ls[i].active ==> FirstPresent(ls[i].candidates, p).None?
    decreases |ls|
  {
    if |ls| > 0 {
      var n := |ls| - 1;
      ScanLayersNone(ls[..n], p);
      assert forall i :: 0 <= i < n ==> ls[..n][i] == ls[i];
    }
  }

  lemma {:induction false} ScanLayersSome(ls: seq<Layer>, p: PropId)
    ensures ScanLayers(ls, p).Some? ==>
      exists i :: 0 <= i < |ls| && ls[i].active && FirstPresent(ls[i].candidates, p).Some?
        && ScanLayers(ls, p) == Some(Winner(FirstPresent(ls[i].candidates, p).value, ls[i].priority))
        && forall k :: i < k < |ls| && ls[k].active ==> FirstPresent(ls[k].candidates, p).None?
    decreases |ls|
  {
    if |ls| > 0 {
      var n := |ls| - 1;
      var init := ls[..n];
      if ls[n].active && FirstPresent(ls[n].candidates, p).Some? {
        assert ScanLayers(ls, p) == Some(Winner(FirstPresent(ls[n].candidates, p).value, ls[n].priority));
      } else if ScanLayers(ls, p).Some? {
        assert ScanLayers(ls, p) == ScanLayers(init, p);
        ScanLayersSome(init, p);
        var i :| 0 <= i < |init| && init[i].active && FirstPresent(init[i].candidates, p).Some?
          && ScanLayers(init, p) == Some(Winner(FirstPresent(init[i].candidates, p).value, init[i].priority))
          && forall k :: i < k < |init| && init[k].active ==> FirstPresent(init[k].candidates, p).None?;
        assert ls[i] == init[i];
        assert forall k :: i < k < n ==> ls[k] == init[k];
        assert forall k :: i < k < |ls| && ls[k].active ==> FirstPresent(ls[k].candidates, p).None?;
      }
    }
  }

  /** The walk up the inheritance chain: the nearest frame that supplies `p`,
      at priority `Inherited`. */
  function ScanChain(chain: seq<seq<Candidate>>, p: PropId): (r: Option<Winner>)
    ensures r.Some? ==> r.value.priority == Inherited
    ensures r.None? <==> forall k :: 0 <= k < |chain| ==> FirstPresent(chain[k], p).None?
  {
    if |chain| == 0 then None
    else if FirstPresent(chain[0], p).Some? then Some(Winner(FirstPresent(chain[0], p).value, Inherited))
    else ScanChain(chain[1..], p)
  }

  /** The chain's winner is the entry some frame of the chain supplies. */
  lemma {:induction false} ScanChainWitness(chain: seq<seq<Candidate>>, p: PropId)
    requires ScanChain(chain, p).Some?
    ensures exists k :: 0 <= k < |chain| && FirstPresent(chain[k], p) == Some(ScanChain(chain, p).value.entry)
  {
    if FirstPresent(chain[0], p).None? {
      ScanChainWitness(chain[1..], p);
      var k :| 0 <= k < |chain[1..]| && FirstPresent(chain[1..][k], p) == Some(ScanChain(chain[1..], p).value.entry);
      assert chain[k + 1] == chain[1..][k];
    }
  }

  /** `EvaluateEffectiveValue`: the frames first; then, for an inheriting
      property only, the inheritance chain; otherwise no value (priority Unset). */
  function Evaluate(ls: seq<Layer>, chain: seq<seq<Candidate>>, p: PropId, inherits: bool): (r: Option<Winner>)
    ensures ScanLayers(ls, p).Some? ==> r == ScanLayers(ls, p)
    ensures ScanLayers(ls, p).None? && !inherits ==> r.None?
    ensures ScanLayers(ls, p).None? && inherits ==> r == ScanChain(chain, p)
  {
    if ScanLayers(ls, p).Some? then ScanLayers(ls, p)
    else if inherits then ScanChain(chain, p)
    else None
  }

  /** The priority `EvaluateEffectiveValue` reports: the winner's, or Unset. */
  function PriorityOf(w: Option<Winner>): int {
    if w.Some? then w.value.priority else Unset
  }

  // ---------------------------------------------------------------------------
  // Locality: which frames can change the outcome for a property

  /** What one frame offers the scan for `p`: the winner it would make. */
  function HitOf(l: Layer, p: PropId): (r: Option<Winner>)
    ensures r.Some? <==> l.active && FirstPresent(l.candidates, p).Some?
  {
    if l.active && FirstPresent(l.candidates, p).Some? then
      Some(Winner(FirstPresent(l.candidates, p).value, l.priority))
    else None
  }

  /** Two frame lists that offer the same hit for `p` frame by frame scan to
      the same result for `p`. */
  lemma {:induction false} ScanPointwise(ls: seq<Layer>, ls': seq<Layer>, p: PropId)
    requires |ls| == |ls'|
    requires forall i :: 0 <= i < |ls| ==> HitOf(ls[i], p) == HitOf(ls'[i], p)
    ensures ScanLayers(ls, p) == ScanLayers(ls', p)
    decreases |ls|
  {
    if |ls| > 0 {
      var n := |ls| - 1;
      assert HitOf(ls[n], p) == HitOf(ls'[n], p);
      ScanPointwise(ls[..n], ls'[..n], p);
    }
  }

  /** A frame that offers nothing for `p` can be inserted anywhere without
      changing the scan for `p`. */
  lemma {:induction false} ScanInsertMiss(ls: seq<Layer>, k: nat, l: Layer, p: PropId)
    requires k <= |ls| && HitOf(l, p).None?
    ensures ScanLayers(ls[..k] + [l] + ls[k..], p) == ScanLayers(ls, p)
    decreases |ls|
  {
    var ins := ls[..k] + [l] + ls[k..];
    if k == |ls| {
      assert ins[..|ins| - 1] == ls;
    } else {
      var n := |ls| - 1;
      assert ins[|ins| - 1] == ls[n];
      assert ins[..|ins| - 1] == ls[..n][..k] + [l] + ls[..n][k..];
      ScanInsertMiss(ls[..n], k, l, p);
    }
  }

  /** Once frame `i` offers a hit for `p`, frames before it do not matter:
      lists that agree from `i` on scan to the same result. */
  lemma {:induction false} ScanSuffixDecides(ls: seq<Layer>, ls': seq<Layer>, i: nat, p: PropId)
    requires |ls| == |ls'| && i < |ls| && HitOf(ls[i], p).Some?
    requires forall j :: i <= j < |ls| ==> ls[j] == ls'[j]
    ensures ScanLayers(ls, p) == ScanLayers(ls', p)
    decreases |ls|
  {
    var n := |ls| - 1;
    if n > i && HitOf(ls[n], p).None? {
      ScanSuffixDecides(ls[..n], ls'[..n], i, p);
    }
  }

  /** In a list sorted weakest first, a winner stronger than tier `x` is not
      disturbed by changes confined to frames of tier `x` or weaker. */
  lemma ScanAboveTier(ls: seq<Layer>, ls': seq<Layer>, p: PropId, x: int)
    requires |ls| == |ls'|
    requires forall i, j :: 0 <= i < j < |ls| ==> ls[i].priority >= ls[j].priority
    requires forall j :: 0 <= j < |ls| && ls[j] != ls'[j] ==> ls[j].priority >= x
    requires ScanLayers(ls, p).Some? && ScanLayers(ls, p).value.priority < x
    ensures ScanLayers(ls', p) == ScanLayers(ls, p)
  {
    ScanLayersSpec(ls, p);
    var i :| 0 <= i < |ls| && ls[i].active && FirstPresent(ls[i].candidates, p).Some?
      && ScanLayers(ls, p) == Some(Winner(FirstPresent(ls[i].candidates, p).value, ls[i].priority));
    ScanSuffixDecides(ls, ls', i, p);
  }

  /** The chain counterpart of `ScanPointwise`. */
  lemma {:induction false} ChainPointwise(chain: seq<seq<Candidate>>, chain': seq<seq<Candidate>>, p: PropId)
    requires |chain| == |chain'|
    requires forall k :: 0 <= k < |chain| ==> FirstPresent(chain[k], p) == FirstPresent(chain'[k], p)
    ensures ScanChain(chain, p) == ScanChain(chain', p)
    decreases |chain|
  {
    if |chain| > 0 {
      assert FirstPresent(chain[0], p) == FirstPresent(chain'[0], p);
      ChainPointwise(chain[1..], chain'[1..], p);
    }
  }

  // ---------------------------------------------------------------------------
  // Batch rebuild

  /** One entry of the dictionary the batch pass builds, in insertion order. */
  datatype Assoc = Assoc(prop: PropId, winner: Winner)

  function Lookup(acc: seq<Assoc>, p: PropId): Option<Winner> {
    if |acc| == 0 then None
    else if acc[0].prop == p then Some(acc[0].winner)
    else Lookup(acc[1..], p)
  }

  predicate DistinctKeys(acc: seq<Assoc>) {
    forall i, j :: 0 <= i < j < |acc| ==> acc[i].prop != acc[j].prop
  }

  lemma {:induction false} LookupAppend(acc: seq<Assoc>, x: Assoc, q: PropId)
    ensures Lookup(acc + [x], q) ==
      if Lookup(acc, q).Some? then Lookup(acc, q)
      else if x.prop == q then Some(x.winner) else None
  {
    if |acc| > 0 {
      assert (acc + [x])[1..] == acc[1..] + [x];
      LookupAppend(acc[1..], x, q);
    }
  }

  lemma {:induction false} LookupNoneMeansAbsent(acc: seq<Assoc>, q: PropId)
    ensures Lookup(acc, q).None? <==> forall i :: 0 <= i < |acc| ==> acc[i].prop != q
  {
    if |acc| > 0 {
      LookupNoneMeansAbsent(acc[1..], q);
      assert forall i :: 1 <= i < |acc| ==> acc[i] == acc[1..][i - 1];
    }
  }

  /** One candidate of the pass: added when its property has no entry yet and
      it has a value. */
  function Step(acc: seq<Assoc>, c: Candidate, priority: int): seq<Assoc> {
    if Lookup(acc, c.prop).None? && c.present then acc + [Assoc(c.prop, Winner(c.entry, priority))]
    else acc
  }

  function CollectFrame(acc: seq<Assoc>, cs: seq<Candidate>, priority: int): seq<Assoc>
    decreases |cs|
  {
    if |cs| == 0 then acc else CollectFrame(Step(acc, cs[0], priority), cs[1..], priority)
  }

  /** The first sweep: active frames from the strongest end. */
  function CollectLayers(acc: seq<Assoc>, ls: seq<Layer>): seq<Assoc>
    decreases |ls|
  {
    if |ls| == 0 then acc
    else
      var last := ls[|ls| - 1];
      CollectLayers(if last.active then CollectFrame(acc, last.candidates, last.priority) else acc, ls[..|ls| - 1])
  }

  /** The second sweep: the inheritance chain, nearest first, at `Inherited`. */
  function CollectChain(acc: seq<Assoc>, chain: seq<seq<Candidate>>): seq<Assoc>
    decreases |chain|
  {
    if |chain| == 0 then acc else CollectChain(CollectFrame(acc, chain[0], Inherited), chain[1..])
  }

  /** `ReevaluateEffectiveValues`' new dictionary, in insertion order. */
  function Rebuild(ls: seq<Layer>, chain: seq<seq<Candidate>>): seq<Assoc> {
    CollectChain(CollectLayers([], ls), chain)
  }

  lemma {:induction false} CollectFrameLookup(acc: seq<Assoc>, cs: seq<Candidate>, priority: int, q: PropId)
    ensures Lookup(CollectFrame(acc, cs, priority), q) ==
      if Lookup(acc, q).Some? then Lookup(acc, q)
      else if FirstPresent(cs, q).Some? then Some(Winner(FirstPresent(cs, q).value, priority))
      else None
    decreases |cs|
  {
    if |cs| > 0 {
      var acc' := Step(acc, cs[0], priority);
      CollectFrameLookup(acc', cs[1..], priority, q);
      if Lookup(acc, cs[0].prop).None? && cs[0].present {
        LookupAppend(acc, Assoc(cs[0].prop, Winner(cs[0].entry, priority)), q);
      }
    }
  }

  lemma {:induction false} CollectLayersLookup(acc: seq<Assoc>, ls: seq<Layer>, q: PropId)
    ensures Lookup(CollectLayers(acc, ls), q) ==
      if Lookup(acc, q).Some? then Lookup(acc, q) else ScanLayers(ls, q)
    decreases |ls|
  {
    if |ls| > 0 {
      var last := ls[|ls| - 1];
      var acc' := if last.active then CollectFrame(acc, last.candidates, last.priority) else acc;
      CollectLayersLookup(acc', ls[..|ls| - 1], q);
      if last.active {
        CollectFrameLookup(acc, last.candidates, last.priority, q);
      }
    }
  }

  lemma {:induction false} CollectChainLookup(acc: seq<Assoc>, chain: seq<seq<Candidate>>, q: PropId)
    ensures Lookup(CollectChain(acc, chain), q) ==
      if Lookup(acc, q).Some? then Lookup(acc, q) else ScanChain(chain, q)
    decreases |chain|
  {
    if |chain| > 0 {
      CollectFrameLookup(acc, chain[0], Inherited, q);
      CollectChainLookup(CollectFrame(acc, chain[0], Inherited), chain[1..], q);
    }
  }

  /** Every present entry of the chain is for a property in `inheriting`. */
  predicate InheritingOnly(chain: seq<seq<Candidate>>, inheriting: set<PropId>) {
    forall k, j :: 0 <= k < |chain| && 0 <= j < |chain[k]| && chain[k][j].present ==> chain[k][j].prop in inheriting
  }

  lemma {:induction false} ChainOnlyInheriting(chain: seq<seq<Candidate>>, inheriting: set<PropId>, q: PropId)
    requires InheritingOnly(chain, inheriting)
    requires q !in inheriting
    ensures ScanChain(chain, q).None?
  {
    forall k | 0 <= k < |chain| ensures FirstPresent(chain[k], q).None? {
      if FirstPresent(chain[k], q).Some? {
        FirstPresentIsFirst(chain[k], q);
      }
    }
  }

  /** The batch pass agrees with single-property evaluation on every property:
      it maps `q` to exactly the winner `Evaluate` finds, and has no entry for
      `q` exactly when `Evaluate` finds none — provided the inheritance chain
      holds only inheriting properties, which is how the store fills it. */
  lemma RebuildAgreesWithEvaluate(ls: seq<Layer>, chain: seq<seq<Candidate>>, inheriting: set<PropId>, q: PropId)
    requires InheritingOnly(chain, inheriting)
    ensures Lookup(Rebuild(ls, chain), q) == Evaluate(ls, chain, q, q in inheriting)
  {
    CollectLayersLookup([], ls, q);
    CollectChainLookup(CollectLayers([], ls), chain, q);
    if q !in inheriting {
      ChainOnlyInheriting(chain, inheriting, q);
    }
  }

  lemma {:induction false} StepDistinct(acc: seq<Assoc>, c: Candidate, priority: int)
    requires DistinctKeys(acc)
    ensures DistinctKeys(Step(acc, c, priority))
  {
    if Lookup(acc, c.prop).None? && c.present {
      LookupNoneMeansAbsent(acc, c.prop);
    }
  }

  lemma {:induction false} CollectFrameDistinct(acc: seq<Assoc>, cs: seq<Candidate>, priority: int)
    requires DistinctKeys(acc)
    ensures DistinctKeys(CollectFrame(acc, cs, priority))
    decreases |cs|
  {
    if |cs| > 0 {
      StepDistinct(acc, cs[0], priority);
      CollectFrameDistinct(Step(acc, cs[0], priority), cs[1..], priority);
    }
  }

  lemma {:induction false} CollectLayersDistinct(acc: seq<Assoc>, ls: seq<Layer>)
    requires DistinctKeys(acc)
    ensures DistinctKeys(CollectLayers(acc, ls))
    decreases |ls|
  {
    if |ls| > 0 {
      var last := ls[|ls| - 1];
      if last.active { CollectFrameDistinct(acc, last.candidates, last.priority); }
      CollectLayersDistinct(if last.active then CollectFrame(acc, last.candidates, last.priority) else acc, ls[..|ls| - 1]);
    }
  }

  lemma {:induction false} CollectChainDistinct(acc: seq<Assoc>, chain: seq<seq<Candidate>>)
    requires DistinctKeys(acc)
    ensures DistinctKeys(CollectChain(acc, chain))
    decreases |chain|
  {
    if |chain| > 0 {
      CollectFrameDistinct(acc, chain[0], Inherited);
      CollectChainDistinct(CollectFrame(acc, chain[0], Inherited), chain[1..]);
    }
  }

  /** The batch dictionary has each property at most once (`Dictionary.Add`
      is only reached for an absent key). */
  lemma RebuildDistinct(ls: seq<Layer>, chain: seq<seq<Candidate>>)
    ensures DistinctKeys(Rebuild(ls, chain))
  {
    CollectLayersDistinct([], ls);
    CollectChainDistinct(CollectLayers([], ls), chain);
  }

  /** The effective-value cache the batch installs: property id to entry. */
  function ToCache(acc: seq<Assoc>): (r: FrameMaps.FrameMap<EntryId>)
    ensures forall q :: (q in FrameMaps.ToMap(r) <==> Lookup(acc, q).Some?)
    ensures forall q :: q in FrameMaps.ToMap(r) ==> FrameMaps.ToMap(r)[q] == Lookup(acc, q).value.entry
  {
    if |acc| == 0 then []
    else FrameMaps.Set(ToCache(acc[1..]), acc[0].prop, acc[0].winner.entry)
  }

  // ---------------------------------------------------------------------------
  // Change notifications

  /** A raised `PropertyChanged`: property, old and new value, priority. */
  datatype Notice = Notice(prop: PropId, oldValue: Boxed, newValue: Boxed, priority: int)

  /** An unset side of a change stands for the per-type default. */
  function Substitute(v: Boxed, dflt: Value): (r: Boxed)
    ensures r != UnsetValue
    ensures v != UnsetValue ==> r == v
  {
    if v == UnsetValue then Boxed(dflt) else v
  }

  /** The untyped `RaisePropertyChanged`: unset sides take the default, and a
      notification goes out exactly when the two sides then differ. */
  function RaiseUntyped(p: PropId, oldValue: Boxed, newValue: Boxed, dflt: Value, priority: int): (r: seq<Notice>)
    ensures |r| <= 1
    ensures |r| == 1 <==> Substitute(oldValue, dflt) != Substitute(newValue, dflt)
    ensures |r| == 1 ==> r[0] == Notice(p, Substitute(oldValue, dflt), Substitute(newValue, dflt), priority)
  {
    var o := Substitute(oldValue, dflt);
    var n := Substitute(newValue, dflt);
    if o != n then [Notice(p, o, n, priority)] else []
  }

  /** The first half of the batch diff: every property of the new dictionary,
      in insertion order, against the value its old entry holds now (or unset
      when it had none). Unregistered ids are skipped. */
  function NewNotices(acc: seq<Assoc>, before: map<PropId, EntryId>, read: EntryId -> Boxed,
                      dflt: PropId -> Value, registered: set<PropId>): seq<Notice>
  {
    if |acc| == 0 then []
    else
      var a := acc[0];
      var oldValue := if a.prop in before then read(before[a.prop]) else UnsetValue;
      var here := if a.prop in registered
        then RaiseUntyped(a.prop, oldValue, read(a.winner.entry), dflt(a.prop), a.winner.priority)
        else [];
      here + NewNotices(acc[1..], before, read, dflt, registered)
  }

  /** The second half: each before cache slot whose property the new dictionary
      lacks reverts to the default at priority Unset. */
  function StaleNotices(before: FrameMaps.FrameMap<EntryId>, acc: seq<Assoc>, read: EntryId -> Boxed,
                        dflt: PropId -> Value, registered: set<PropId>): seq<Notice>
  {
    if |before| == 0 then []
    else
      var s := before[0];
      var here := if Lookup(acc, s.key).None? && s.key in registered
        then RaiseUntyped(s.key, read(s.entry), UnsetValue, dflt(s.key), Unset)
        else [];
      here + StaleNotices(before[1..], acc, read, dflt, registered)
  }

  /** The full diff of a batch pass. */
  function BatchNotices(before: FrameMaps.FrameMap<EntryId>, acc: seq<Assoc>, read: EntryId -> Boxed,
                        dflt: PropId -> Value, registered: set<PropId>): seq<Notice>
  {
    NewNotices(acc, FrameMaps.ToMap(before), read, dflt, registered)
      + StaleNotices(before, acc, read, dflt, registered)
  }

  predicate Mentions(ns: seq<Notice>, q: PropId) {
    exists i :: 0 <= i < |ns| && ns[i].prop == q
  }

  lemma MentionsAppend(xs: seq<Notice>, ys: seq<Notice>, q: PropId)
    ensures Mentions(xs + ys, q) <==> Mentions(xs, q) || Mentions(ys, q)
  {
    if Mentions(xs + ys, q) {
      var i :| 0 <= i < |xs + ys| && (xs + ys)[i].prop == q;
      if i >= |xs| { assert ys[i - |xs|].prop == q; }
    }
    if Mentions(ys, q) {
      var i :| 0 <= i < |ys| && ys[i].prop == q;
      assert (xs + ys)[i + |xs|].prop == q;
    }
    if Mentions(xs, q) {
      var i :| 0 <= i < |xs| && xs[i].prop == q;
      assert (xs + ys)[i].prop == q;
    }
  }

  /** What the diff promises for a property of the new dictionary: a notice
      carries the substituted old and new value at the winner's priority, and
      one is raised exactly when these differ. */
  lemma {:induction false} NewNoticesSpec(acc: seq<Assoc>, before: map<PropId, EntryId>, read: EntryId -> Boxed,
                                          dflt: PropId -> Value, registered: set<PropId>, q: PropId)
    requires DistinctKeys(acc)
    ensures var ns := NewNotices(acc, before, read, dflt, registered);
      Mentions(ns, q) <==>
        (q in registered && Lookup(acc, q).Some? &&
         Substitute(if q in before then read(before[q]) else UnsetValue, dflt(q)) != Substitute(read(Lookup(acc, q).value.entry), dflt(q)))
    ensures var ns := NewNotices(acc, before, read, dflt, registered);
      forall i :: 0 <= i < |ns| && ns[i].prop == q ==>
        Lookup(acc, q).Some? &&
        ns[i] == Notice(q, Substitute(if q in before then read(before[q]) else UnsetValue, dflt(q)),
                        Substitute(read(Lookup(acc, q).value.entry), dflt(q)), Lookup(acc, q).value.priority)
  {
    if |acc| > 0 {
      var a := acc[0];
      var tail := acc[1..];
      var rest := NewNotices(tail, before, read, dflt, registered);
      var oldValue := if a.prop in before then read(before[a.prop]) else UnsetValue;
      var here := if a.prop in registered
        then RaiseUntyped(a.prop, oldValue, read(a.winner.entry), dflt(a.prop), a.winner.priority)
        else [];
      assert forall i :: 0 <= i < |here| ==> here[i].prop == a.prop;
      assert DistinctKeys(tail);
      NewNoticesSpec(tail, before, read, dflt, registered, q);
      var ns := NewNotices(acc, before, read, dflt, registered);
      assert ns == here + rest;
      MentionsAppend(here, rest, q);
      if a.prop == q {
        LookupNoneMeansAbsent(tail, q);
        assert !Mentions(rest, q);
      } else {
        assert !Mentions(here, q);
      }
      forall i | 0 <= i < |ns| && ns[i].prop == q
        ensures Lookup(acc, q).Some? &&
          ns[i] == Notice(q, Substitute(if q in before then read(before[q]) else UnsetValue, dflt(q)),
                          Substitute(read(Lookup(acc, q).value.entry), dflt(q)), Lookup(acc, q).value.priority)
      {
        if i >= |here| {
          assert ns[i] == rest[i - |here|];
          assert Mentions(rest, q);
        }
      }
    }
  }

  /** What the diff promises for a property only the old cache had: it reverts
      to the default at priority Unset, raised exactly when the old entry's
      current value differs from that default. */
  lemma {:induction false} StaleNoticesSpec(before: FrameMaps.FrameMap<EntryId>, acc: seq<Assoc>, read: EntryId -> Boxed,
                                            dflt: PropId -> Value, registered: set<PropId>, q: PropId)
    ensures var ns := StaleNotices(before, acc, read, dflt, registered);
      Mentions(ns, q) <==>
        (q in registered && q in FrameMaps.ToMap(before) && Lookup(acc, q).None?
         && Substitute(read(FrameMaps.ToMap(before)[q]), dflt(q)) != Boxed(dflt(q)))
    ensures var ns := StaleNotices(before, acc, read, dflt, registered);
      forall i :: 0 <= i < |ns| && ns[i].prop == q ==>
        q in FrameMaps.ToMap(before) &&
        ns[i] == Notice(q, Substitute(read(FrameMaps.ToMap(before)[q]), dflt(q)), Boxed(dflt(q)), Unset)
  {
    if |before| > 0 {
      var s := before[0];
      var tail: FrameMaps.FrameMap<EntryId> := before[1..];
      FrameMaps.HeadBelowTail(before);
      StaleNoticesSpec(tail, acc, read, dflt, registered, q);
      var rest := StaleNotices(tail, acc, read, dflt, registered);
      var here := if Lookup(acc, s.key).None? && s.key in registered
        then RaiseUntyped(s.key, read(s.entry), UnsetValue, dflt(s.key), Unset)
        else [];
      assert forall i :: 0 <= i < |here| ==> here[i].prop == s.key;
      var ns := StaleNotices(before, acc, read, dflt, registered);
      assert ns == here + rest;
      MentionsAppend(here, rest, q);
      assert FrameMaps.ToMap(before) == FrameMaps.ToMap(tail)[s.key := s.entry];
      if s.key == q {
        assert q !in FrameMaps.ToMap(tail);
        assert !Mentions(rest, q);
      } else {
        assert !Mentions(here, q);
      }
      forall i | 0 <= i < |ns| && ns[i].prop == q
        ensures q in FrameMaps.ToMap(before) &&
          ns[i] == Notice(q, Substitute(read(FrameMaps.ToMap(before)[q]), dflt(q)), Boxed(dflt(q)), Unset)
      {
        if i >= |here| {
          assert ns[i] == rest[i - |here|];
          assert Mentions(rest, q);
        }
      }
    }
  }
}
