/**
 * `Style.Instance`: turning a style into a frame for one target. A style whose
 * selector does not match contributes nothing; otherwise its value-store
 * setters are instanced into a new `StyleInstance`, which is cached and shared
 * with later targets when every setter instanced as itself.
 */
module Styles {
  import opened Base
  import FrameMaps
  import Setters
  import SetterBindings
  import StyleInstances

  /** A setter in a style's list: a value-store setter (with the id it has as
      an entry when it instances as itself), or some other kind of setter. */
  datatype StyleSetter = StoreSetter(id: EntryId, setter: Setters.Setter) | OtherSetter

  /** The result of evaluating the style's selector against the target. */
  datatype Match = NoMatch | Match(activator: Option<ActivatorId>)

  /** The cached `_sharedInstance`: its frame, and the activator it was built
      with. */
  datatype SharedInstance = SharedInstance(frame: FrameId, activator: Option<ActivatorId>)

  datatype Style = Style(hasSelector: bool, setters: seq<StyleSetter>, shared: Option<SharedInstance>)

  /** The new binding instances a style instance needs, with their entry ids. */
  type NewBindings = seq<(EntryId, SetterBindings.SetterBinding)>

  datatype Instanced =
    | Reused(frame: FrameId)
    | Created(frame: FrameId, instance: StyleInstances.StyleInstance, bindings: NewBindings)

  datatype Outcome = Outcome(style: Style, result: Result<Option<Instanced>>, next: nat)

  /** The property a value-store setter sets, if it names one. */
  function PropOf(s: StyleSetter): Option<PropId> {
    if s.StoreSetter? then s.setter.property else None
  }

  predicate Instanceable(s: StyleSetter, convertible: Setters.Convertible) {
    s.StoreSetter? ==> Setters.Instance(s.setter, convertible).Ok?
  }

  /** Every value-store setter instances without error, and no two of them set
      the same property. */
  predicate Buildable(setters: seq<StyleSetter>, keys: set<PropId>, convertible: Setters.Convertible) {
    && (forall i :: 0 <= i < |setters| ==> Instanceable(setters[i], convertible))
    && (forall i :: 0 <= i < |setters| && PropOf(setters[i]).Some? ==> PropOf(setters[i]).value !in keys)
    && (forall i, j :: 0 <= i < j < |setters| && PropOf(setters[i]).Some? ==> PropOf(setters[i]) != PropOf(setters[j]))
  }

  /** Every value-store setter is a valid constant, so it is its own entry. */
  predicate AllConstant(setters: seq<StyleSetter>, convertible: Setters.Convertible) {
    forall i :: 0 <= i < |setters| && setters[i].StoreSetter? ==> Setters.IsConstant(setters[i].setter, convertible)
  }

  function Props(setters: seq<StyleSetter>): set<PropId> {
    set i | 0 <= i < |setters| && PropOf(setters[i]).Some? :: PropOf(setters[i]).value
  }

  datatype Built = Built(instance: StyleInstances.StyleInstance, bindings: NewBindings, next: nat, inPlace: bool)

  /** The keys a setter adds to a frame. */
  function KeyOf(s: StyleSetter): set<PropId> {
    if PropOf(s).Some? then {PropOf(s).value} else {}
  }

  lemma PropsCons(setters: seq<StyleSetter>)
    requires setters != []
    ensures Props(setters) == KeyOf(setters[0]) + Props(setters[1..])
  {
    var rest := setters[1..];
    forall p | p in Props(setters) ensures p in KeyOf(setters[0]) + Props(rest) {
      var i :| 0 <= i < |setters| && PropOf(setters[i]).Some? && PropOf(setters[i]).value == p;
      if i > 0 { assert PropOf(rest[i - 1]).value == p; }
    }
    forall p | p in Props(rest) ensures p in Props(setters) {
      var i :| 0 <= i < |rest| && PropOf(rest[i]).Some? && PropOf(rest[i]).value == p;
      assert rest[i] == setters[i + 1];
    }
  }

  lemma BuildableCons(setters: seq<StyleSetter>, keys: set<PropId>, convertible: Setters.Convertible)
    requires setters != []
    ensures Buildable(setters, keys, convertible) <==>
      Instanceable(setters[0], convertible) && KeyOf(setters[0]) !! keys &&
      Buildable(setters[1..], keys + KeyOf(setters[0]), convertible)
  {
    var rest := setters[1..];
    assert forall i :: 0 <= i < |rest| ==> rest[i] == setters[i + 1];
    if Instanceable(setters[0], convertible) && KeyOf(setters[0]) !! keys &&
      Buildable(rest, keys + KeyOf(setters[0]), convertible) {
      forall i, j | 0 <= i < j < |setters| && PropOf(setters[i]).Some?
        ensures PropOf(setters[i]) != PropOf(setters[j])
      {
        if i > 0 { assert PropOf(rest[i - 1]) != PropOf(rest[j - 1]); }
        else { assert PropOf(rest[j - 1]).Some? ==> PropOf(rest[j - 1]).value !in keys + KeyOf(setters[0]); }
      }
      assert forall i :: 0 <= i < |setters| && PropOf(setters[i]).Some? ==> PropOf(setters[i]).value !in keys by {
        forall i | 0 <= i < |setters| && PropOf(setters[i]).Some? ensures PropOf(setters[i]).value !in keys {
          if i > 0 { assert PropOf(rest[i - 1]).value !in keys + KeyOf(setters[0]); }
        }
      }
    }
    if Buildable(setters, keys, convertible) {
      assert Instanceable(setters[0], convertible);
      forall i | 0 <= i < |rest| && PropOf(rest[i]).Some?
        ensures PropOf(rest[i]).value !in keys + KeyOf(setters[0])
      {
        assert PropOf(setters[0]) != PropOf(setters[i + 1]) || PropOf(setters[0]).None?;
      }
    }
  }

  lemma AllConstantCons(setters: seq<StyleSetter>, convertible: Setters.Convertible)
    requires setters != []
    ensures AllConstant(setters, convertible) <==>
      (setters[0].StoreSetter? ==> Setters.IsConstant(setters[0].setter, convertible)) &&
      AllConstant(setters[1..], convertible)
  {
    assert forall i :: 0 <= i < |setters[1..]| ==> setters[1..][i] == setters[i + 1];
  }

  /** The setter loop: instance each value-store setter in order, add its
      entry to the frame, and track whether every one was the setter itself.
      The first failing setter or duplicate property aborts the loop. */
  function InstanceSetters(setters: seq<StyleSetter>, si: StyleInstances.StyleInstance,
                           convertible: Setters.Convertible, next: nat): (r: Result<Built>)
    ensures r.Ok? <==> Buildable(setters, FrameMaps.ToMap(si.values).Keys, convertible)
    ensures r.Ok? ==> (r.value.inPlace <==> AllConstant(setters, convertible))
    ensures r.Ok? ==> FrameMaps.ToMap(r.value.instance.values).Keys == FrameMaps.ToMap(si.values).Keys + Props(setters)
    ensures r.Ok? ==> r.value.instance.(values := si.values) == si
    ensures r.Ok? ==> r.value.next == next + |r.value.bindings|
    decreases |setters|
  {
    if setters == [] then Ok(Built(si, [], next, true))
    else
      var rest := setters[1..];
      PropsCons(setters);
      BuildableCons(setters, FrameMaps.ToMap(si.values).Keys, convertible);
      AllConstantCons(setters, convertible);
      match setters[0]
      case OtherSetter => InstanceSetters(rest, si, convertible, next)
      case StoreSetter(id, s) =>
        match Setters.Instance(s, convertible)
        case Fail(err) => Fail(err)
        case Ok(Itself) =>
          (match StyleInstances.Add(si, s.property.value, id)
           case Fail(err) => Fail(err)
           case Ok(si1) => InstanceSetters(rest, si1, convertible, next))
        case Ok(NewBinding(p, binding)) =>
          match StyleInstances.Add(si, p, next)
          case Fail(err) => Fail(err)
          case Ok(si1) =>
            match InstanceSetters(rest, si1, convertible, next + 1)
            case Fail(err) => Fail(err)
            case Ok(b) => Ok(b.(bindings := [(next, SetterBindings.Create(p, binding))] + b.bindings, inPlace := false))
  }

  /** What a built frame holds: the entries of the frame it started from,
      each constant setter under its own id, and each new binding instance,
      numbered from `next` in setter order, under its property. */
  ghost predicate HoldsEntries(setters: seq<StyleSetter>, si: StyleInstances.StyleInstance,
                               convertible: Setters.Convertible, next: nat, b: Built)
  {
    var m := FrameMaps.ToMap(b.instance.values);
    && (forall k :: k in FrameMaps.ToMap(si.values) ==> k in m && m[k] == FrameMaps.ToMap(si.values)[k])
    && (forall i :: 0 <= i < |setters| && setters[i].StoreSetter? && Setters.IsConstant(setters[i].setter, convertible) ==>
          setters[i].setter.property.value in m && m[setters[i].setter.property.value] == setters[i].id)
    && (forall k :: 0 <= k < |b.bindings| ==>
          b.bindings[k].0 == next + k && b.bindings[k].1.prop in m && m[b.bindings[k].1.prop] == next + k &&
          b.bindings[k].1 == SetterBindings.Create(b.bindings[k].1.prop, b.bindings[k].1.binding))
  }

  /** A setter that is not a value-store setter adds nothing. */
  lemma OtherSetterEntries(setters: seq<StyleSetter>, si: StyleInstances.StyleInstance,
                           convertible: Setters.Convertible, next: nat, b: Built)
    requires setters != [] && setters[0].OtherSetter?
    requires HoldsEntries(setters[1..], si, convertible, next, b)
    ensures HoldsEntries(setters, si, convertible, next, b)
  {
    var m := FrameMaps.ToMap(b.instance.values);
    forall i | 0 <= i < |setters| && setters[i].StoreSetter? && Setters.IsConstant(setters[i].setter, convertible)
      ensures setters[i].setter.property.value in m && m[setters[i].setter.property.value] == setters[i].id
    {
      assert setters[i] == setters[1..][i - 1];
    }
  }

  /** A constant setter is filed under its own id. */
  lemma ItselfEntries(setters: seq<StyleSetter>, si: StyleInstances.StyleInstance, si1: StyleInstances.StyleInstance,
                      convertible: Setters.Convertible, next: nat, b: Built)
    requires setters != [] && setters[0].StoreSetter? && Setters.IsConstant(setters[0].setter, convertible)
    requires StyleInstances.Add(si, setters[0].setter.property.value, setters[0].id) == Ok(si1)
    requires HoldsEntries(setters[1..], si1, convertible, next, b)
    ensures HoldsEntries(setters, si, convertible, next, b)
  {
    var m := FrameMaps.ToMap(b.instance.values);
    var p := setters[0].setter.property.value;
    assert p in FrameMaps.ToMap(si1.values);
    forall k | k in FrameMaps.ToMap(si.values) ensures k in m && m[k] == FrameMaps.ToMap(si.values)[k] {
      assert k != p && k in FrameMaps.ToMap(si1.values);
    }
    forall i | 0 <= i < |setters| && setters[i].StoreSetter? && Setters.IsConstant(setters[i].setter, convertible)
      ensures setters[i].setter.property.value in m && m[setters[i].setter.property.value] == setters[i].id
    {
      if i > 0 { assert setters[i] == setters[1..][i - 1]; }
    }
  }

  /** A bound setter's new binding instance takes the next id, ahead of the
      ones the rest of the setters need. */
  lemma NewBindingEntries(setters: seq<StyleSetter>, si: StyleInstances.StyleInstance, si1: StyleInstances.StyleInstance,
                          convertible: Setters.Convertible, next: nat, b1: Built, p: PropId, binding: BindingId)
    requires setters != [] && setters[0].StoreSetter?
    requires Setters.Instance(setters[0].setter, convertible) == Ok(Setters.NewBinding(p, binding))
    requires StyleInstances.Add(si, p, next) == Ok(si1)
    requires HoldsEntries(setters[1..], si1, convertible, next + 1, b1)
    ensures HoldsEntries(setters, si, convertible, next,
                         b1.(bindings := [(next, SetterBindings.Create(p, binding))] + b1.bindings, inPlace := false))
  {
    var b := b1.(bindings := [(next, SetterBindings.Create(p, binding))] + b1.bindings, inPlace := false);
    var m := FrameMaps.ToMap(b.instance.values);
    assert p in FrameMaps.ToMap(si1.values);
    forall k | k in FrameMaps.ToMap(si.values) ensures k in m && m[k] == FrameMaps.ToMap(si.values)[k] {
      assert k != p && k in FrameMaps.ToMap(si1.values);
    }
    forall i | 0 <= i < |setters| && setters[i].StoreSetter? && Setters.IsConstant(setters[i].setter, convertible)
      ensures setters[i].setter.property.value in m && m[setters[i].setter.property.value] == setters[i].id
    {
      assert i > 0;
      assert setters[i] == setters[1..][i - 1];
    }
    forall k | 0 <= k < |b.bindings|
      ensures b.bindings[k].0 == next + k && b.bindings[k].1.prop in m && m[b.bindings[k].1.prop] == next + k
    {
      if k > 0 { assert b.bindings[k] == b1.bindings[k - 1]; }
    }
  }

  /** What the built frame holds: each constant setter under its own id, and
      each new binding instance, numbered from `next` in setter order, under
      its property. Entries already in the frame are kept. */
  lemma {:induction false} InstanceSettersEntries(setters: seq<StyleSetter>, si: StyleInstances.StyleInstance,
                                                  convertible: Setters.Convertible, next: nat)
    requires InstanceSetters(setters, si, convertible, next).Ok?
    ensures HoldsEntries(setters, si, convertible, next, InstanceSetters(setters, si, convertible, next).value)
    decreases |setters|
  {
    if setters != [] {
      var rest := setters[1..];
      PropsCons(setters);
      var b := InstanceSetters(setters, si, convertible, next).value;
      match setters[0]
      case OtherSetter =>
        InstanceSettersEntries(rest, si, convertible, next);
        OtherSetterEntries(setters, si, convertible, next, b);
      case StoreSetter(id, s) =>
        match Setters.Instance(s, convertible)
        case Ok(Itself) =>
          var si1 := StyleInstances.Add(si, s.property.value, id).value;
          InstanceSettersEntries(rest, si1, convertible, next);
          ItselfEntries(setters, si, si1, convertible, next, b);
        case Ok(NewBinding(p, binding)) =>
          var si1 := StyleInstances.Add(si, p, next).value;
          InstanceSettersEntries(rest, si1, convertible, next + 1);
          NewBindingEntries(setters, si, si1, convertible, next, InstanceSetters(rest, si1, convertible, next + 1).value, p, binding);
    }
  }

  /** The shared part of `Instance` once the selector has matched: build a
      new instance at frame id `next` and its binding entries after it;
      `share` decides whether the new instance is cached. */
  function Build(style: Style, activator: Option<ActivatorId>, convertible: Setters.Convertible,
                 next: nat, share: bool -> bool): Outcome
  {
    match InstanceSetters(style.setters, StyleInstances.Create(activator), convertible, next + 1)
    case Fail(err) => Outcome(style, Fail(err), next)
    case Ok(b) =>
      var style' := if share(b.inPlace) then style.(shared := Some(SharedInstance(next, activator))) else style;
      Outcome(style', Ok(Some(Created(next, b.instance, b.bindings))), b.next)
  }

  /** `Style.Instance` as written: no selector or no match gives nothing; a
      cached instance is returned as is; otherwise a new instance is built and
      cached whenever every setter instanced as itself — even when the match
      carried an activator, which belongs to this target alone. */
  function InstanceAsWritten(style: Style, m: Match, convertible: Setters.Convertible, next: nat): (r: Outcome)
    ensures !style.hasSelector || m.NoMatch? ==> r == Outcome(style, Ok(None), next)
    ensures style.hasSelector && m.Match? && style.shared.Some? ==>
      r == Outcome(style, Ok(Some(Reused(style.shared.value.frame))), next)
    ensures style.hasSelector && m.Match? && style.shared.None? ==>
      (r.result.Ok? <==> Buildable(style.setters, {}, convertible)) &&
      (r.result.Ok? ==> r.style.shared.Some? == AllConstant(style.setters, convertible))
  {
    if !style.hasSelector || m.NoMatch? then Outcome(style, Ok(None), next)
    else if style.shared.Some? then Outcome(style, Ok(Some(Reused(style.shared.value.frame))), next)
    else Build(style, m.activator, convertible, next, inPlace => inPlace)
  }

  /** `Style.Instance` as evidently intended: the same, except that only an
      instance without an activator is cached for sharing. */
  function Instance(style: Style, m: Match, convertible: Setters.Convertible, next: nat): (r: Outcome)
    ensures !style.hasSelector || m.NoMatch? ==> r == Outcome(style, Ok(None), next)
    ensures style.hasSelector && m.Match? && style.shared.Some? ==>
      r == Outcome(style, Ok(Some(Reused(style.shared.value.frame))), next)
    ensures style.hasSelector && m.Match? && style.shared.None? ==>
      (r.result.Ok? <==> Buildable(style.setters, {}, convertible)) &&
      (r.result.Ok? ==> r.style.shared.Some? == (AllConstant(style.setters, convertible) && m.activator.None?))
    ensures r.result.Ok? && r.result.value.Some? && r.result.value.value.Created? ==>
      var c := r.result.value.value;
      c.frame == next && c.instance.activator == m.activator && r.next == next + 1 + |c.bindings|
      && FrameMaps.ToMap(c.instance.values).Keys == Props(style.setters)
  {
    if !style.hasSelector || m.NoMatch? then Outcome(style, Ok(None), next)
    else if style.shared.Some? then Outcome(style, Ok(Some(Reused(style.shared.value.frame))), next)
    else Build(style, m.activator, convertible, next, inPlace => inPlace && m.activator.None?)
  }

  /** A style whose cached instance (if any) carries no activator. */
  predicate SharesOnlyUnconditional(style: Style) {
    style.shared.Some? ==> style.shared.value.activator.None?
  }

  /** The corrected `Instance` keeps every shared instance unconditional, so
      a reused instance never carries another target's trigger. */
  lemma SharedInstanceIsUnconditional(style: Style, m: Match, convertible: Setters.Convertible, next: nat)
    requires SharesOnlyUnconditional(style)
    ensures SharesOnlyUnconditional(Instance(style, m, convertible, next).style)
    ensures var r := Instance(style, m, convertible, next);
      r.result.Ok? && r.result.value.Some? && r.result.value.value.Reused? ==>
      style.shared.Some? && style.shared.value.activator.None?
  {
  }

  /** As written, a style with a class trigger and one constant setter hands
      the first target's instance — gated by the first target's activator —
      to a second target whose own activator is a different one. */
  lemma SharedTriggerCounterexample()
    ensures var style := Style(true, [StoreSetter(7, Setters.Setter(Some(1), Setters.Constant(Val(1))))], None);
      var conv: Setters.Convertible := (p, v) => true;
      var first := InstanceAsWritten(style, Match(Some(1)), conv, 10);
      var second := InstanceAsWritten(first.style, Match(Some(2)), conv, first.next);
      && first.result.Ok? && first.result.value == Some(Created(10, first.result.value.value.instance, []))
      && first.result.value.value.instance.activator == Some(1)
      && first.style.shared == Some(SharedInstance(10, Some(1)))
      && second.result == Ok(Some(Reused(10)))
  {
    var style := Style(true, [StoreSetter(7, Setters.Setter(Some(1), Setters.Constant(Val(1))))], None);
    var conv: Setters.Convertible := (p, v) => true;
    assert AllConstant(style.setters, conv);
    assert Buildable(style.setters, {}, conv);
  }

  /** The prototype style (no selector): a cached instance is returned as is;
      otherwise every setter is instanced into an always-active instance at
      the `Style` tier, cached when every setter instanced as itself. */
  datatype PrototypeStyle = PrototypeStyle(setters: seq<StyleSetter>, shared: Option<FrameId>)

  function PrototypeInstance(style: PrototypeStyle, convertible: Setters.Convertible, next: nat): (r: (PrototypeStyle, Result<Instanced>, nat))
    requires forall i :: 0 <= i < |style.setters| ==> style.setters[i].StoreSetter?
    ensures style.shared.Some? ==> r == (style, Ok(Reused(style.shared.value)), next)
    ensures style.shared.None? ==> (r.1.Ok? <==> Buildable(style.setters, {}, convertible))
    ensures style.shared.None? && r.1.Ok? ==>
      r.1.value.Created? && r.1.value.frame == next &&
      r.1.value.instance.priority == Base.Style && r.1.value.instance.active &&
      (r.0.shared.Some? <==> AllConstant(style.setters, convertible)) &&
      FrameMaps.ToMap(r.1.value.instance.values).Keys == Props(style.setters)
  {
    if style.shared.Some? then (style, Ok(Reused(style.shared.value)), next)
    else
      match InstanceSetters(style.setters, StyleInstances.Create(None), convertible, next + 1)
      case Fail(err) => (style, Fail(err), next)
      case Ok(b) =>
        var style' := if b.inPlace then style.(shared := Some(next)) else style;
        (style', Ok(Created(next, b.instance, b.bindings)), b.next)
  }
}
