/**
 * Property descriptors (`AvaloniaProperty` and `StyledPropertyBase<T>`):
 * registration with a process-wide id counter, identity by id, per-type
 * metadata overrides resolved along the base-type chain with a lookup cache,
 * default-value validation and coercion.
 */
module Properties {
  import opened Base

  /** The `Type.BaseType` relation over type ids, with a rank that strictly
      decreases towards the root (a .NET type hierarchy has no cycles). */
  datatype TypeHierarchy = TypeHierarchy(baseOf: map<TypeId, TypeId>, rank: map<TypeId, nat>)

  predicate WellFounded(h: TypeHierarchy) {
    forall t :: t in h.baseOf ==> t in h.rank && h.baseOf[t] in h.rank && h.rank[h.baseOf[t]] < h.rank[t]
  }

  /** `Func<IAvaloniaObject, T, T>`: coercion receives the instance and the base value. */
  type Coercer = (ObjId, Value) -> Value

  datatype Metadata = Metadata(defaultValue: Value, coerce: Option<Coercer>)

  datatype Property = Property(
    name: string,
    id: PropId,
    ownerType: TypeId,
    defaultMetadata: Metadata,
    metadata: map<TypeId, Metadata>,
    cache: map<TypeId, Metadata>,
    hasOverrides: bool,
    inherits: bool,
    validate: Option<Value -> bool>,
    hasCoercion: bool)

  /** The static `s_nextId` counter. */
  datatype Registry = Registry(nextId: int)

  /** Whether a validator (if any) accepts the value. */
  predicate Accepts(validate: Option<Value -> bool>, v: Value) {
    validate.None? || validate.value(v)
  }

  /** Registering a styled property: the base constructor rejects a name with a
      period before taking an id; the styled constructor then checks the
      default against the validator, after the id has been consumed. */
  function Register(reg: Registry, name: string, owner: TypeId, md: Metadata,
                    inherits: bool, validate: Option<Value -> bool>): (r: (Registry, Result<Property>))
    ensures '.' in name ==> r == (reg, Fail(NameContainsPeriod))
    ensures '.' !in name ==> r.0.nextId == reg.nextId + 1
    ensures '.' !in name && !Accepts(validate, md.defaultValue) ==> r.1 == Fail(InvalidDefaultValue)
    ensures r.1.Ok? <==> '.' !in name && Accepts(validate, md.defaultValue)
    ensures r.1.Ok? ==> var p := r.1.value;
      && p.id == reg.nextId && p.name == name && p.ownerType == owner
      && p.inherits == inherits && p.defaultMetadata == md
      && p.metadata == map[owner := md] && !p.hasOverrides && p.cache == map[]
      && p.hasCoercion == md.coerce.Some?
  {
    if '.' in name then (reg, Fail(NameContainsPeriod))
    else
      var reg' := Registry(reg.nextId + 1);
      var p := Property(name, reg.nextId, owner, md, map[owner := md], map[], false,
                        inherits, validate, md.coerce.Some?);
      if !Accepts(validate, md.defaultValue) then (reg', Fail(InvalidDefaultValue))
      else (reg', Ok(p))
  }

  /** The added-owner copy constructor: same id, name and default metadata, no
      metadata of its own, the fast metadata path disabled, the source's
      `Inherits`; the validator and `HasCoercion` are not copied. */
  function AddOwner(src: Property, owner: TypeId): (p: Property)
    ensures p.id == src.id && p.inherits == src.inherits && p.ownerType == owner
    ensures p.hasOverrides && p.metadata == map[] && p.defaultMetadata == src.defaultMetadata
    ensures p.validate.None? && !p.hasCoercion
  {
    Property(src.name, src.id, owner, src.defaultMetadata, map[], map[], true,
             src.inherits, None, false)
  }

  /** `operator ==` on possibly-null properties: null equals only null, and two
      properties are equal exactly when their ids are. */
  predicate Equals(a: Option<Property>, b: Option<Property>) {
    if a.None? || b.None? then a.None? && b.None?
    else a.value.id == b.value.id
  }

  function HashCode(p: Property): int {
    p.id
  }

  /** Equality is an equivalence that depends on the id alone, the hash agrees
      with it, and an added-owner copy equals its source. */
  lemma EqualityIsIdentity(a: Property, b: Property, c: Property, t: TypeId)
    ensures Equals(Some(a), Some(a))
    ensures Equals(Some(a), Some(b)) <==> Equals(Some(b), Some(a))
    ensures Equals(Some(a), Some(b)) && Equals(Some(b), Some(c)) ==> Equals(Some(a), Some(c))
    ensures Equals(Some(a), Some(b)) ==> HashCode(a) == HashCode(b)
    ensures Equals(Some(a), Some(AddOwner(a, t)))
    ensures !Equals(Some(a), None) && Equals(None, None)
  {
  }

  /** The reference reading of metadata lookup: the metadata of the nearest
      type on the base-type chain of `t` that has an entry, else the default. */
  function Resolve(p: Property, h: TypeHierarchy, t: TypeId): Metadata
    requires WellFounded(h)
    decreases if t in h.rank then h.rank[t] else 0
  {
    if t in p.metadata then p.metadata[t]
    else if t in h.baseOf then Resolve(p, h, h.baseOf[t])
    else p.defaultMetadata
  }

  /** The invariant a property keeps: every cached lookup agrees with
      `Resolve`, and without overrides all stored metadata is the default. */
  ghost predicate Coherent(p: Property, h: TypeHierarchy)
    requires WellFounded(h)
  {
    && (forall t :: t in p.cache ==> p.cache[t] == Resolve(p, h, t))
    && (!p.hasOverrides ==> forall t :: t in p.metadata ==> p.metadata[t] == p.defaultMetadata)
  }

  lemma ResolveWithoutOverrides(p: Property, h: TypeHierarchy, t: TypeId)
    requires WellFounded(h) && Coherent(p, h) && !p.hasOverrides
    ensures Resolve(p, h, t) == p.defaultMetadata
    decreases if t in h.rank then h.rank[t] else 0
  {
    if t !in p.metadata && t in h.baseOf {
      ResolveWithoutOverrides(p, h, h.baseOf[t]);
    }
  }

  /** `GetMetadataWithOverrides`: a cache hit, or a walk up the base types
      whose result is cached for `t`. */
  function GetMetadataWithOverrides(p: Property, h: TypeHierarchy, t: TypeId): (r: (Property, Metadata))
    requires WellFounded(h)
    requires Coherent(p, h)
    ensures r.1 == Resolve(p, h, t)
    ensures Coherent(r.0, h)
    ensures t in r.0.cache
    ensures r.0 == p.(cache := r.0.cache) && r.0.cache.Keys == p.cache.Keys + {t}
  {
    if t in p.cache then (p, p.cache[t])
    else
      var md := Resolve(p, h, t);
      var p' := p.(cache := p.cache[t := md]);
      assert forall u :: Resolve(p', h, u) == Resolve(p, h, u) by {
        forall u ensures Resolve(p', h, u) == Resolve(p, h, u) {
          ResolveIgnoresCache(p, p', h, u);
        }
      }
      (p', md)
  }

  lemma ResolveIgnoresCache(p: Property, q: Property, h: TypeHierarchy, t: TypeId)
    requires WellFounded(h)
    requires p.metadata == q.metadata && p.defaultMetadata == q.defaultMetadata
    ensures Resolve(p, h, t) == Resolve(q, h, t)
    decreases if t in h.rank then h.rank[t] else 0
  {
    if t !in p.metadata && t in h.baseOf {
      ResolveIgnoresCache(p, q, h, h.baseOf[t]);
    }
  }

  /** `GetMetadata`: the default metadata on the fast path, otherwise the
      cached walk; either way it is the metadata of the nearest overriding
      base type. */
  function GetMetadata(p: Property, h: TypeHierarchy, t: TypeId): (r: (Property, Metadata))
    requires WellFounded(h)
    requires Coherent(p, h)
    ensures r.1 == Resolve(p, h, t)
    ensures !p.hasOverrides ==> r == (p, p.defaultMetadata)
    ensures Coherent(r.0, h)
    ensures r.0 == p.(cache := r.0.cache)
  {
    if !p.hasOverrides then
      ResolveWithoutOverrides(p, h, t);
      (p, p.defaultMetadata)
    else GetMetadataWithOverrides(p, h, t)
  }

  /** `AvaloniaProperty.OverrideMetadata`: refuses a type that already has
      metadata (the owner type included), otherwise records the metadata,
      clears the lookup cache and leaves the fast path. */
  function OverrideMetadataBase(p: Property, t: TypeId, md: Metadata): (r: (Property, Option<Error>))
    ensures t in p.metadata ==> r == (p, Some(MetadataAlreadySet))
    ensures t !in p.metadata ==> r.1.None? && r.0 == p.(metadata := p.metadata[t := md], cache := map[], hasOverrides := true)
  {
    if t in p.metadata then (p, Some(MetadataAlreadySet))
    else (p.(metadata := p.metadata[t := md], cache := map[], hasOverrides := true), None)
  }

  /** `StyledPropertyBase.OverrideMetadata`: a default the validator refuses is
      rejected before anything changes; `HasCoercion` is raised before the base
      call, so it stays raised even when the base call then refuses the type. */
  function OverrideMetadata(p: Property, t: TypeId, md: Metadata): (r: (Property, Option<Error>))
    ensures !Accepts(p.validate, md.defaultValue) ==> r == (p, Some(InvalidDefaultValue))
    ensures Accepts(p.validate, md.defaultValue) && t in p.metadata ==>
      r == (p.(hasCoercion := p.hasCoercion || md.coerce.Some?), Some(MetadataAlreadySet))
    ensures r.1.None? <==> Accepts(p.validate, md.defaultValue) && t !in p.metadata
    ensures r.1.None? ==> r.0.metadata == p.metadata[t := md] && r.0.hasOverrides && r.0.cache == map[]
    ensures r.0.id == p.id && r.0.inherits == p.inherits && r.0.validate == p.validate
  {
    if !Accepts(p.validate, md.defaultValue) then (p, Some(InvalidDefaultValue))
    else
      var p1 := p.(hasCoercion := p.hasCoercion || md.coerce.Some?);
      OverrideMetadataBase(p1, t, md)
  }

  /** `OverrideDefaultValue`: an override whose metadata carries only a default. */
  function OverrideDefaultValue(p: Property, t: TypeId, v: Value): (r: (Property, Option<Error>))
    ensures r == OverrideMetadata(p, t, Metadata(v, None))
  {
    OverrideMetadata(p, t, Metadata(v, None))
  }

  /** `HasCoercion` only ever rises: once some metadata carried a coercion
      function it stays set, whatever later overrides do. */
  lemma HasCoercionMonotone(p: Property, t: TypeId, md: Metadata)
    ensures p.hasCoercion ==> OverrideMetadata(p, t, md).0.hasCoercion
    ensures Accepts(p.validate, md.defaultValue) && md.coerce.Some? ==> OverrideMetadata(p, t, md).0.hasCoercion
  {
  }

  /** An override keeps the property coherent, and the overridden type (and
      every type that reaches it first on its base chain) now resolves to it. */
  lemma OverrideResolves(p: Property, h: TypeHierarchy, t: TypeId, md: Metadata)
    requires WellFounded(h) && Coherent(p, h)
    requires OverrideMetadata(p, t, md).1.None?
    ensures Coherent(OverrideMetadata(p, t, md).0, h)
    ensures Resolve(OverrideMetadata(p, t, md).0, h, t) == md
  {
  }

  /** `CoerceValue`: the base value unchanged when the instance type's
      metadata has no coercion function, otherwise that function's result. */
  function CoerceValue(p: Property, h: TypeHierarchy, instanceType: TypeId, instance: ObjId, baseValue: Value): (r: Value)
    requires WellFounded(h)
    ensures Resolve(p, h, instanceType).coerce.None? ==> r == baseValue
    ensures Resolve(p, h, instanceType).coerce.Some? ==> r == Resolve(p, h, instanceType).coerce.value(instance, baseValue)
  {
    var md := Resolve(p, h, instanceType);
    if md.coerce.Some? then md.coerce.value(instance, baseValue) else baseValue
  }

  /** `GetDefaultValue(type)`: the default of `GetMetadata(type)`. */
  function GetDefaultValue(p: Property, h: TypeHierarchy, t: TypeId): (r: Value)
    requires WellFounded(h)
    requires Coherent(p, h)
    ensures r == GetMetadata(p, h, t).1.defaultValue
  {
    Resolve(p, h, t).defaultValue
  }
}
