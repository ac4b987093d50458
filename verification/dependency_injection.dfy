/**
 The dependency registry: a flat map from a type key to one stored value,
 with insert-or-replace, strict and optional lookup, removal by type or by
 instance, and reset to the empty store.

 A type key stands for `ObjectIdentifier(T.self)`; since that identifier is
 unique per type, a key and the type it names are identified here, and `K`
 is left abstract. A stored value is an `Instance`: its identity (reference
 identity of the registered object) together with the set of types its
 runtime type conforms to, which is what the dynamic cast `as? T` consults.
 */
module DependencyInjection {

  datatype Option<+T> = None | Some(value: T)

  /** A value as the registry sees it once boxed as `Any`. */
  datatype Instance<K, P> = Instance(conformsTo: set<K>, identity: P)

  /** The registry state: the `dependencyList` dictionary. */
  datatype DependencyInjector<K(==), P> = DependencyInjector(dependencyList: map<K, Instance<K, P>>)

  /** A value may be passed where a `T` is expected exactly when its type conforms to `T`. */
  predicate IsA<K(!new), P>(v: Instance<K, P>, t: K) {
    t in v.conformsTo
  }

  /** The dynamic downcast `as? T`: the same instance when it is a `T`, nothing otherwise. */
  function Cast<K(!new), P>(v: Instance<K, P>, t: K): (o: Option<Instance<K, P>>)
    ensures o.Some? <==> IsA(v, t)
    ensures o.Some? ==> o.value == v
  {
    if t in v.conformsTo then Some(v) else None
  }

  /** Every entry holds a value of the type its key was derived from. */
  predicate Wf<K(!new), P>(r: DependencyInjector<K, P>) {
    forall k :: k in r.dependencyList ==> IsA(r.dependencyList[k], k)
  }

  /** `DependencyInjector()`: the store starts as the empty dictionary. */
  function Reset<K(!new), P>(): (empty: DependencyInjector<K, P>)
    ensures Wf(empty)
    ensures forall t :: SafeResolve(empty, t) == None
    ensures forall t :: !Resolvable(empty, t)
  {
    DependencyInjector(map[])
  }

  /** `safeResolve<T>()`: look the key up, then downcast; any failure yields `nil`. */
  function SafeResolve<K(!new), P>(r: DependencyInjector<K, P>, t: K): (o: Option<Instance<K, P>>)
    ensures o.Some? ==> t in r.dependencyList && o.value == r.dependencyList[t] && IsA(o.value, t)
    ensures o.None? ==> t !in r.dependencyList || !IsA(r.dependencyList[t], t)
  {
    if t in r.dependencyList then Cast(r.dependencyList[t], t) else None
  }

  /** The guard of strict `resolve<T>()` succeeds: lookup and downcast both succeed. */
  predicate Resolvable<K(!new), P>(r: DependencyInjector<K, P>, t: K) {
    SafeResolve(r, t).Some?
  }

  /**
   `resolve<T>()`: the same lookup as `SafeResolve`, but a miss is a fatal error,
   so the caller must establish `Resolvable`. The result is the stored instance itself.
   */
  function Resolve<K(!new), P>(r: DependencyInjector<K, P>, t: K): (v: Instance<K, P>)
    requires Resolvable(r, t)
    ensures t in r.dependencyList && v == r.dependencyList[t]
    ensures IsA(v, t)
    ensures SafeResolve(r, t) == Some(v)
  {
    match SafeResolve(r, t)
    case Some(found) => found
  }

  /**
   `register<T>(_ dependency: T)`: store under the key of the static type `T`,
   replacing any earlier entry for that key. Swift's type checker guarantees
   that the dependency is a `T`.
   */
  function Register<K(!new), P>(r: DependencyInjector<K, P>, t: K, v: Instance<K, P>): (r': DependencyInjector<K, P>)
    requires IsA(v, t)
    ensures r'.dependencyList.Keys == r.dependencyList.Keys + {t}
    ensures SafeResolve(r', t) == Some(v)
    ensures Resolvable(r', t) && Resolve(r', t) == v
    ensures forall u :: u != t ==> SafeResolve(r', u) == SafeResolve(r, u)
    ensures forall u :: u != t && u in r.dependencyList ==> r'.dependencyList[u] == r.dependencyList[u]
    ensures Wf(r) ==> Wf(r')
  {
    DependencyInjector(r.dependencyList[t := v])
  }

  /**
   `register(_:as:)`: the generic parameter is bound to the capability type, so
   the value is stored under the capability's key and under no other.
   */
  function RegisterAs<K(!new), P>(r: DependencyInjector<K, P>, v: Instance<K, P>, capability: K): (r': DependencyInjector<K, P>)
    requires IsA(v, capability)
    ensures r'.dependencyList.Keys == r.dependencyList.Keys + {capability}
    ensures SafeResolve(r', capability) == Some(v)
    ensures forall u :: u != capability ==> SafeResolve(r', u) == SafeResolve(r, u)
    ensures Wf(r) ==> Wf(r')
  {
    Register(r, capability, v)
  }

  /** `remove(_ type: T.Type)`: drop the entry for the key if there is one. */
  function RemoveType<K(!new), P>(r: DependencyInjector<K, P>, t: K): (r': DependencyInjector<K, P>)
    ensures r'.dependencyList.Keys == r.dependencyList.Keys - {t}
    ensures SafeResolve(r', t) == None
    ensures forall u :: u != t ==> SafeResolve(r', u) == SafeResolve(r, u)
    ensures forall u :: u in r'.dependencyList ==> r'.dependencyList[u] == r.dependencyList[u]
    ensures t !in r.dependencyList ==> r' == r
    ensures Wf(r) ==> Wf(r')
  {
    DependencyInjector(r.dependencyList - {t})
  }

  /**
   `remove(_ dependency: T)`: the key comes from the static type `T` of the
   argument; the argument itself is never looked at.
   */
  function RemoveInstance<K(!new), P>(r: DependencyInjector<K, P>, v: Instance<K, P>, t: K): (r': DependencyInjector<K, P>)
    requires IsA(v, t)
    ensures r' == RemoveType(r, t)
  {
    DependencyInjector(r.dependencyList - {t})
  }

  /** Under the invariant the downcast never fails: a present key always resolves. */
  lemma CastNeverFailsOnPresentKey<K(!new), P>(r: DependencyInjector<K, P>, t: K)
    requires Wf(r)
    ensures Resolvable(r, t) <==> t in r.dependencyList
    ensures t in r.dependencyList ==> SafeResolve(r, t) == Some(r.dependencyList[t])
  {
  }

  /** Strict resolve aborts exactly where the optional lookup yields `nil`. */
  lemma StrictAndSafeAgree<K(!new), P>(r: DependencyInjector<K, P>, t: K)
    ensures !Resolvable(r, t) <==> SafeResolve(r, t) == None
    ensures Resolvable(r, t) ==> SafeResolve(r, t) == Some(Resolve(r, t))
  {
  }

  /** Registering twice under one key keeps only the second value. */
  lemma ReplaceOnDuplicate<K(!new), P>(r: DependencyInjector<K, P>, t: K, first: Instance<K, P>, second: Instance<K, P>)
    requires IsA(first, t) && IsA(second, t)
    ensures Register(Register(r, t, first), t, second) == Register(r, t, second)
    ensures Resolve(Register(Register(r, t, first), t, second), t) == second
  {
  }

  /** Registrations under different keys do not interfere, in either order. */
  lemma RegisterCommutes<K(!new), P>(r: DependencyInjector<K, P>, t: K, a: Instance<K, P>, u: K, b: Instance<K, P>)
    requires t != u && IsA(a, t) && IsA(b, u)
    ensures Register(Register(r, t, a), u, b) == Register(Register(r, u, b), t, a)
  {
  }

  /** Removing a key undoes a registration under it, whatever was stored there before. */
  lemma RemoveUndoesRegister<K(!new), P>(r: DependencyInjector<K, P>, t: K, v: Instance<K, P>)
    requires IsA(v, t)
    ensures RemoveType(Register(r, t, v), t) == RemoveType(r, t)
    ensures t !in r.dependencyList ==> RemoveType(Register(r, t, v), t) == r
  {
  }

  /** Re-registering the value a key held restores the registry after its removal. */
  lemma RegisterUndoesRemove<K(!new), P>(r: DependencyInjector<K, P>, t: K)
    requires Wf(r) && t in r.dependencyList
    ensures Register(RemoveType(r, t), t, r.dependencyList[t]) == r
  {
  }

  /** Removal is idempotent: the second removal is a silent no-op. */
  lemma RemoveIdempotent<K(!new), P>(r: DependencyInjector<K, P>, t: K)
    ensures RemoveType(RemoveType(r, t), t) == RemoveType(r, t)
  {
  }

  /**
   Removal by instance depends only on the instance's static type: it deletes
   whatever is stored under that key, even a different instance registered later.
   */
  lemma RemoveInstanceIgnoresIdentity<K(!new), P>(r: DependencyInjector<K, P>, t: K, removed: Instance<K, P>, stored: Instance<K, P>)
    requires IsA(removed, t) && IsA(stored, t)
    ensures SafeResolve(RemoveInstance(Register(r, t, stored), removed, t), t) == None
    ensures RemoveInstance(Register(r, t, stored), removed, t) == RemoveType(r, t)
  {
  }

  /** Capability registration leaves the concrete type's key exactly as it was. */
  lemma CapabilityLeavesConcreteKey<K(!new), P>(r: DependencyInjector<K, P>, v: Instance<K, P>, concrete: K, capability: K)
    requires IsA(v, capability) && IsA(v, concrete) && concrete != capability
    requires SafeResolve(r, concrete) == None
    ensures Resolve(RegisterAs(r, v, capability), capability) == v
    ensures SafeResolve(RegisterAs(r, v, capability), concrete) == None
  {
  }
}
