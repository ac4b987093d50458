/**
 The `@Inject` property wrapper: at construction it performs one strict
 resolve against the registry and keeps the result as its `wrappedValue`.
 The wrapper holds no link back to the registry, so later changes to the
 registry never reach a wrapper that already exists.
 */
module InjectWrapper {
  import DI = DependencyInjection

  /**
   `Inject<T>`. Swift carries `T` in the wrapper's type; here it is kept as
   the field `declaredType`, since a Dafny type cannot be indexed by a key.
   */
  datatype Inject<K, P> = Inject(declaredType: K, wrappedValue: DI.Instance<K, P>)

  /**
   `init()`: strict resolve of the declared type. Constructing a wrapper for
   a type that is not registered is the fatal error of `resolve`, so the
   registry must resolve `t`. The registry is only read.
   */
  function Init<K(!new), P>(r: DI.DependencyInjector<K, P>, t: K): (w: Inject<K, P>)
    requires DI.Resolvable(r, t)
    ensures w.declaredType == t
    ensures DI.IsA(w.wrappedValue, t)
    ensures t in r.dependencyList && w.wrappedValue == r.dependencyList[t]
    ensures DI.SafeResolve(r, t) == DI.Some(w.wrappedValue)
  {
    Inject(t, DI.Resolve(r, t))
  }

  /** A wrapper built right after `register` holds the very instance registered. */
  lemma InitAfterRegister<K(!new), P>(r: DI.DependencyInjector<K, P>, t: K, v: DI.Instance<K, P>)
    requires DI.IsA(v, t)
    ensures DI.Resolvable(DI.Register(r, t, v), t)
    ensures Init(DI.Register(r, t, v), t).wrappedValue == v
  {
  }

  /**
   Construction is possible exactly when the type has an entry (given the
   registry invariant), and never after a reset.
   */
  lemma InitNeedsRegistration<K(!new), P>(r: DI.DependencyInjector<K, P>, t: K)
    requires DI.Wf(r)
    ensures DI.Resolvable(r, t) <==> t in r.dependencyList
    ensures !DI.Resolvable(DI.Reset<K, P>(), t)
  {
  }

  /**
   The value is captured once. After the registry replaces the entry for the
   declared type, a fresh resolve sees the replacement while the existing
   wrapper still holds what was registered when it was built; after the entry
   is removed or the registry is reset, the wrapper still holds its value
   although the type no longer resolves.
   */
  lemma CapturedOnce<K(!new), P>(r: DI.DependencyInjector<K, P>, t: K, replacement: DI.Instance<K, P>)
    requires DI.Resolvable(r, t) && DI.IsA(replacement, t)
    ensures var w := Init(r, t);
      && DI.Resolve(DI.Register(r, t, replacement), t) == replacement
      && w.wrappedValue == r.dependencyList[t]
      && (replacement != r.dependencyList[t] ==> Init(DI.Register(r, t, replacement), t) != w)
      && !DI.Resolvable(DI.RemoveType(r, t), t)
      && !DI.Resolvable(DI.Reset<K, P>(), t)
      && DI.IsA(w.wrappedValue, t)
  {
  }
}
