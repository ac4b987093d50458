# Injection: a type-keyed dependency registry, modelled in Dafny

The Swift package `Injection` has two parts. `DependencyInjector` is a
process-wide registry: a dictionary from a type key (`ObjectIdentifier(T.self)`)
to one stored value. The `@Inject` property wrapper resolves its declared type
from that registry once, when it is constructed.

The model has four modules:

- `DependencyInjection` (`dependency_injection.dfy`) holds the registry state.
  That state is the `dependencyList` dictionary as a `map` from an abstract key
  type `K` to an `Instance`. The module also has the seven registry operations
  `Register`, `RegisterAs`, `Resolve`, `SafeResolve`, `RemoveType`,
  `RemoveInstance` and `Reset`, the invariant `Wf`, and map-frame lemmas.
  - An `Instance` is a value's identity together with the set of types its
    runtime type conforms to. The dynamic cast `as? T` in `resolve` and
    `safeResolve` is `Cast`: it succeeds, returning the same instance, exactly
    when `T` is in that set.
  - `Register` requires the value to be a `T`. Swift's type checker enforces this
    at every call site, so no caller of the source can break it.
  - The invariant `Wf` says that every entry's value is a value of its key's type.
    Every operation preserves it, so the cast never fails on a present key
    (`CastNeverFailsOnPresentKey`).
- `InjectWrapper` (`inject.dfy`) models `Inject<T>`. `Init` is the strict resolve
  done by `init()`. The lemmas show that the captured value is never refreshed.
- `SharedInjector` (`shared_injector.dfy`) models the public static API. That API
  forwards each call to the `shared` singleton. Here the singleton is an explicit
  registry value passed through a sequence of calls.
  - `Step` performs one call and `Run` performs a whole sequence.
  - A strict lookup that misses (`resolve<T>()`, or constructing an `@Inject`)
    becomes the outcome `Fatal`/`Aborted`, which names the missing type. That
    outcome is the model of `fatalError`.
  - `LastEffect` is an independent "last write wins" description of what each
    key holds after a sequence. `RunMatchesLastEffect` proves that `Run` agrees
    with it.
- `Scenarios` (`scenarios.dfy`) replays, as concrete call sequences on an empty
  registry, the behaviours that the test suite or the doc comments describe.

The strict `resolve<T>()` is modelled in two ways:

- At the level of one registry it is `Resolve`, whose precondition `Resolvable`
  is the source's documented precondition ("A dependency of type `T` must have
  been previously registered").
- At the level of the static API it is a `Resolve` call in a `Run`. A miss there
  ends the run with `Aborted`.

## Model

| member | source | states |
|---|---|---|
| DependencyInjection.Reset | Sources/Injection/DependencyInjection.swift:130-132 | A fresh injector satisfies the invariant, and every key is absent from it: `SafeResolve` gives `None` and `Resolve`'s precondition fails for every type. |
| DependencyInjection.SafeResolve | Sources/Injection/DependencyInjection.swift:195-200 | Returns `Some` only when the key is present and the stored value is a `T`, and then returns that stored value. Returns `None` exactly when the lookup or the downcast fails, and never aborts. |
| DependencyInjection.Resolve | Sources/Injection/DependencyInjection.swift:188-193 | Can only be called when lookup and cast succeed, which is the fatal-error guard. It returns the stored instance itself (identity-preserving), which is a `T` and agrees with `SafeResolve`. |
| DependencyInjection.Register | Sources/Injection/DependencyInjection.swift:202-204 | Inserts or replaces the entry for the key. Afterwards both lookups give exactly the registered value, the key set grows by that key only, every other key's lookup is unchanged, and the invariant is preserved. |
| DependencyInjection.RegisterAs | Sources/Injection/DependencyInjection.swift:59-61 | The value is stored under the capability's key only. Every other key, including the value's concrete type, keeps its previous lookup. |
| DependencyInjection.RemoveType | Sources/Injection/DependencyInjection.swift:206-208 | The key is absent afterwards and all other keys are unchanged. Removing an absent key is a no-op (the registry is returned as it was), and the invariant is preserved. |
| DependencyInjection.RemoveInstance | Sources/Injection/DependencyInjection.swift:210-212 | Equal to `RemoveType` for the instance's static type. |
| DependencyInjection.Cast | Sources/Injection/DependencyInjection.swift:196 | The `as? T` downcast succeeds exactly when the value's type conforms to `T`, and then returns the same instance. |
| DependencyInjection.CastNeverFailsOnPresentKey | Sources/Injection/DependencyInjection.swift:188-204 | Under the invariant the `as? T` downcast never fails: a key resolves if and only if it is present, and it resolves to its stored value. |
| DependencyInjection.StrictAndSafeAgree | Sources/Injection/DependencyInjection.swift:188-200 | Strict resolve aborts exactly when safe resolve returns `nil`. Otherwise the two return the same value. |
| DependencyInjection.ReplaceOnDuplicate | Sources/Injection/DependencyInjection.swift:29-43 | Registering A and then B under one type equals registering B alone, and resolve returns B. |
| DependencyInjection.RegisterCommutes | Sources/Injection/DependencyInjection.swift:202-204 | Registrations under two different keys commute. |
| DependencyInjection.RemoveUndoesRegister | Sources/Injection/DependencyInjection.swift:202-208 | Removing a key right after registering under it is the same as only removing it. If the key was absent before, the registry is back to where it started. |
| DependencyInjection.RegisterUndoesRemove | Sources/Injection/DependencyInjection.swift:202-208 | Re-registering a key's old value after removing the key restores the registry exactly. |
| DependencyInjection.RemoveIdempotent | Sources/Injection/DependencyInjection.swift:134-138 | A second removal of the same type changes nothing. |
| DependencyInjection.RemoveInstanceIgnoresIdentity | Sources/Injection/DependencyInjection.swift:160-186 | Removal by instance deletes whatever is stored under the instance's type, even a different instance, and equals removal by type. |
| DependencyInjection.CapabilityLeavesConcreteKey | Sources/Injection/DependencyInjection.swift:45-61 | After registering an implementation as a capability, the capability resolves to it. The concrete type still does not resolve. |
| InjectWrapper.Init | Sources/Injection/Inject.swift:31-45 | Construction needs the declared type to resolve. The wrapped value is exactly the instance stored for that type and is a `T`, and the registry is only read. |
| InjectWrapper.InitAfterRegister | Tests/Injection/MainActorResolutionTests.swift:29-40 | A wrapper built after `register(v)` holds `v` itself. |
| InjectWrapper.InitNeedsRegistration | Sources/Injection/Inject.swift:19-22 | Under the invariant, a wrapper can be built exactly when the type has an entry, and never right after a reset. |
| InjectWrapper.CapturedOnce | Sources/Injection/Inject.swift:33-44 | The value is captured once. After a replacement a fresh resolve sees the new value while the existing wrapper keeps the old one. After a removal or reset the type no longer resolves, but the wrapper still holds its value. |
| SharedInjector.Step | Sources/Injection/DependencyInjection.swift:41-186 | One static call on the shared registry. It is fatal exactly for a strict lookup or wrapper construction of a type that does not resolve, and it names that type. Every key ends up as the call's reference `Effect` dictates. Lookups leave the registry unchanged and return the stored value, and the invariant is preserved. |
| SharedInjector.Run | Sources/Injection/DependencyInjection.swift:214-216 | A sequence of calls on the shared instance either completes with one observation per call, keeping the invariant, or aborts at a strict lookup of the missing type. |
| SharedInjector.CapturedOnceInRun | Sources/Injection/Inject.swift:33-44 | In a run that starts by constructing a wrapper for a resolvable type, the wrapper handed out is the one built from the registry at that moment, whatever calls follow. If the run aborts, it aborts at a later call. |
| SharedInjector.RunMatchesLastEffect | Sources/Injection/DependencyInjection.swift:130-212 | After a completed run, each key's optional lookup is decided by the last call that touched it. A registration leaves its value, a removal or reset leaves nothing, and an untouched key keeps its old content. |
| SharedInjector.RunAppend | Sources/Injection/DependencyInjection.swift:214-216 | Running two call sequences one after the other equals running their concatenation, with an abort in the second reported at its overall position. |
| SharedInjector.RunAbortsAtFirstMiss | Sources/Injection/DependencyInjection.swift:63-81 | A run aborts at the first strict lookup whose type does not resolve in the state produced by the calls before it. All those earlier calls complete. |
| SharedInjector.ResetForgetsHistory | Sources/Injection/DependencyInjection.swift:106-132 | After a reset in the middle of a run, the final state and whether the run completes do not depend on anything before the reset. |
| Scenarios.RemoveExisting | Tests/Injection/RemoveTests.swift:6-26 | Register, resolve the same instance, remove by type: the optional lookup is then empty. |
| Scenarios.RemoveNonExistent | Tests/Injection/RemoveTests.swift:28-40 | Removing a type that was never registered is silent, and the lookup stays empty. |
| Scenarios.RemoveOneOfMultiple | Tests/Injection/RemoveTests.swift:42-64 | Removing one type keeps another type's instance resolvable. |
| Scenarios.RemoveAndReregister | Tests/Injection/RemoveTests.swift:66-87 | After removal and re-registration, resolve yields the new instance and not the original. |
| Scenarios.ProtocolRegistration | Tests/Injection/RemoveTests.swift:89-109 | A protocol registration resolves by the protocol and not by the concrete class, and removal by the protocol empties it. |
| Scenarios.RemoveByInstanceVsType | Tests/Injection/RemoveTests.swift:133-154 | Register an instance and remove it by instance: the optional lookup is empty. Register a second instance and remove it by type: the lookup is empty again. |
| Scenarios.ResolveInline | Tests/Injection/MainActorResolutionTests.swift:17-27 | With two types registered, the strict lookup returns the very instance registered. |
| Scenarios.SafeResolveBeforeAndAfterRegister | Tests/Injection/MainActorResolutionTests.swift:42-52 | The optional lookup is empty before registration and returns the instance after it. |
| Scenarios.PropertyWrapper | Tests/Injection/DependencyInjectionTests.swift:18-29 | A wrapper constructed after registration holds the registered instance. |
| Scenarios.ReplaceRemoveReset | Sources/Injection/DependencyInjection.swift:29-33 | A replacement is seen by the next resolve, and after removal the optional lookup is empty. Every call completes. |
| Scenarios.ResolveAfterResetIsFatal | Sources/Injection/DependencyInjection.swift:121-126 | After a reset, a strict lookup of a type registered before the reset is fatal, and the run stops at that call. |

## Left out

- `@MainActor` isolation and the `async` call sites are left out. They confine
  access to one thread and add no logic, so the operations are modelled as
  sequential.
- The `static var shared` singleton is replaced by an explicit registry value
  passed from call to call (`Step`, `Run`).
- Swift's type system is left out: how a static type becomes an
  `ObjectIdentifier`, and how a runtime type's conformances are computed. Keys
  are an abstract type, and conformance is the set carried by each `Instance`.
  - Edge cases of `as?` on optional and existential metatypes are not modelled.
    An example is registering a value whose static type `T` is itself an
    `Optional`.
- The text of the `fatalError` message is left out. The abort carries only the
  missing type.
- `Inject.wrappedValue` is declared `var`, so code may assign to it after
  construction. That assignment is Swift's stored-property setter: it writes only
  the wrapper's own storage and never touches the registry, so it is not modelled.
- `Package.swift` (build metadata) and the tests' `deinit { Task { reset() } }`
  teardown are left out.
- Reference identity (`===`) is modelled as equality of `Instance` values, whose
  `identity` field tells apart objects of the same type.
