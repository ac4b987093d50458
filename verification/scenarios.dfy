/**
 Concrete call sequences on an empty registry, one per behaviour the test
 suite or the doc comments describe. Types are named by strings and
 instances are told apart by an integer identity.
 */
module Scenarios {
  import DI = DependencyInjection
  import opened SharedInjector

  type Key = string

  const ConcreteService: Key := "ConcreteService"
  const ConcreteRepository: Key := "ConcreteRepository"
  const ServiceProtocol: Key := "ServiceProtocol"
  const ServiceImplementation: Key := "ServiceImplementation"

  /** A final class instance: it is a value of its own class only. */
  function Object(cls: Key, id: int): (v: DI.Instance<Key, int>)
    ensures DI.IsA(v, cls)
    ensures forall t :: DI.IsA(v, t) ==> t == cls
  {
    DI.Instance({cls}, id)
  }

  /** An instance of `ServiceImplementation`, which conforms to `ServiceProtocol`. */
  function Implementation(id: int): (v: DI.Instance<Key, int>)
    ensures DI.IsA(v, ServiceImplementation) && DI.IsA(v, ServiceProtocol)
    ensures !DI.IsA(v, ConcreteService)
  {
    DI.Instance({ServiceImplementation, ServiceProtocol}, id)
  }

  /** Register, resolve the same instance, remove by type, and the optional lookup is empty. */
  lemma RemoveExisting()
    ensures var service := Object(ConcreteService, 1);
      Run(DI.Reset(), [Register(ConcreteService, service), Resolve(ConcreteService),
                       RemoveType(ConcreteService), SafeResolve(ConcreteService)])
      == Finished(DI.Reset(), [Done, Resolved(service), Done, SafeResolved(DI.None)])
  {
    var service := Object(ConcreteService, 1);
    var r0 := DI.Reset<Key, int>();
    var r1 := DI.Register(r0, ConcreteService, service);
    assert DI.RemoveType(r1, ConcreteService) == r0;
    RunCons(r0, SafeResolve(ConcreteService), []);
    RunCons(r0, RemoveType(ConcreteService), [SafeResolve(ConcreteService)]);
    RunCons(r1, Resolve(ConcreteService), [RemoveType(ConcreteService), SafeResolve(ConcreteService)]);
    RunCons(r0, Register(ConcreteService, service), [Resolve(ConcreteService), RemoveType(ConcreteService), SafeResolve(ConcreteService)]);
  }

  /** Removing a type that was never registered is silent. */
  lemma RemoveNonExistent()
    ensures Run(DI.Reset<Key, int>(), [RemoveType(ConcreteService), SafeResolve(ConcreteService)])
      == Finished(DI.Reset(), [Done, SafeResolved(DI.None)])
  {
    var r0 := DI.Reset<Key, int>();
    RunCons(r0, SafeResolve(ConcreteService), []);
    RunCons(r0, RemoveType(ConcreteService), [SafeResolve(ConcreteService)]);
  }

  /** Removing one type leaves another type's entry in place. */
  lemma RemoveOneOfMultiple()
    ensures var service := Object(ConcreteService, 1);
      var repository := Object(ConcreteRepository, 2);
      var o := Run(DI.Reset(), [Register(ConcreteService, service), Register(ConcreteRepository, repository),
                                RemoveType(ConcreteService), SafeResolve(ConcreteService),
                                Resolve(ConcreteRepository)]);
      o.Finished? && o.observations[3] == SafeResolved(DI.None) && o.observations[4] == Resolved(repository)
  {
    var service := Object(ConcreteService, 1);
    var repository := Object(ConcreteRepository, 2);
    var r0 := DI.Reset<Key, int>();
    var r1 := DI.Register(r0, ConcreteService, service);
    var r2 := DI.Register(r1, ConcreteRepository, repository);
    var r3 := DI.RemoveType(r2, ConcreteService);
    RunCons(r3, Resolve(ConcreteRepository), []);
    RunCons(r3, SafeResolve(ConcreteService), [Resolve(ConcreteRepository)]);
    RunCons(r2, RemoveType(ConcreteService), [SafeResolve(ConcreteService), Resolve(ConcreteRepository)]);
    RunCons(r1, Register(ConcreteRepository, repository), [RemoveType(ConcreteService), SafeResolve(ConcreteService), Resolve(ConcreteRepository)]);
    RunCons(r0, Register(ConcreteService, service), [Register(ConcreteRepository, repository), RemoveType(ConcreteService), SafeResolve(ConcreteService), Resolve(ConcreteRepository)]);
  }

  /** After remove and re-register, resolve yields the new instance and not the original. */
  lemma RemoveAndReregister()
    ensures var original := Object(ConcreteService, 1);
      var replacement := Object(ConcreteService, 2);
      var o := Run(DI.Reset(), [Register(ConcreteService, original), RemoveType(ConcreteService),
                                Register(ConcreteService, replacement), Resolve(ConcreteService)]);
      o.Finished? && o.observations[3] == Resolved(replacement) && o.observations[3] != Resolved(original)
  {
    var original := Object(ConcreteService, 1);
    var replacement := Object(ConcreteService, 2);
    var r0 := DI.Reset<Key, int>();
    var r1 := DI.Register(r0, ConcreteService, original);
    var r2 := DI.RemoveType(r1, ConcreteService);
    var r3 := DI.Register(r2, ConcreteService, replacement);
    RunCons(r3, Resolve(ConcreteService), []);
    RunCons(r2, Register(ConcreteService, replacement), [Resolve(ConcreteService)]);
    RunCons(r1, RemoveType(ConcreteService), [Register(ConcreteService, replacement), Resolve(ConcreteService)]);
    RunCons(r0, Register(ConcreteService, original), [RemoveType(ConcreteService), Register(ConcreteService, replacement), Resolve(ConcreteService)]);
  }

  /**
   Registering an implementation as a protocol makes the protocol resolve to it,
   leaves the concrete class unregistered, and removal by the protocol type empties it.
   */
  lemma ProtocolRegistration()
    ensures var implementation := Implementation(1);
      var o := Run(DI.Reset(), [RegisterAs(implementation, ServiceProtocol), Resolve(ServiceProtocol),
                                SafeResolve(ServiceImplementation), RemoveType(ServiceProtocol),
                                SafeResolve(ServiceProtocol)]);
      o.Finished? && o.observations[1] == Resolved(implementation)
      && o.observations[2] == SafeResolved(DI.None) && o.observations[4] == SafeResolved(DI.None)
  {
    var implementation := Implementation(1);
    var r0 := DI.Reset<Key, int>();
    var r1 := DI.RegisterAs(r0, implementation, ServiceProtocol);
    var r2 := DI.RemoveType(r1, ServiceProtocol);
    RunCons(r2, SafeResolve(ServiceProtocol), []);
    RunCons(r1, RemoveType(ServiceProtocol), [SafeResolve(ServiceProtocol)]);
    RunCons(r1, SafeResolve(ServiceImplementation), [RemoveType(ServiceProtocol), SafeResolve(ServiceProtocol)]);
    RunCons(r1, Resolve(ServiceProtocol), [SafeResolve(ServiceImplementation), RemoveType(ServiceProtocol), SafeResolve(ServiceProtocol)]);
    RunCons(r0, RegisterAs(implementation, ServiceProtocol), [Resolve(ServiceProtocol), SafeResolve(ServiceImplementation), RemoveType(ServiceProtocol), SafeResolve(ServiceProtocol)]);
  }

  /**
   Removal by instance and removal by type have the same effect: after either,
   the optional lookup of the type is empty.
   */
  lemma RemoveByInstanceVsType()
    ensures var first := Object(ConcreteService, 1);
      var second := Object(ConcreteService, 2);
      var o := Run(DI.Reset(), [Register(ConcreteService, first),
                                RemoveInstance(first, ConcreteService),
                                SafeResolve(ConcreteService),
                                Register(ConcreteService, second),
                                RemoveType(ConcreteService),
                                SafeResolve(ConcreteService)]);
      o.Finished? && o.observations[2] == SafeResolved(DI.None) && o.observations[5] == SafeResolved(DI.None)
  {
    var first := Object(ConcreteService, 1);
    var second := Object(ConcreteService, 2);
    var r0 := DI.Reset<Key, int>();
    var r1 := DI.Register(r0, ConcreteService, first);
    var r2 := DI.Register(r0, ConcreteService, second);
    assert DI.RemoveInstance(r1, first, ConcreteService) == r0;
    assert DI.RemoveType(r2, ConcreteService) == r0;
    RunCons(r0, SafeResolve(ConcreteService), []);
    RunCons(r2, RemoveType(ConcreteService), [SafeResolve(ConcreteService)]);
    RunCons(r0, Register(ConcreteService, second), [RemoveType(ConcreteService), SafeResolve(ConcreteService)]);
    RunCons(r0, SafeResolve(ConcreteService), [Register(ConcreteService, second), RemoveType(ConcreteService), SafeResolve(ConcreteService)]);
    RunCons(r1, RemoveInstance(first, ConcreteService), [SafeResolve(ConcreteService), Register(ConcreteService, second), RemoveType(ConcreteService), SafeResolve(ConcreteService)]);
    RunCons(r0, Register(ConcreteService, first), [RemoveInstance(first, ConcreteService), SafeResolve(ConcreteService), Register(ConcreteService, second), RemoveType(ConcreteService), SafeResolve(ConcreteService)]);
  }

  /** Two types registered; the strict lookup of the first yields exactly the instance registered. */
  lemma ResolveInline()
    ensures var provided := Object(ConcreteService, 1);
      var o := Run(DI.Reset(), [Register(ConcreteService, provided), Register(ConcreteRepository, Object(ConcreteRepository, 2)),
                                Resolve(ConcreteService)]);
      o.Finished? && o.observations[2] == Resolved(provided)
  {
    var provided := Object(ConcreteService, 1);
    var repository := Object(ConcreteRepository, 2);
    var r0 := DI.Reset<Key, int>();
    var r1 := DI.Register(r0, ConcreteService, provided);
    var r2 := DI.Register(r1, ConcreteRepository, repository);
    RunCons(r2, Resolve(ConcreteService), []);
    RunCons(r1, Register(ConcreteRepository, repository), [Resolve(ConcreteService)]);
    RunCons(r0, Register(ConcreteService, provided), [Register(ConcreteRepository, repository), Resolve(ConcreteService)]);
  }

  /** The optional lookup is empty before registration, never fatal, and yields the instance after. */
  lemma SafeResolveBeforeAndAfterRegister()
    ensures var provided := Object(ConcreteService, 1);
      Run(DI.Reset(), [SafeResolve(ConcreteService), Register(ConcreteService, provided), SafeResolve(ConcreteService)])
      == Finished(DI.Register(DI.Reset(), ConcreteService, provided), [SafeResolved(DI.None), Done, SafeResolved(DI.Some(provided))])
  {
    var provided := Object(ConcreteService, 1);
    var r0 := DI.Reset<Key, int>();
    var r1 := DI.Register(r0, ConcreteService, provided);
    RunCons(r1, SafeResolve(ConcreteService), []);
    RunCons(r0, Register(ConcreteService, provided), [SafeResolve(ConcreteService)]);
    RunCons(r0, SafeResolve(ConcreteService), [Register(ConcreteService, provided), SafeResolve(ConcreteService)]);
  }

  /** A wrapper built after registration holds the registered instance. */
  lemma PropertyWrapper()
    ensures var provided := Object(ConcreteService, 1);
      var o := Run(DI.Reset(), [Register(ConcreteService, provided), Register(ConcreteRepository, Object(ConcreteRepository, 2)),
                                Inject(ConcreteService)]);
      o.Finished? && o.observations[2].Injected? && o.observations[2].wrapper.wrappedValue == provided
  {
    var provided := Object(ConcreteService, 1);
    var repository := Object(ConcreteRepository, 2);
    var r0 := DI.Reset<Key, int>();
    var r1 := DI.Register(r0, ConcreteService, provided);
    var r2 := DI.Register(r1, ConcreteRepository, repository);
    RunCons(r2, Inject(ConcreteService), []);
    RunCons(r1, Register(ConcreteRepository, repository), [Inject(ConcreteService)]);
    RunCons(r0, Register(ConcreteService, provided), [Register(ConcreteRepository, repository), Inject(ConcreteService)]);
  }

  /** The calls before the fatal lookup below: replace on duplicate, removal, then reset. */
  function History(): seq<Call<Key, int>> {
    var a1 := Object(ConcreteService, 1);
    var a2 := Object(ConcreteService, 2);
    var repository := Object(ConcreteRepository, 3);
    [Register(ConcreteService, a1),
     Resolve(ConcreteService),
     Register(ConcreteService, a2),
     Resolve(ConcreteService),
     RemoveType(ConcreteService),
     SafeResolve(ConcreteService),
     Register(ConcreteRepository, repository),
     Reset]
  }

  /** Replacement is observed by the second resolve; after removal the optional lookup is empty. */
  lemma ReplaceRemoveReset()
    ensures AllWellTyped(History())
    ensures Run(DI.Reset(), History()) ==
      Finished(DI.Reset(), [Done, Resolved(Object(ConcreteService, 1)), Done, Resolved(Object(ConcreteService, 2)),
                            Done, SafeResolved(DI.None), Done, Done])
  {
    var a1 := Object(ConcreteService, 1);
    var a2 := Object(ConcreteService, 2);
    var repository := Object(ConcreteRepository, 3);
    var r0 := DI.Reset<Key, int>();
    var r1 := DI.Register(r0, ConcreteService, a1);
    var r2 := DI.Register(r1, ConcreteService, a2);
    var r3 := DI.RemoveType(r2, ConcreteService);
    var r4 := DI.Register(r3, ConcreteRepository, repository);
    RunCons(r4, Reset, []);
    RunCons(r3, Register(ConcreteRepository, repository), [Reset]);
    RunCons(r3, SafeResolve(ConcreteService), [Register(ConcreteRepository, repository), Reset]);
    RunCons(r2, RemoveType(ConcreteService), [SafeResolve(ConcreteService), Register(ConcreteRepository, repository), Reset]);
    RunCons(r2, Resolve(ConcreteService), [RemoveType(ConcreteService), SafeResolve(ConcreteService), Register(ConcreteRepository, repository), Reset]);
    RunCons(r1, Register(ConcreteService, a2), [Resolve(ConcreteService), RemoveType(ConcreteService), SafeResolve(ConcreteService), Register(ConcreteRepository, repository), Reset]);
    RunCons(r1, Resolve(ConcreteService), [Register(ConcreteService, a2), Resolve(ConcreteService), RemoveType(ConcreteService), SafeResolve(ConcreteService), Register(ConcreteRepository, repository), Reset]);
    RunCons(r0, Register(ConcreteService, a1), [Resolve(ConcreteService), Register(ConcreteService, a2), Resolve(ConcreteService), RemoveType(ConcreteService), SafeResolve(ConcreteService), Register(ConcreteRepository, repository), Reset]);
  }

  /** After the reset every strict lookup is fatal: the run stops at the ninth call. */
  lemma ResolveAfterResetIsFatal()
    ensures AllWellTyped(History() + [Resolve(ConcreteRepository)])
    ensures Run(DI.Reset(), History() + [Resolve(ConcreteRepository)]) == Aborted(ConcreteRepository, 8)
  {
    ReplaceRemoveReset();
    RunCons(DI.Reset<Key, int>(), Resolve(ConcreteRepository), []);
    RunAppend(DI.Reset(), History(), [Resolve(ConcreteRepository)]);
  }
}
