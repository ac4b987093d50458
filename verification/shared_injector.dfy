/**
 The public static API of `DependencyInjector`, which forwards every call to
 the process-wide `shared` instance. The singleton is replaced by an explicit
 registry value threaded through a sequence of calls: `Step` performs one
 call, `Run` performs a whole sequence, and a strict lookup that misses ends
 the run with the fatal error of `resolve`.

 `LastEffect` is an independent description of the registry's contents after
 a run: for every key, the last call that touched it decides what it holds.
 */
module SharedInjector {
  import DI = DependencyInjection
  import InjectWrapper

  /** One call of the static API (or the construction of an `@Inject` wrapper). */
  datatype Call<K, P> =
    | Register(t: K, v: DI.Instance<K, P>)
    | RegisterAs(v: DI.Instance<K, P>, capability: K)
    | Resolve(t: K)
    | SafeResolve(t: K)
    | RemoveType(t: K)
    | RemoveInstance(v: DI.Instance<K, P>, t: K)
    | Reset
    | Inject(t: K)

  /** What Swift's type checker guarantees of a call: a registered or removed value is a `T`. */
  predicate WellTyped<K(!new), P>(c: Call<K, P>) {
    match c
    case Register(t, v) => DI.IsA(v, t)
    case RegisterAs(v, capability) => DI.IsA(v, capability)
    case RemoveInstance(v, t) => DI.IsA(v, t)
    case _ => true
  }

  predicate AllWellTyped<K(!new), P>(calls: seq<Call<K, P>>) {
    forall i :: 0 <= i < |calls| ==> WellTyped(calls[i])
  }

  /** What a call hands back to its caller. */
  datatype Observation<K, P> =
    | Done
    | Resolved(value: DI.Instance<K, P>)
    | SafeResolved(found: DI.Option<DI.Instance<K, P>>)
    | Injected(wrapper: InjectWrapper.Inject<K, P>)

  datatype StepResult<K, P> =
    | Continue(state: DI.DependencyInjector<K, P>, observed: Observation<K, P>)
    | Fatal(missing: K)

  /** What one call does to one key: leaves it, empties it, or stores a value in it. */
  datatype Fate<K, P> = Untouched | Erased | Holds(v: DI.Instance<K, P>)

  /** The reference effect of a single call on key `u`. */
  function Effect<K(!new), P>(c: Call<K, P>, u: K): Fate<K, P> {
    match c
    case Register(t, v) => if t == u then Holds(v) else Untouched
    case RegisterAs(v, capability) => if capability == u then Holds(v) else Untouched
    case RemoveType(t) => if t == u then Erased else Untouched
    case RemoveInstance(_, t) => if t == u then Erased else Untouched
    case Reset => Erased
    case _ => Untouched
  }

  /** The optional lookup of a key after a fate, given the lookup before. */
  function Apply<K, P>(f: Fate<K, P>, before: DI.Option<DI.Instance<K, P>>): DI.Option<DI.Instance<K, P>> {
    match f
    case Untouched => before
    case Erased => DI.None
    case Holds(v) => DI.Some(v)
  }

  /** The fate of key `u` over a whole sequence: the last call that touches it decides. */
  function LastEffect<K(!new), P>(calls: seq<Call<K, P>>, u: K): Fate<K, P> {
    if |calls| == 0 then Untouched
    else
      var later := LastEffect(calls[1..], u);
      if later.Untouched? then Effect(calls[0], u) else later
  }

  /**
   One static call on the shared registry. Lookups and wrapper construction
   leave the registry as it was; a strict lookup that misses is fatal and
   names the missing type.
   */
  function Step<K(!new), P>(r: DI.DependencyInjector<K, P>, c: Call<K, P>): (s: StepResult<K, P>)
    requires WellTyped(c)
    ensures s.Fatal? <==> (c.Resolve? || c.Inject?) && !DI.Resolvable(r, c.t)
    ensures s.Fatal? ==> s.missing == c.t
    ensures s.Continue? ==> forall u :: DI.SafeResolve(s.state, u) == Apply(Effect(c, u), DI.SafeResolve(r, u))
    ensures s.Continue? && DI.Wf(r) ==> DI.Wf(s.state)
    ensures s.Continue? && (c.Resolve? || c.SafeResolve? || c.Inject?) ==> s.state == r
    ensures s.Continue? && c.Resolve? ==> s.observed.Resolved? && s.observed.value == r.dependencyList[c.t]
    ensures s.Continue? && c.SafeResolve? ==> s.observed.SafeResolved? && s.observed.found == DI.SafeResolve(r, c.t)
    ensures s.Continue? && c.Inject? ==>
              s.observed.Injected? && s.observed.wrapper.wrappedValue == r.dependencyList[c.t]
    ensures s.Continue? && !(c.Resolve? || c.SafeResolve? || c.Inject?) ==> s.observed == Done
  {
    match c
    case Register(t, v) => Continue(DI.Register(r, t, v), Done)
    case RegisterAs(v, capability) => Continue(DI.RegisterAs(r, v, capability), Done)
    case Resolve(t) =>
      if DI.Resolvable(r, t) then Continue(r, Resolved(DI.Resolve(r, t))) else Fatal(t)
    case SafeResolve(t) => Continue(r, SafeResolved(DI.SafeResolve(r, t)))
    case RemoveType(t) => Continue(DI.RemoveType(r, t), Done)
    case RemoveInstance(v, t) => Continue(DI.RemoveInstance(r, v, t), Done)
    case Reset => Continue(DI.Reset(), Done)
    case Inject(t) =>
      if DI.Resolvable(r, t) then Continue(r, Injected(InjectWrapper.Init(r, t))) else Fatal(t)
  }

  datatype Outcome<K, P> =
    | Finished(state: DI.DependencyInjector<K, P>, observations: seq<Observation<K, P>>)
    | Aborted(missing: K, at: nat)

  /**
   A sequence of static calls from a given registry state. Either every call
   completes, with one observation per call, or the run stops at a strict
   lookup of the missing type.
   */
  function Run<K(!new), P>(r: DI.DependencyInjector<K, P>, calls: seq<Call<K, P>>): (o: Outcome<K, P>)
    requires AllWellTyped(calls)
    ensures o.Finished? ==> |o.observations| == |calls|
    ensures o.Finished? && DI.Wf(r) ==> DI.Wf(o.state)
    ensures o.Aborted? ==> o.at < |calls| && (calls[o.at].Resolve? || calls[o.at].Inject?) && calls[o.at].t == o.missing
    decreases |calls|
  {
    if |calls| == 0 then Finished(r, [])
    else
      match Step(r, calls[0])
      case Fatal(missing) => Aborted(missing, 0)
      case Continue(next, observed) =>
        match Run(next, calls[1..])
        case Finished(final, observations) => Finished(final, [observed] + observations)
        case Aborted(missing, at) => Aborted(missing, at + 1)
  }

  /** A run of a non-empty sequence is its first step followed by the run of the rest. */
  lemma RunCons<K(!new), P>(r: DI.DependencyInjector<K, P>, c: Call<K, P>, rest: seq<Call<K, P>>)
    requires WellTyped(c) && AllWellTyped(rest)
    ensures AllWellTyped([c] + rest)
    ensures Step(r, c).Fatal? ==> Run(r, [c] + rest) == Aborted(Step(r, c).missing, 0)
    ensures Step(r, c).Continue? ==>
              var o := Run(Step(r, c).state, rest);
              Run(r, [c] + rest) ==
                if o.Finished? then Finished(o.state, [Step(r, c).observed] + o.observations)
                else Aborted(o.missing, o.at + 1)
  {
  }

  /**
   A wrapper handed out by a run is the one built from the registry at that
   moment; no later call in the run, whether a registration, a removal or a
   reset, changes it.
   */
  lemma CapturedOnceInRun<K(!new), P>(r: DI.DependencyInjector<K, P>, t: K, later: seq<Call<K, P>>)
    requires DI.Resolvable(r, t) && AllWellTyped(later)
    ensures AllWellTyped([Inject(t)] + later)
    ensures var o := Run(r, [Inject(t)] + later);
      && (o.Finished? ==> o.observations[0] == Injected(InjectWrapper.Init(r, t)))
      && (o.Aborted? ==> o.at > 0)
  {
  }

  /** Last-write-wins composes: a call followed by a sequence is decided by the sequence first. */
  lemma ApplyLastEffectCons<K(!new), P>(calls: seq<Call<K, P>>, u: K, before: DI.Option<DI.Instance<K, P>>)
    requires |calls| > 0
    ensures Apply(LastEffect(calls, u), before) == Apply(LastEffect(calls[1..], u), Apply(Effect(calls[0], u), before))
  {
  }

  /**
   After a run that completes, every key holds what the last call touching it
   put there: the value of the last registration, nothing after a removal or a
   reset, and its old content when no call touched it.
   */
  lemma {:induction false} RunMatchesLastEffect<K(!new), P>(r: DI.DependencyInjector<K, P>, calls: seq<Call<K, P>>, u: K)
    requires AllWellTyped(calls)
    requires Run(r, calls).Finished?
    ensures DI.SafeResolve(Run(r, calls).state, u) == Apply(LastEffect(calls, u), DI.SafeResolve(r, u))
    decreases |calls|
  {
    if |calls| > 0 {
      var next := Step(r, calls[0]).state;
      assert AllWellTyped(calls[1..]) by {
        forall i | 0 <= i < |calls[1..]| ensures WellTyped(calls[1..][i]) {
          assert calls[1..][i] == calls[i + 1];
        }
      }
      RunMatchesLastEffect(next, calls[1..], u);
      ApplyLastEffectCons(calls, u, DI.SafeResolve(r, u));
    }
  }

  lemma AllWellTypedSplit<K(!new), P>(a: seq<Call<K, P>>, b: seq<Call<K, P>>)
    ensures AllWellTyped(a + b) <==> AllWellTyped(a) && AllWellTyped(b)
  {
    if AllWellTyped(a) && AllWellTyped(b) {
      forall i | 0 <= i < |a + b| ensures WellTyped((a + b)[i]) {
        if i >= |a| {
          assert (a + b)[i] == b[i - |a|];
        }
      }
    }
    if AllWellTyped(a + b) {
      forall i | 0 <= i < |a| ensures WellTyped(a[i]) {
        assert (a + b)[i] == a[i];
      }
      forall i | 0 <= i < |b| ensures WellTyped(b[i]) {
        assert (a + b)[|a| + i] == b[i];
      }
    }
  }

  /**
   Running two sequences one after the other is running their concatenation:
   an abort in the first stops everything, otherwise the second starts from the
   state the first left, and an abort in it is reported at its position in the whole.
   */
  lemma {:induction false} RunAppend<K(!new), P>(r: DI.DependencyInjector<K, P>, a: seq<Call<K, P>>, b: seq<Call<K, P>>)
    requires AllWellTyped(a) && AllWellTyped(b)
    ensures AllWellTyped(a + b)
    ensures Run(r, a + b) ==
              match Run(r, a)
              case Aborted(missing, at) => Aborted(missing, at)
              case Finished(middle, first) =>
                match Run(middle, b)
                case Finished(final, second) => Finished(final, first + second)
                case Aborted(missing, at) => Aborted(missing, |a| + at)
    decreases |a|
  {
    AllWellTypedSplit(a, b);
    if |a| == 0 {
      assert a + b == b;
      match Run(r, b)
      case Finished(final, second) => assert [] + second == second;
      case Aborted(_, _) =>
    } else {
      var rest := a[1..];
      assert (a + b)[0] == a[0];
      assert (a + b)[1..] == rest + b;
      assert AllWellTyped(rest) by {
        forall i | 0 <= i < |rest| ensures WellTyped(rest[i]) {
          assert rest[i] == a[i + 1];
        }
      }
      match Step(r, a[0])
      case Fatal(_) =>
      case Continue(next, observed) =>
        RunAppend(next, rest, b);
        match Run(next, rest)
        case Aborted(_, _) =>
        case Finished(middle, first) =>
          match Run(middle, b)
          case Finished(final, second) =>
            assert [observed] + (first + second) == ([observed] + first) + second;
          case Aborted(_, _) =>
    }
  }

  /**
   A run aborts at the first strict lookup whose type does not resolve in the
   state the calls before it produced; those calls all completed.
   */
  lemma {:induction false} RunAbortsAtFirstMiss<K(!new), P>(r: DI.DependencyInjector<K, P>, calls: seq<Call<K, P>>)
    requires AllWellTyped(calls)
    requires Run(r, calls).Aborted?
    ensures var at := Run(r, calls).at;
      && at < |calls|
      && AllWellTyped(calls[..at])
      && Run(r, calls[..at]).Finished?
      && !DI.Resolvable(Run(r, calls[..at]).state, Run(r, calls).missing)
    decreases |calls|
  {
    var at := Run(r, calls).at;
    AllWellTypedSplit(calls[..at], calls[at..]);
    assert calls == calls[..at] + calls[at..];
    if at > 0 {
      var next := Step(r, calls[0]).state;
      AllWellTypedSplit(calls[..1], calls[1..]);
      assert calls == calls[..1] + calls[1..];
      RunAbortsAtFirstMiss(next, calls[1..]);
      assert calls[1..][..at - 1] == calls[..at][1..];
    }
  }

  /** A reset in the middle of a run makes everything before it irrelevant to the final state. */
  lemma ResetForgetsHistory<K(!new), P>(r: DI.DependencyInjector<K, P>, before: seq<Call<K, P>>, after: seq<Call<K, P>>)
    requires AllWellTyped(before) && AllWellTyped(after)
    requires Run(r, before).Finished?
    ensures AllWellTyped(before + [Reset] + after)
    ensures Run(r, before + [Reset] + after).Finished? <==> Run(DI.Reset(), after).Finished?
    ensures Run(r, before + [Reset] + after).Finished? ==>
              Run(r, before + [Reset] + after).state == Run(DI.Reset(), after).state
  {
    var reset: seq<Call<K, P>> := [Reset];
    assert AllWellTyped(reset);
    RunAppend(r, before, reset);
    RunAppend(r, before + reset, after);
    assert Run(Run(r, before).state, reset) == Finished(DI.Reset(), [Done]);
  }
}
