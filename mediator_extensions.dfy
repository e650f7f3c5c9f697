/** `MediatorExtensions`: the registration entry points on the service collection.
    A service collection is an ordered list of descriptors; only what these methods
    add to it is modelled. */
module MediatorExtensions {
  import opened Types
  import opened Configuration

  /** The service type a descriptor registers. */
  datatype ServiceKey =
    | ConfigurationKey                          // MediatorConfiguration
    | MediatorKey                               // Mediator
    | TypeKey(t: TypeDesc)                      // a handler type, registered as itself
    | MiddlewareKey(request: Ty, response: Ty)  // IPipelineMiddleware<TRequest, TResponse>
    | OpenMiddlewareKey                         // IPipelineMiddleware<,>

  datatype Lifetime = Singleton | Transient

  /** How the service is produced: a given instance, the service type itself, or an
      implementation type. */
  datatype Implementation =
    | Instance(config: MediatorConfiguration)
    | SelfImpl
    | ImplType(t: TypeDesc)

  datatype Descriptor = Descriptor(key: ServiceKey, lifetime: Lifetime, impl: Implementation)

  class ServiceCollection {
    var descriptors: seq<Descriptor>

    constructor()
      ensures descriptors == []
    {
      descriptors := [];
    }
  }

  /** Some descriptor registers that service type. */
  predicate Registered(ds: seq<Descriptor>, key: ServiceKey) {
    exists i :: 0 <= i < |ds| && ds[i].key == key
  }

  /** No service type is registered twice. */
  predicate UniqueKeys(ds: seq<Descriptor>) {
    forall i, j :: 0 <= i < j < |ds| ==> ds[i].key != ds[j].key
  }

  /** `TryAddTransient(type)`: registers the type as itself unless the type is already
      registered. */
  function TryAddTransient(ds: seq<Descriptor>, t: TypeDesc): (r: seq<Descriptor>)
    ensures Registered(r, TypeKey(t))
    ensures ds <= r && |r| <= |ds| + 1
    ensures Registered(ds, TypeKey(t)) ==> r == ds
    ensures forall k :: k != TypeKey(t) ==> (Registered(r, k) <==> Registered(ds, k))
    ensures UniqueKeys(ds) ==> UniqueKeys(r)
  {
    if Registered(ds, TypeKey(t)) then ds
    else
      var r := ds + [Descriptor(TypeKey(t), Transient, SelfImpl)];
      assert r[|ds|].key == TypeKey(t);
      r
  }

  /** `string.EndsWith(suffix)`, ordinal. */
  predicate EndsWith(s: string, suffix: string) {
    |suffix| <= |s| && s[|s| - |suffix|..] == suffix
  }

  /** The filter of `RegisterHandlersFromAssembly`. */
  predicate IsHandlerCandidate(t: TypeDesc) {
    EndsWith(t.name, "Handler") && !t.isAbstract && !t.isInterface && t.isClass
  }

  /** The filter on the shapes the registration tests use: an abstract class, an
      interface and a class whose name does not end in `Handler` are skipped, a
      concrete handler class is taken. */
  lemma HandlerFilterFixtures()
    ensures !IsHandlerCandidate(TypeDesc("Tests.AbstractTestHandler", "AbstractTestHandler", true, false, true, false, []))
    ensures !IsHandlerCandidate(TypeDesc("Tests.ITestHandler", "ITestHandler", true, true, false, false, []))
    ensures !IsHandlerCandidate(TypeDesc("Tests.NotAutoRegistered", "NotAutoRegistered", false, false, true, false, []))
    ensures IsHandlerCandidate(TypeDesc("Tests.PingHandler", "PingHandler", false, false, true, false, []))
  {
    assert "NotAutoRegistered"[10..] != "Handler";
    assert "PingHandler"[4..] == "Handler";
  }

  /** The descriptors after registering the candidates among `types`, in order. */
  function RegisterTypes(ds: seq<Descriptor>, types: seq<TypeDesc>): seq<Descriptor>
    decreases |types|
  {
    if types == [] then ds
    else RegisterTypes(if IsHandlerCandidate(types[0]) then TryAddTransient(ds, types[0]) else ds, types[1..])
  }

  /** Scanning never registers a service type twice. */
  lemma {:induction false} RegisterTypesUnique(ds: seq<Descriptor>, types: seq<TypeDesc>)
    ensures UniqueKeys(ds) ==> UniqueKeys(RegisterTypes(ds, types))
    decreases |types|
  {
    if types != [] {
      RegisterTypesUnique(if IsHandlerCandidate(types[0]) then TryAddTransient(ds, types[0]) else ds, types[1..]);
    }
  }

  /** Scanning registers every candidate type and nothing else, and keeps what was
      there. */
  lemma {:induction false} RegisterTypesExactly(ds: seq<Descriptor>, types: seq<TypeDesc>)
    ensures ds <= RegisterTypes(ds, types)
    ensures forall k :: Registered(RegisterTypes(ds, types), k)
                    <==> Registered(ds, k) || (k.TypeKey? && k.t in types && IsHandlerCandidate(k.t))
    decreases |types|
  {
    if types != [] {
      var next := if IsHandlerCandidate(types[0]) then TryAddTransient(ds, types[0]) else ds;
      RegisterTypesExactly(next, types[1..]);
      assert types == [types[0]] + types[1..];
      forall k
        ensures Registered(RegisterTypes(ds, types), k)
            <==> Registered(ds, k) || (k.TypeKey? && k.t in types && IsHandlerCandidate(k.t))
      {
        assert k.TypeKey? && k.t in types <==> k.TypeKey? && (k.t == types[0] || k.t in types[1..]);
      }
    }
  }

  /** `RegisterHandlersFromAssembly`: the filtered scan, one `TryAddTransient` per type. */
  method RegisterHandlersFromAssembly(services: ServiceCollection, assembly: Assembly)
    modifies services
    ensures services.descriptors == RegisterTypes(old(services.descriptors), assembly.types)
  {
    var types := assembly.types;
    for i := 0 to |types|
      invariant RegisterTypes(services.descriptors, types[i..]) == RegisterTypes(old(services.descriptors), types)
    {
      assert types[i..][1..] == types[i + 1..];
      if IsHandlerCandidate(types[i]) {
        services.descriptors := TryAddTransient(services.descriptors, types[i]);
      }
    }
    assert types[|types|..] == [];
  }

  /** The descriptors after the registration loop over the assemblies. */
  function RegisterAssemblies(ds: seq<Descriptor>, assemblies: seq<Assembly>): seq<Descriptor>
    decreases |assemblies|
  {
    if assemblies == [] then ds else RegisterAssemblies(RegisterTypes(ds, assemblies[0].types), assemblies[1..])
  }

  lemma {:induction false} RegisterAssembliesExactly(ds: seq<Descriptor>, assemblies: seq<Assembly>)
    ensures ds <= RegisterAssemblies(ds, assemblies)
    ensures forall k :: Registered(RegisterAssemblies(ds, assemblies), k)
                    <==> Registered(ds, k)
                         || (k.TypeKey? && IsHandlerCandidate(k.t) && exists i :: 0 <= i < |assemblies| && k.t in assemblies[i].types)
    ensures UniqueKeys(ds) ==> UniqueKeys(RegisterAssemblies(ds, assemblies))
    decreases |assemblies|
  {
    if assemblies != [] {
      RegisterTypesExactly(ds, assemblies[0].types);
      RegisterTypesUnique(ds, assemblies[0].types);
      RegisterAssembliesExactly(RegisterTypes(ds, assemblies[0].types), assemblies[1..]);
      forall t: TypeDesc | IsHandlerCandidate(t)
        ensures (exists i :: 0 <= i < |assemblies| && t in assemblies[i].types)
            <==> t in assemblies[0].types || exists i :: 0 <= i < |assemblies| - 1 && t in assemblies[1..][i].types
      {
        if exists i :: 0 <= i < |assemblies| && t in assemblies[i].types {
          var i :| 0 <= i < |assemblies| && t in assemblies[i].types;
          if i > 0 {
            assert assemblies[1..][i - 1] == assemblies[i];
          }
        }
        if exists i :: 0 <= i < |assemblies| - 1 && t in assemblies[1..][i].types {
          var i :| 0 <= i < |assemblies| - 1 && t in assemblies[1..][i].types;
          assert assemblies[i + 1] == assemblies[1..][i];
        }
      }
    }
  }

  /** The two singleton registrations `AddMediator` makes first. */
  function CoreDescriptors(config: MediatorConfiguration): seq<Descriptor> {
    [Descriptor(ConfigurationKey, Singleton, Instance(config)), Descriptor(MediatorKey, Singleton, SelfImpl)]
  }

  /** The assemblies `AddMediator` registers: those given, or the calling assembly. */
  function AssembliesToRegister(assemblies: seq<Assembly>, calling: Assembly): (r: seq<Assembly>)
    ensures |r| > 0
    ensures assemblies != [] ==> r == assemblies
  {
    if |assemblies| > 0 then assemblies else [calling]
  }

  /** `AddMediator(params assemblies)`. The calling assembly is a parameter; the new
      configuration is returned alongside so callers can reach it. */
  method AddMediator(services: ServiceCollection, assemblies: seq<Assembly>, calling: Assembly) returns (config: MediatorConfiguration)
    modifies services
    ensures fresh(config) && config.Valid()
    ensures config.handlerAssemblies == SetAddAll([], AssembliesToRegister(assemblies, calling))
    ensures services.descriptors
            == RegisterAssemblies(old(services.descriptors) + CoreDescriptors(config), AssembliesToRegister(assemblies, calling))
  {
    config := new MediatorConfiguration();
    services.descriptors := services.descriptors + CoreDescriptors(config);
    ghost var base := services.descriptors;
    var toRegister := if |assemblies| > 0 then assemblies else [calling];
    for i := 0 to |toRegister|
      invariant fresh(config) && config.Valid()
      invariant SetAddAll(config.handlerAssemblies, toRegister[i..]) == SetAddAll([], toRegister)
      invariant RegisterAssemblies(services.descriptors, toRegister[i..]) == RegisterAssemblies(base, toRegister)
    {
      assert toRegister[i..][1..] == toRegister[i + 1..];
      config.AddAssembly(toRegister[i]);
      RegisterHandlersFromAssembly(services, toRegister[i]);
    }
    assert toRegister[|toRegister|..] == [];
  }

  /** After `AddMediator`, the configuration holds each assembly to register exactly
      once, so it is never empty, and repeated assemblies collapse to one. */
  lemma AddMediatorConfiguration(assemblies: seq<Assembly>, calling: Assembly)
    ensures var added := SetAddAll([], AssembliesToRegister(assemblies, calling));
            && Elements(added) == Elements(AssembliesToRegister(assemblies, calling))
            && NoDuplicates(added)
            && |added| > 0
  {
    var toRegister := AssembliesToRegister(assemblies, calling);
    SetAddAllContents([], toRegister);
    assert Elements<Assembly>([]) == {};
    assert toRegister[0] in Elements(SetAddAll([], toRegister));
  }

  /** After `AddMediator`, every handler candidate of an assembly it registered is
      registered as a service. */
  lemma AddMediatorRegistersCandidates(ds: seq<Descriptor>, config: MediatorConfiguration, assemblies: seq<Assembly>, calling: Assembly,
                                       t: TypeDesc, i: nat)
    requires var toRegister := AssembliesToRegister(assemblies, calling);
             i < |toRegister| && t in toRegister[i].types && IsHandlerCandidate(t)
    ensures Registered(RegisterAssemblies(ds + CoreDescriptors(config), AssembliesToRegister(assemblies, calling)), TypeKey(t))
  {
    RegisterAssembliesExactly(ds + CoreDescriptors(config), AssembliesToRegister(assemblies, calling));
  }

  /** `services.FirstOrDefault(d => d.ServiceType == typeof(MediatorConfiguration))`. */
  function FirstConfigurationDescriptor(ds: seq<Descriptor>): (r: Option<Descriptor>)
    ensures r.Some? <==> Registered(ds, ConfigurationKey)
    ensures r.Some? ==> exists i :: 0 <= i < |ds| && ds[i] == r.value && r.value.key == ConfigurationKey
                                    && forall j :: 0 <= j < i ==> ds[j].key != ConfigurationKey
  {
    if ds == [] then None
    else if ds[0].key == ConfigurationKey then Some(ds[0])
    else
      var r := FirstConfigurationDescriptor(ds[1..]);
      assert Registered(ds, ConfigurationKey) ==> Registered(ds[1..], ConfigurationKey) by {
        if Registered(ds, ConfigurationKey) {
          var i :| 0 <= i < |ds| && ds[i].key == ConfigurationKey;
          assert ds[1..][i - 1] == ds[i];
        }
      }
      assert r.Some? ==> exists i :: 0 <= i < |ds| && ds[i] == r.value && r.value.key == ConfigurationKey
                                     && forall j :: 0 <= j < i ==> ds[j].key != ConfigurationKey by {
        if r.Some? {
          var i :| 0 <= i < |ds| - 1 && ds[1..][i] == r.value && r.value.key == ConfigurationKey
                   && forall j :: 0 <= j < i ==> ds[1..][j].key != ConfigurationKey;
          assert forall j :: 1 <= j < i + 1 ==> ds[j] == ds[1..][j - 1];
        }
      }
      r
  }

  /** `descriptor?.ImplementationInstance as MediatorConfiguration`. */
  function RegisteredConfiguration(ds: seq<Descriptor>): (r: Option<MediatorConfiguration>)
    ensures r.Some? <==> FirstConfigurationDescriptor(ds).Some? && FirstConfigurationDescriptor(ds).value.impl.Instance?
    ensures r.Some? ==> r.value == FirstConfigurationDescriptor(ds).value.impl.config
  {
    match FirstConfigurationDescriptor(ds)
    case Some(Descriptor(_, _, Instance(config))) => Some(config)
    case _ => None
  }

  /** `AddMediator` registers a configuration that `AddMediatorManualHandler` then finds. */
  lemma AddMediatorThenManualFindsIt(ds: seq<Descriptor>, config: MediatorConfiguration, assemblies: seq<Assembly>)
    requires !Registered(ds, ConfigurationKey)
    ensures RegisteredConfiguration(RegisterAssemblies(ds + CoreDescriptors(config), assemblies)) == Some(config)
  {
    var base := ds + CoreDescriptors(config);
    var after := RegisterAssemblies(base, assemblies);
    RegisterAssembliesExactly(base, assemblies);
    assert base[|ds|].key == ConfigurationKey;
    var d := FirstConfigurationDescriptor(after).value;
    var i :| 0 <= i < |after| && after[i] == d && d.key == ConfigurationKey
             && forall j :: 0 <= j < i ==> after[j].key != ConfigurationKey;
    assert after[|ds|] == base[|ds|];
  }

  const ManualBeforeAddMediatorMessage := "Call AddMediator() before adding manual handlers."

  /** The configuration objects the descriptors hold. */
  function Configurations(ds: seq<Descriptor>): set<MediatorConfiguration> {
    set i | 0 <= i < |ds| && ds[i].impl.Instance? :: ds[i].impl.config
  }

  /** `AddMediatorManualHandler<T>()`: `handlerType` is `T`, `home` is `T`'s assembly.
      Without a registered configuration it fails and changes nothing. */
  method AddMediatorManualHandler(services: ServiceCollection, handlerType: TypeDesc, home: Assembly) returns (r: Result<(), Error>)
    modifies services, Configurations(services.descriptors)
    ensures var found := RegisteredConfiguration(old(services.descriptors));
            && (found.None? ==>
                  && r == Failure(InvalidOperation(ManualBeforeAddMediatorMessage))
                  && services.descriptors == old(services.descriptors))
            && (found.Some? ==>
                  && r == Success(())
                  && services.descriptors == TryAddTransient(old(services.descriptors), handlerType)
                  && found.value.handlerAssemblies == SetAdd(old(found.value.handlerAssemblies), home)
                  && (old(found.value.Valid()) ==> found.value.Valid()))
    ensures forall c :: c in old(Configurations(services.descriptors)) && Some(c) != RegisteredConfiguration(old(services.descriptors))
                        ==> c.handlerAssemblies == old(c.handlerAssemblies)
  {
    var found := RegisteredConfiguration(services.descriptors);
    if found.None? {
      return Failure(InvalidOperation(ManualBeforeAddMediatorMessage));
    }
    var config := found.value;
    var d := FirstConfigurationDescriptor(services.descriptors).value;
    var i :| 0 <= i < |services.descriptors| && services.descriptors[i] == d;
    assert config in Configurations(services.descriptors);
    services.descriptors := TryAddTransient(services.descriptors, handlerType);
    config.AddAssembly(home);
    r := Success(());
  }

  /** `IPipelineMiddleware<TRequest, TResponse>` as the container resolves it: closed
      registrations for that pair and open-generic ones, in registration order. */
  function MiddlewaresFor(ds: seq<Descriptor>, request: Ty, response: Ty): (r: seq<TypeDesc>)
    ensures |r| <= |ds|
  {
    if ds == [] then []
    else
      var d := ds[|ds| - 1];
      MiddlewaresFor(ds[..|ds| - 1], request, response)
        + (if ResolvedFor(d, request, response) then [d.impl.t] else [])
  }

  /** A descriptor the container resolves for the pair. */
  predicate ResolvedFor(d: Descriptor, request: Ty, response: Ty) {
    (d.key == MiddlewareKey(request, response) || d.key == OpenMiddlewareKey) && d.impl.ImplType?
  }

  /** Some descriptor registers `t` as a middleware the container resolves for the pair. */
  predicate RegistersMiddleware(ds: seq<Descriptor>, request: Ty, response: Ty, t: TypeDesc) {
    exists i :: 0 <= i < |ds| && ResolvedFor(ds[i], request, response) && ds[i].impl.t == t
  }

  lemma RegistersMiddlewareSnoc(ds: seq<Descriptor>, request: Ty, response: Ty, t: TypeDesc)
    requires ds != []
    ensures var d := ds[|ds| - 1];
            RegistersMiddleware(ds, request, response, t)
            <==> RegistersMiddleware(ds[..|ds| - 1], request, response, t) || (ResolvedFor(d, request, response) && d.impl.t == t)
  {
    var init := ds[..|ds| - 1];
    if RegistersMiddleware(ds, request, response, t) {
      var i :| 0 <= i < |ds| && ResolvedFor(ds[i], request, response) && ds[i].impl.t == t;
      if i < |init| {
        assert init[i] == ds[i];
      }
    }
    if RegistersMiddleware(init, request, response, t) {
      var i :| 0 <= i < |init| && ResolvedFor(init[i], request, response) && init[i].impl.t == t;
      assert ds[i] == init[i];
    }
  }

  /** The middlewares for a pair are the implementation types of exactly the closed
      registrations for that pair and the open ones. */
  lemma {:induction false} MiddlewaresForExactly(ds: seq<Descriptor>, request: Ty, response: Ty, t: TypeDesc)
    ensures t in MiddlewaresFor(ds, request, response) <==> RegistersMiddleware(ds, request, response, t)
  {
    if ds != [] {
      MiddlewaresForExactly(ds[..|ds| - 1], request, response, t);
      RegistersMiddlewareSnoc(ds, request, response, t);
    }
  }

  /** `AddMediatorPipelineMiddleware<TRequest, TResponse, TMiddleware>()`: always a new
      registration, so registering a middleware twice runs it twice. */
  method AddPipelineMiddleware(services: ServiceCollection, request: Ty, response: Ty, middleware: TypeDesc)
    modifies services
    ensures services.descriptors == old(services.descriptors) + [Descriptor(MiddlewareKey(request, response), Transient, ImplType(middleware))]
  {
    services.descriptors := services.descriptors + [Descriptor(MiddlewareKey(request, response), Transient, ImplType(middleware))];
  }

  /** A closed registration goes last in its own pair's middleware list, which the
      pipeline makes innermost, and leaves every other pair's list alone. */
  lemma ClosedRegistrationAppends(ds: seq<Descriptor>, request: Ty, response: Ty, middleware: TypeDesc, otherRequest: Ty, otherResponse: Ty)
    requires (otherRequest, otherResponse) != (request, response)
    ensures var after := ds + [Descriptor(MiddlewareKey(request, response), Transient, ImplType(middleware))];
            && MiddlewaresFor(after, request, response) == MiddlewaresFor(ds, request, response) + [middleware]
            && MiddlewaresFor(after, otherRequest, otherResponse) == MiddlewaresFor(ds, otherRequest, otherResponse)
  {
    var after := ds + [Descriptor(MiddlewareKey(request, response), Transient, ImplType(middleware))];
    assert after[..|after| - 1] == ds;
  }

  function NotOpenGenericError(t: TypeDesc): Error {
    Argument(t.name + " must be an open generic type.", "pipelineMiddlewareType")
  }

  /** `AddMediatorPipelineMiddleware(Type)`: only an open generic type definition is
      accepted; it is then resolved for every request/response pair. */
  method AddOpenPipelineMiddleware(services: ServiceCollection, middleware: TypeDesc) returns (r: Result<(), Error>)
    modifies services
    ensures !middleware.isGenericDefinition ==> r == Failure(NotOpenGenericError(middleware)) && services.descriptors == old(services.descriptors)
    ensures middleware.isGenericDefinition ==>
              r == Success(()) && services.descriptors == old(services.descriptors) + [Descriptor(OpenMiddlewareKey, Transient, ImplType(middleware))]
  {
    if !middleware.isGenericDefinition {
      return Failure(NotOpenGenericError(middleware));
    }
    services.descriptors := services.descriptors + [Descriptor(OpenMiddlewareKey, Transient, ImplType(middleware))];
    r := Success(());
  }

  /** An open registration joins the end of every pair's middleware list. */
  lemma OpenRegistrationAppendsEverywhere(ds: seq<Descriptor>, middleware: TypeDesc, request: Ty, response: Ty)
    ensures var after := ds + [Descriptor(OpenMiddlewareKey, Transient, ImplType(middleware))];
            MiddlewaresFor(after, request, response) == MiddlewaresFor(ds, request, response) + [middleware]
  {
    var after := ds + [Descriptor(OpenMiddlewareKey, Transient, ImplType(middleware))];
    assert after[..|after| - 1] == ds;
  }
}
