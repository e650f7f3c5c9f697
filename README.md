# SimpleMediator, modelled in Dafny

SimpleMediator is an in-process dispatcher for .NET. `Send` routes a request to
exactly one handler, found by naming convention (`{Request.FullName}Handler`),
through a pipeline of middlewares. `Publish` fans an event out to every handler
type that has a matching `Handle` method. The handler's `Handle` method is
compiled into a delegate that adapts its return shape (`Task<T>`, `Task`, a
synchronous value or `void`) to the one calling convention the dispatcher uses.
The `Mediator` caches one request wrapper per request runtime type and one event
publisher per event runtime type. Registration helpers put the configuration,
the mediator, the handler types and the middlewares into a service collection.

This model states those rules over abstract stand-ins for reflection:

- types are `Types.Ty`; handler types are `Types.TypeDesc` (name, flags, `Handle` overloads);
- assemblies are sequences of type descriptors;
- `IsAssignableFrom` is a relation passed in as a parameter;
- the service provider is `Services.Provider`, a value that says which handler
  types resolve, which middlewares resolve for a request/response pair, and what
  a handler's `Handle` does when called.

A task is modelled by how it settles (`Completion`: done with a value, or
faulted with an exception). A handler call is `CallResult`. It tells a
synchronous throw apart from a returned task that faulted, because the event
loop handles those two differently. The cancellation token is a `bool`.

Modules follow the source files:

- `Pipeline` models `BuildPipeline` from `Internals/RequestHandlerWrapper.cs`. The
  middleware contract is `IPipelineMiddleware.cs`, modelled as the `Delegate` type
  plus a datatype of middleware behaviours.
- `HandlerCompiler` models `Internals/HandlerCompiler.cs`.
- `RequestHandlerWrapper` models `Internals/RequestHandlerWrapper.cs`.
- `EventPublisherWrapper` models `Internals/EventPublisherWrapper.cs`. Its
  `DiscoverHandlers` and `Publish` are loops, proved against recursive
  specification functions.
- `Configuration` models `MediatorConfiguration.cs`. It is a class whose
  `AddAssembly` updates the assembly set in place.
- `Dispatcher` models `Mediator.cs`. It is a class holding the two caches as maps.
  Its methods are proved against the pure `SendSpec` and `PublishEventSpec`.
- `MediatorExtensions` models `MediatorExtensions.cs`. The service collection is a
  class holding a sequence of descriptors.

The request-wrapper cache is keyed by the request's runtime type alone
(`Mediator.cs:27-28`), not by the pair (request type, `TResponse`). A later
`Send` with another `TResponse` for the same request type therefore reuses the
first wrapper and casts its result. `Dispatcher.CacheKeyIgnoresResponseType`
states this consequence.

## Model

| member | source | states |
|---|---|---|
| `Pipeline.BuildPipeline` | SimpleMediator/Internals/RequestHandlerWrapper.cs:40-54 | with no middleware the pipeline is the terminal handler call itself |
| `Pipeline.BuildPipelineIsNesting` | SimpleMediator/Internals/RequestHandlerWrapper.cs:48-53 | the fold over the reversed list equals M1(M2(..Mn(terminal))): the first resolved middleware is outermost |
| `Pipeline.TransparentRun` | SimpleMediator/Internals/RequestHandlerWrapper.cs:46-53 | when no middleware stops early, the terminal gets the pipeline's token and the request with every outer mutation applied; the log holds the before entries in order, then the handler's, then the after entries reversed (none if the handler faults) |
| `Pipeline.NestedTraceOrder` | SimpleMediator/Internals/RequestHandlerWrapper.cs:48-53 | three tracing middlewares around a logging handler give M1-Before, M2-Before, M3-Before, Handler, M3-After, M2-After, M1-After |
| `Pipeline.StopSuppressesInner` | SimpleMediator/Internals/RequestHandlerWrapper.cs:52 | a middleware that returns without calling next makes the run independent of every inner middleware and of the terminal handler |
| `Pipeline.OutermostStopResult` | SimpleMediator/Internals/RequestHandlerWrapper.cs:52 | when the outermost middleware stops, its own value is the result and the shared state is untouched |
| `Pipeline.InnerStopResult` | SimpleMediator/Internals/RequestHandlerWrapper.cs:50-53 | when a middleware stops after transparent outer ones, its value is the result and the log holds only the outer middlewares' entries, so the handler never ran |
| `HandlerCompiler.TokenArgument` | SimpleMediator/Internals/HandlerCompiler.cs:56-69 | the token is passed to `Handle` if and only if the method has exactly two parameters, and then it is the caller's token |
| `HandlerCompiler.SelectRequestCase` | SimpleMediator/Internals/HandlerCompiler.cs:71-100 | exactly one of the four cases applies to each return type: `Task<TResponse>` passes through, `Task` awaits then gives Unit, another `Task<T>` awaits then casts, anything else converts synchronously |
| `HandlerCompiler.AwaitAndReturnUnit` | SimpleMediator/Internals/HandlerCompiler.cs:114-118 | a faulted task stays faulted; a completed one gives Unit when `TResponse` can hold Unit, and an invalid-cast fault from Unit to `TResponse` otherwise |
| `HandlerCompiler.AwaitAndCast` | SimpleMediator/Internals/HandlerCompiler.cs:120-124 | a faulted task stays faulted; a completed one gives its own value when `TResponse` can hold it, and an invalid-cast fault otherwise |
| `HandlerCompiler.NormalizeToTaskOfResponse` | SimpleMediator/Internals/HandlerCompiler.cs:71-100 | a synchronous throw or a faulted task surfaces as the awaited fault; the pass-through case returns the handler's task unchanged; a completed `Task` gives Unit, and a completed value in the other two cases is handed on unchanged, exactly when `TResponse` can hold it, else the cast fails with an invalid-cast fault naming both types |
| `HandlerCompiler.ForRequest` | SimpleMediator/Internals/HandlerCompiler.cs:16-27 | the compiled request delegate calls `Handle` with the token exactly when it takes one, keeps the handler's log, surfaces its throw or fault, and gives the handler's value (Unit for `Task`) when `TResponse` can hold it |
| `HandlerCompiler.ForEvent` | SimpleMediator/Internals/HandlerCompiler.cs:33-44 | the compiled event delegate keeps the handler's log; it throws exactly when the handler throws; otherwise it gives the handler's task for a Task-returning method and null for any other |
| `HandlerCompiler.NormalizeToNullableTask` | SimpleMediator/Internals/HandlerCompiler.cs:102-110 | a Task-assignable return type gives the handler's task, any other gives null; a synchronous throw escapes the delegate |
| `Types.Cast` | SimpleMediator/Internals/HandlerCompiler.cs:123 | the cast succeeds with the same object if and only if the target type is assignable from its runtime type, else it raises an invalid-cast error |
| `RequestHandlerWrapper.FindHandlerType` | SimpleMediator/Internals/RequestHandlerWrapper.cs:59-64 | a handler type is found if and only if some registered assembly defines `{FullName}Handler`, and the found type has that full name |
| `RequestHandlerWrapper.FirstAssemblyWins` | SimpleMediator/Internals/RequestHandlerWrapper.cs:61-63 | the type comes from the first registered assembly that defines the name |
| `RequestHandlerWrapper.FindHandleMethod` | SimpleMediator/Internals/RequestHandlerWrapper.cs:66-67 | `Handle(request, CancellationToken)` is chosen when present, else `Handle(request)`; the result is a `Handle` method of the type with one of those two parameter lists |
| `RequestHandlerWrapper.EffectiveResultType` | SimpleMediator/Internals/RequestHandlerWrapper.cs:78-85 | the effective result type is Unit for `Task`, T for `Task<T>` and the declared type otherwise |
| `RequestHandlerWrapper.ValidateReturnType` | SimpleMediator/Internals/RequestHandlerWrapper.cs:76-92 | binding passes if and only if `TResponse` is assignable from the effective result type; otherwise the error names the request, effective and expected types |
| `RequestHandlerWrapper.DiscoverHandler` | SimpleMediator/Internals/RequestHandlerWrapper.cs:56-74 | a missing handler type, a missing `Handle` and a result-type mismatch each fail with their own message; a success binds the convention-named type from the first defining assembly, its preferred overload, and a validated result type |
| `RequestHandlerWrapper.NewRequestWrapper` | SimpleMediator/Internals/RequestHandlerWrapper.cs:27-30 | the constructor succeeds exactly when discovery does, and fails with discovery's error |
| `RequestHandlerWrapper.Execute` | SimpleMediator/Internals/RequestHandlerWrapper.cs:32-38 | an unresolvable handler type faults before anything runs; with no middleware the run is the handler call alone |
| `RequestHandlerWrapper.BoundOverloadReceivesToken` | SimpleMediator/Internals/RequestHandlerWrapper.cs:66-72 | the bound handler receives the token exactly when it declares the token overload |
| `RequestHandlerWrapper.CompiledDelegateYieldsResponse` | SimpleMediator/Internals/RequestHandlerWrapper.cs:70-72 | once the result type is validated, the compiled delegate yields a value `TResponse` can hold or the handler's own fault; its casts never fail; a completed call gives the handler's own value, or Unit for a `Task` handler |
| `RequestHandlerWrapper.ExecuteYieldsHandlerValue` | SimpleMediator/Internals/RequestHandlerWrapper.cs:32-53 | with no middleware, a resolved handler whose result type was validated and which completes makes `Execute` give its value (Unit for `Task`), the unchanged request and the handler's log |
| `RequestHandlerWrapper.ExecuteTransparent` | SimpleMediator/Internals/RequestHandlerWrapper.cs:32-53 | with transparent middlewares, `Execute` calls the handler once, with the mutated request and the token when the overload takes one, and the log is before entries, handler entries, then reversed after entries |
| `EventPublisherWrapper.DiscoverInAssembly` | SimpleMediator/Internals/EventPublisherWrapper.cs:50-61 | the inner loop over one assembly's types builds exactly that assembly's part of the scan specification, in type order |
| `EventPublisherWrapper.DiscoverHandlers` | SimpleMediator/Internals/EventPublisherWrapper.cs:43-64 | the loop over the assemblies builds exactly the assembly-then-type ordered list of the scan specification |
| `EventPublisherWrapper.ScanTypesMembers` | SimpleMediator/Internals/EventPublisherWrapper.cs:50-60 | a type of one assembly contributes an entry if and only if it is concrete and has a matching `Handle`, bound to its preferred overload |
| `EventPublisherWrapper.DiscoveredHandlersExactly` | SimpleMediator/Internals/EventPublisherWrapper.cs:48-60 | the bound handlers are exactly the non-abstract, non-interface types of the registered assemblies with a matching `Handle`; no naming rule applies |
| `EventPublisherWrapper.PublishStep` | SimpleMediator/Internals/EventPublisherWrapper.cs:27-34 | after a throw or for an unresolved handler nothing changes; otherwise the handler is invoked, the state records a throw exactly when it throws synchronously, and its task is collected exactly when it returned one |
| `EventPublisherWrapper.ReturnedTasksMembers` | SimpleMediator/Internals/EventPublisherWrapper.cs:29-34 | a task is among the returned tasks exactly when some resolved handler returned it |
| `EventPublisherWrapper.Collect` | SimpleMediator/Internals/EventPublisherWrapper.cs:25-35 | unresolved handlers are skipped; the invoked handlers are a prefix of the resolved ones in list order, and all of them when no handler throws synchronously; without a throw the collected tasks are exactly the handlers' non-null tasks in list order |
| `EventPublisherWrapper.CollectThrows` | SimpleMediator/Internals/EventPublisherWrapper.cs:25-35 | the loop stops early exactly when some resolved handler throws synchronously, and then with the first such handler's exception |
| `EventPublisherWrapper.ThrownIsFinal` | SimpleMediator/Internals/EventPublisherWrapper.cs:25-35 | after a handler throws synchronously, no later handler is invoked and nothing more is collected |
| `EventPublisherWrapper.WhenAll` | SimpleMediator/Internals/EventPublisherWrapper.cs:37-40 | the awaited combination faults if and only if some collected task faulted, with the first such task's exception |
| `EventPublisherWrapper.PublishSpec` | SimpleMediator/Internals/EventPublisherWrapper.cs:20-41 | no more tasks than invoked handlers and no more invocations than handlers; something is awaited only when tasks were collected and no handler threw; without a throw every resolved handler runs once, the awaited tasks are exactly the handlers' returned tasks, and the result faults only if a task faulted |
| `EventPublisherWrapper.PublishSyncThrowFaults` | SimpleMediator/Internals/EventPublisherWrapper.cs:25-35 | a synchronous throw from a resolved handler faults the returned task with the first such exception, and nothing is awaited |
| `EventPublisherWrapper.PublishFaultsIffHandlerTaskFaults` | SimpleMediator/Internals/EventPublisherWrapper.cs:29-40 | without synchronous throws, the returned task faults exactly when some resolved handler returned a faulted task |
| `EventPublisherWrapper.VoidHandlersReturnNoTask` | SimpleMediator/Internals/EventPublisherWrapper.cs:30-34 | handlers that all return null contribute no task |
| `EventPublisherWrapper.PublishOfVoidHandlersCompletes` | SimpleMediator/Internals/EventPublisherWrapper.cs:20-41 | when every resolved handler is a void handler, each of them runs, nothing is awaited and the returned task completes |
| `EventPublisherWrapper.Publish` | SimpleMediator/Internals/EventPublisherWrapper.cs:20-41 | the loop with `continue` and early exit computes exactly the publish specification |
| `Configuration.SetAdd` | SimpleMediator/MediatorConfiguration.cs:12 | insertion adds the element, removes nothing, keeps order, grows the size by one only for a new element, and keeps the set duplicate-free |
| `Configuration.SetAddIdempotent` | SimpleMediator/MediatorConfiguration.cs:12 | adding the same assembly twice is the same as adding it once |
| `Configuration.SetAddAllContents` | SimpleMediator/MediatorExtensions.cs:16-20 | adding a sequence of assemblies yields the old ones and the new ones, each once, with the old ones first |
| `Configuration.MediatorConfiguration.constructor` | SimpleMediator/MediatorConfiguration.cs:8 | a new configuration has an empty assembly set |
| `Configuration.MediatorConfiguration.AddAssembly` | SimpleMediator/MediatorConfiguration.cs:10-13 | the field becomes the set with the assembly added, and stays duplicate-free |
| `Dispatcher.Activate` | SimpleMediator/Mediator.cs:61 | creating a wrapper by reflection wraps its constructor's exception in a target-invocation exception |
| `Dispatcher.CreateWrapper` | SimpleMediator/Mediator.cs:57-67 | the caller sees exactly the constructor's own outcome: the wrapper, or the inner exception unwrapped |
| `Dispatcher.RequestWrapperFor` | SimpleMediator/Mediator.cs:27-28 | a cached wrapper is reused and the cache kept; on a miss the factory runs, a new wrapper is stored under the request type, and a failing construction stores nothing and gives discovery's error |
| `Dispatcher.SendSpec` | SimpleMediator/Mediator.cs:21-32 | a null request fails with ArgumentNullException before any lookup and leaves the cache alone; existing entries are never replaced; only the request's type can be added; a completed result always fits `TResponse` |
| `Dispatcher.DiscoveryFailureNotCached` | SimpleMediator/Mediator.cs:27-28 | when discovery fails nothing is cached and the same send fails the same way again |
| `Dispatcher.RepeatedSendReusesWrapper` | SimpleMediator/Mediator.cs:25-30 | the first send stores the new wrapper; a repeat send reuses it and gives the same result, log and cache |
| `Dispatcher.CacheKeyIgnoresResponseType` | SimpleMediator/Mediator.cs:27-31 | for a cached request type, a send with any other `TResponse` runs the same wrapper, gives the same log, and only casts the first wrapper's value to the new type |
| `Dispatcher.PublisherFor` | SimpleMediator/Mediator.cs:45-46 | a cached publisher is reused; a new one carries the handler list discovered at creation, and it is stored |
| `Dispatcher.PublishEventSpec` | SimpleMediator/Mediator.cs:39-49 | a null event fails with ArgumentNullException and invokes nobody; otherwise the publisher cached for the event's type runs, and an existing entry is kept as it is |
| `Dispatcher.PublishWithoutHandlers` | SimpleMediator/Mediator.cs:45-48 | an event type without any handler completes at once, invoking and awaiting nothing |
| `Dispatcher.Mediator.constructor` | SimpleMediator/Mediator.cs:12-19 | a new mediator keeps its provider and configuration and starts with both caches empty |
| `Dispatcher.Mediator.Send` | SimpleMediator/Mediator.cs:21-32 | result, log and new request cache are those of the send specification; the event cache is unchanged |
| `Dispatcher.Mediator.SendCommand` | SimpleMediator/Mediator.cs:34-37 | behaves as `Send<Unit>` with the value discarded |
| `Dispatcher.Mediator.Publish` | SimpleMediator/Mediator.cs:39-49 | the run and the new event cache are those of the publish specification; the request cache is unchanged |
| `Dispatcher.Mediator.PublishTyped` | SimpleMediator/Mediator.cs:51-55 | `Publish<TEvent>` behaves exactly as `Publish(object)` |
| `MediatorExtensions.TryAddTransient` | SimpleMediator/MediatorExtensions.cs:64 | the type ends up registered; an already registered type adds nothing; no other registration changes; unique registrations stay unique |
| `MediatorExtensions.HandlerFilterFixtures` | SimpleMediator/MediatorExtensions.cs:59-60 | an abstract class, an interface and a class whose name does not end in `Handler` are not registered; a concrete `...Handler` class is |
| `MediatorExtensions.RegisterTypesExactly` | SimpleMediator/MediatorExtensions.cs:57-66 | a type gets registered if and only if it was already registered or is in the assembly and passes the filter; existing descriptors are kept |
| `MediatorExtensions.RegisterTypesUnique` | SimpleMediator/MediatorExtensions.cs:62-64 | scanning an assembly never registers a service type twice, because each type is try-added |
| `MediatorExtensions.RegisterHandlersFromAssembly` | SimpleMediator/MediatorExtensions.cs:57-66 | the loop computes the filtered scan of the assembly's types |
| `MediatorExtensions.RegisterAssembliesExactly` | SimpleMediator/MediatorExtensions.cs:16-20 | after the loop over the assemblies, a type is registered if and only if it was before or it passes the filter in one of them |
| `MediatorExtensions.AssembliesToRegister` | SimpleMediator/MediatorExtensions.cs:15 | the given assemblies are used when there are any, otherwise the calling assembly, so the list is never empty |
| `MediatorExtensions.AddMediator` | SimpleMediator/MediatorExtensions.cs:9-23 | a fresh configuration holding the assemblies to register; the service collection gains the two singletons, then the filtered handler types of each assembly |
| `MediatorExtensions.AddMediatorConfiguration` | SimpleMediator/MediatorExtensions.cs:15-20 | the configuration holds each given assembly exactly once and is never empty |
| `MediatorExtensions.AddMediatorRegistersCandidates` | SimpleMediator/MediatorExtensions.cs:16-20 | each handler candidate of each registered assembly ends up registered |
| `MediatorExtensions.FirstConfigurationDescriptor` | SimpleMediator/MediatorExtensions.cs:27 | a configuration descriptor is found if and only if one is registered, and it is the first one |
| `MediatorExtensions.RegisteredConfiguration` | SimpleMediator/MediatorExtensions.cs:27-29 | the configuration is the instance held by the first configuration descriptor, if it holds one |
| `MediatorExtensions.AddMediatorThenManualFindsIt` | SimpleMediator/MediatorExtensions.cs:11-12 | the configuration `AddMediator` registers is the one a later manual registration finds |
| `MediatorExtensions.AddMediatorManualHandler` | SimpleMediator/MediatorExtensions.cs:25-35 | without a registered configuration it fails with InvalidOperationException and changes nothing; otherwise it try-adds the type and adds its assembly to that configuration, which stays duplicate-free; no other configuration object changes |
| `MediatorExtensions.AddPipelineMiddleware` | SimpleMediator/MediatorExtensions.cs:37-43 | the closed registration is always appended, never try-added |
| `MediatorExtensions.MiddlewaresForExactly` | SimpleMediator/MediatorExtensions.cs:37-55 | the middlewares resolved for a pair are the implementation types of exactly the closed registrations for that pair and the open ones |
| `MediatorExtensions.ClosedRegistrationAppends` | SimpleMediator/MediatorExtensions.cs:41 | a closed middleware goes last in its own pair's resolution list (innermost in the pipeline) and leaves other pairs' lists alone |
| `MediatorExtensions.AddOpenPipelineMiddleware` | SimpleMediator/MediatorExtensions.cs:45-55 | a type that is not an open generic definition is rejected with ArgumentException and changes nothing; otherwise it is appended |
| `MediatorExtensions.OpenRegistrationAppendsEverywhere` | SimpleMediator/MediatorExtensions.cs:53 | an open middleware joins the end of every request/response pair's list |

## Left out

- Reflection and expression-tree compilation (`GetType`, `GetMethod`, `MakeGenericType`, `Expression.*`, `Activator.CreateInstance`) are replaced by type descriptors, a case-selection function, and the `Completion`/`CallResult` values the compiled delegates produce.
- The dependency-injection container is not modelled. Instance resolution, lifetimes and open-generic closing belong to it. `Services.Provider` says what resolves. `MediatorExtensions.MiddlewaresFor` assumes the container returns the middlewares for a pair in registration order. The descriptors `MediatorExtensions` writes are not connected to `Services.Provider`.
- `RequestHandlerWrapper.FindHandleMethod`: overload lookup is modelled as exact equality of parameter types (`Types.GetMethod`). The binder's widening, such as `Handle(object)` matching a request, is not modelled, and neither are static or inherited `Handle` methods.
- Asynchrony and concurrency are left out. Tasks are modelled as already settled. `ConfigureAwait` has no counterpart. `Task.WhenAll` runs no handlers in parallel. The `ConcurrentDictionary` caches are plain maps updated one call at a time, so the race where two threads both run the factory is not modelled.
- `CancellationTokenSource` is left out: the token is a `bool` handed down unchanged.
- Null values are left out except for a null request or event (`None`). A handler returning null is not modelled, and neither is the null-forgiving cast in `Send`.
- `HashSet<Assembly>` enumeration order is taken to be insertion order.
- `string.EndsWith` is modelled as an ordinal suffix test. The culture-sensitive comparison the source uses by default is not modelled.
- The `(TRequest)request` and `(TEvent)@event` casts in the wrappers are not modelled. Each wrapper is cached under the argument's runtime type, so these casts cannot fail.
- Middleware behaviour is limited to five shapes: tracing, short-circuit, request mutation, fault recovery, and returning early on cancellation. Other middleware code is not modelled.
- `RequestHandlerWrapper.Execute`: the contract covers the unresolved handler and the empty pipeline. Runs through middlewares are stated by `RequestHandlerWrapper.ExecuteTransparent` and the `Pipeline` lemmas.
- `MediatorExtensions.AddMediator` returns the configuration it creates. The source returns the service collection and reaches that configuration through it.
- `MediatorExtensions.AddMediatorManualHandler` takes the handler's assembly as a parameter. The source reads it from `typeof(T).Assembly`.
- `IPipelineMiddleware.cs` is a declaration only. It is modelled by `Pipeline.Delegate` and `Pipeline.Middleware`, not as a separate unit.
