/** `Mediator`: the entry point. It caches one request wrapper per request runtime type
    and one event publisher per event runtime type, creating each on first use from
    the configuration's assemblies. */
module Dispatcher {
  import opened Types
  import opened Pipeline
  import opened Services
  import opened RequestHandlerWrapper
  import opened EventPublisherWrapper
  import opened Configuration

  /** `Activator.CreateInstance`: an exception from the wrapper's constructor comes
      out wrapped in a `TargetInvocationException`. */
  function Activate<W>(construct: Result<W, Error>): (r: Result<W, Error>)
    ensures r.Success? <==> construct.Success?
    ensures r.Success? ==> r.value == construct.value
    ensures r.Failure? ==> r.error == TargetInvocation(construct.error)
  {
    match construct
    case Success(w) => Success(w)
    case Failure(e) => Failure(TargetInvocation(e))
  }

  /** The `catch (TargetInvocationException ex)` of `CreateWrapper`: rethrow the inner
      exception. */
  function Unwrap<W>(r: Result<W, Error>): Result<W, Error> {
    match r
    case Failure(TargetInvocation(inner)) => Failure(inner)
    case _ => r
  }

  /** `CreateWrapper`: the caller sees the wrapper constructor's own exception, not the
      reflection wrapper around it. */
  function CreateWrapper<W>(construct: Result<W, Error>): (r: Result<W, Error>)
    ensures r == construct
  {
    Unwrap(Activate(construct))
  }

  /** The request wrapper for a runtime type: the cached one, or a new one, which is
      stored only when its construction succeeds. */
  function RequestWrapperFor(cache: map<Ty, RequestWrapper>, assemblies: seq<Assembly>, requestType: Ty, response: Ty,
                             assignable: (Ty, Ty) -> bool): (r: (Result<RequestWrapper, Error>, map<Ty, RequestWrapper>))
    ensures requestType in cache ==> r == (Success(cache[requestType]), cache)
    ensures requestType !in cache && r.0.Success? ==>
              && r.0.value.requestType == requestType && r.0.value.responseType == response
              && r.1 == cache[requestType := r.0.value]
    ensures requestType !in cache ==> (r.0.Failure? <==> DiscoverHandler(assemblies, requestType, response, assignable).Failure?)
    ensures r.0.Failure? ==> r.0.error == DiscoverHandler(assemblies, requestType, response, assignable).error && r.1 == cache
  {
    if requestType in cache then (Success(cache[requestType]), cache)
    else
      match CreateWrapper(NewRequestWrapper(assemblies, requestType, response, assignable))
      case Success(w) => (Success(w), cache[requestType := w])
      case Failure(e) => (Failure(e), cache)
  }

  /** What `Send<TResponse>` does: its awaited outcome, the log it leaves and the
      request cache afterwards. */
  datatype SendOutcome = SendOutcome(result: Completion<Obj>, log: seq<string>, cache: map<Ty, RequestWrapper>)

  /** `Send<TResponse>`. A null request (`None`) is rejected before any lookup. The
      wrapper's result is cast to `TResponse`. */
  function SendSpec(cache: map<Ty, RequestWrapper>, assemblies: seq<Assembly>, sp: Provider, assignable: (Ty, Ty) -> bool,
                    request: Option<Obj>, response: Ty, ct: bool): (r: SendOutcome)
    ensures request.None? ==> r == SendOutcome(Faulted(ArgumentNull("request")), [], cache)
    ensures forall t :: t in cache ==> t in r.cache && r.cache[t] == cache[t]
    ensures forall t :: t in r.cache ==> t in cache || (request.Some? && t == request.value.ty)
    ensures r.result.Done? ==> assignable(response, r.result.value.ty)
  {
    match request
    case None => SendOutcome(Faulted(ArgumentNull("request")), [], cache)
    case Some(req) =>
      var (w, cache') := RequestWrapperFor(cache, assemblies, req.ty, response, assignable);
      match w
      case Failure(e) => SendOutcome(Faulted(e), [], cache')
      case Success(wrapper) =>
        var run := Execute(wrapper, req, sp, assignable, ct);
        var result := if run.outcome.Faulted? then run.outcome else Cast(run.outcome.value, response, assignable);
        SendOutcome(result, run.ctx.log, cache')
  }

  /** A failed discovery is not cached: the same send fails the same way again. */
  lemma DiscoveryFailureNotCached(cache: map<Ty, RequestWrapper>, assemblies: seq<Assembly>, sp: Provider, assignable: (Ty, Ty) -> bool,
                                  request: Obj, response: Ty, ct: bool)
    requires request.ty !in cache
    requires DiscoverHandler(assemblies, request.ty, response, assignable).Failure?
    ensures var r := SendSpec(cache, assemblies, sp, assignable, Some(request), response, ct);
            && r.result == Faulted(DiscoverHandler(assemblies, request.ty, response, assignable).error)
            && r.cache == cache
            && SendSpec(r.cache, assemblies, sp, assignable, Some(request), response, ct) == r
  {
  }

  /** The first successful send of a request type stores its wrapper; a repeated send
      reuses it and behaves the same, leaving the cache as it is. */
  lemma RepeatedSendReusesWrapper(cache: map<Ty, RequestWrapper>, assemblies: seq<Assembly>, sp: Provider, assignable: (Ty, Ty) -> bool,
                                  request: Obj, response: Ty, ct: bool)
    requires request.ty !in cache
    requires DiscoverHandler(assemblies, request.ty, response, assignable).Success?
    ensures var first := SendSpec(cache, assemblies, sp, assignable, Some(request), response, ct);
            var again := SendSpec(first.cache, assemblies, sp, assignable, Some(request), response, ct);
            && first.cache == cache[request.ty := RequestWrapper(request.ty, response, DiscoverHandler(assemblies, request.ty, response, assignable).value)]
            && again == first
  {
    var first := SendSpec(cache, assemblies, sp, assignable, Some(request), response, ct);
    var w := RequestWrapper(request.ty, response, DiscoverHandler(assemblies, request.ty, response, assignable).value);
    assert RequestWrapperFor(cache, assemblies, request.ty, response, assignable) == (Success(w), cache[request.ty := w]);
    assert RequestWrapperFor(first.cache, assemblies, request.ty, response, assignable) == (Success(w), first.cache);
  }

  /** The cache is keyed by the request's runtime type alone: once a wrapper is cached,
      a send with any other `TResponse` runs that same wrapper (bound for the first
      response type) and only the final cast differs. */
  lemma CacheKeyIgnoresResponseType(cache: map<Ty, RequestWrapper>, assemblies: seq<Assembly>, sp: Provider, assignable: (Ty, Ty) -> bool,
                                    request: Obj, response: Ty, otherResponse: Ty, ct: bool)
    requires request.ty in cache
    ensures var a := SendSpec(cache, assemblies, sp, assignable, Some(request), response, ct);
            var b := SendSpec(cache, assemblies, sp, assignable, Some(request), otherResponse, ct);
            var run := Execute(cache[request.ty], request, sp, assignable, ct);
            && a.log == b.log == run.ctx.log
            && a.cache == b.cache == cache
            && (run.outcome.Done? ==> b.result == Cast(run.outcome.value, otherResponse, assignable))
            && (run.outcome.Faulted? ==> a.result == b.result == run.outcome)
  {
  }

  /** The publisher for an event runtime type: the cached one, or a new one whose
      handler list is discovered now and which is stored. Discovery cannot fail. */
  function PublisherFor(cache: map<Ty, EventPublisher>, assemblies: seq<Assembly>, eventType: Ty): (r: (EventPublisher, map<Ty, EventPublisher>))
    ensures eventType in cache ==> r == (cache[eventType], cache)
    ensures eventType !in cache ==> r.0 == EventPublisher(eventType, ScanAssemblies(assemblies, eventType))
    ensures r.1 == cache[eventType := r.0]
  {
    if eventType in cache then (cache[eventType], cache)
    else
      match CreateWrapper(Success(EventPublisher(eventType, ScanAssemblies(assemblies, eventType))))
      case Success(p) => (p, cache[eventType := p])
      case Failure(_) => assert false; (EventPublisher(eventType, []), cache)
  }

  /** What `Publish` does: the publisher's run (or the null-argument failure) and the
      event cache afterwards. */
  datatype PublishOutcome = PublishOutcome(run: PublishRun, cache: map<Ty, EventPublisher>)

  function PublishEventSpec(cache: map<Ty, EventPublisher>, assemblies: seq<Assembly>, sp: Provider,
                            event: Option<Obj>, ct: bool): (r: PublishOutcome)
    ensures event.None? ==> r.run.outcome == Faulted(ArgumentNull("event")) && r.run.invoked == [] && r.cache == cache
    ensures event.Some? ==> event.value.ty in r.cache && r.cache == cache[event.value.ty := r.cache[event.value.ty]]
    ensures event.Some? ==> r.run == PublishSpec(r.cache[event.value.ty], event.value, sp, ct)
    ensures event.Some? && event.value.ty in cache ==> r.cache == cache
    ensures event.Some? && event.value.ty !in cache ==> r.cache[event.value.ty].handlers == ScanAssemblies(assemblies, event.value.ty)
  {
    match event
    case None => PublishOutcome(PublishRun([], [], [], false, Faulted(ArgumentNull("event"))), cache)
    case Some(e) =>
      var (p, cache') := PublisherFor(cache, assemblies, e.ty);
      PublishOutcome(PublishSpec(p, e, sp, ct), cache')
  }

  /** Publishing to an event type with no handler anywhere completes at once, without
      awaiting anything or invoking anyone. */
  lemma PublishWithoutHandlers(cache: map<Ty, EventPublisher>, assemblies: seq<Assembly>, sp: Provider, event: Obj, ct: bool)
    requires event.ty !in cache
    requires forall i, t :: 0 <= i < |assemblies| && t in assemblies[i].types ==> FindHandleMethod(t, event.ty).None?
    ensures var r := PublishEventSpec(cache, assemblies, sp, Some(event), ct);
            r.run.outcome == Done(()) && !r.run.awaited && r.run.invoked == []
  {
    var hs := ScanAssemblies(assemblies, event.ty);
    if hs != [] {
      var e := hs[0];
      DiscoveredHandlersExactly(assemblies, event.ty, e);
      assert false;
    }
  }

  class Mediator {
    /** `_serviceProvider` */
    const sp: Provider
    /** `_config`, shared with whoever registered the mediator */
    const config: MediatorConfiguration
    /** `IsAssignableFrom` on runtime types */
    const assignable: (Ty, Ty) -> bool
    /** `_requestHandlerCache` */
    var requestCache: map<Ty, RequestWrapper>
    /** `_eventPublisherCache` */
    var eventCache: map<Ty, EventPublisher>

    /** The constructor resolves the configuration and starts with empty caches. */
    constructor(sp: Provider, config: MediatorConfiguration, assignable: (Ty, Ty) -> bool)
      ensures this.sp == sp && this.config == config && this.assignable == assignable
      ensures requestCache == map[] && eventCache == map[]
    {
      this.sp := sp;
      this.config := config;
      this.assignable := assignable;
      requestCache := map[];
      eventCache := map[];
    }

    /** `Send<TResponse>(request, ct)` */
    method Send(request: Option<Obj>, response: Ty, ct: bool) returns (result: Completion<Obj>, log: seq<string>)
      modifies this
      ensures var r := SendSpec(old(requestCache), config.handlerAssemblies, sp, assignable, request, response, ct);
              result == r.result && log == r.log && requestCache == r.cache
      ensures eventCache == old(eventCache)
    {
      if request.None? {
        return Faulted(ArgumentNull("request")), [];
      }
      var req := request.value;
      // `GetOrAdd` on the request's runtime type
      var found := RequestWrapperFor(requestCache, config.handlerAssemblies, req.ty, response, assignable);
      requestCache := found.1;
      if found.0.Failure? {
        return Faulted(found.0.error), [];
      }
      var run := Execute(found.0.value, req, sp, assignable, ct);
      log := run.ctx.log;
      if run.outcome.Faulted? {
        result := run.outcome;
      } else {
        result := Cast(run.outcome.value, response, assignable);
      }
    }

    /** `Send(command, ct)`: `Send<Unit>`, its value discarded. */
    method SendCommand(command: Option<Obj>, ct: bool) returns (result: Completion<()>, log: seq<string>)
      modifies this
      ensures var r := SendSpec(old(requestCache), config.handlerAssemblies, sp, assignable, command, UnitTy, ct);
              result == (if r.result.Done? then Done(()) else Faulted(r.result.error)) && log == r.log && requestCache == r.cache
      ensures eventCache == old(eventCache)
    {
      var value;
      value, log := Send(command, UnitTy, ct);
      result := if value.Done? then Done(()) else Faulted(value.error);
    }

    /** `Publish(event, ct)` */
    method Publish(event: Option<Obj>, ct: bool) returns (run: PublishRun)
      modifies this
      ensures var r := PublishEventSpec(old(eventCache), config.handlerAssemblies, sp, event, ct);
              run == r.run && eventCache == r.cache
      ensures requestCache == old(requestCache)
    {
      if event.None? {
        return PublishRun([], [], [], false, Faulted(ArgumentNull("event")));
      }
      var e := event.value;
      var publisher: EventPublisher;
      if e.ty in eventCache {
        publisher := eventCache[e.ty];
      } else {
        var handlers := DiscoverHandlers(config.handlerAssemblies, e.ty);
        publisher := EventPublisher(e.ty, handlers);
        eventCache := eventCache[e.ty := publisher];
      }
      run := EventPublisherWrapper.Publish(publisher, e, sp, ct);
    }

    /** `Publish<TEvent>(event, ct)`: the untyped overload. */
    method PublishTyped(event: Option<Obj>, ct: bool) returns (run: PublishRun)
      modifies this
      ensures var r := PublishEventSpec(old(eventCache), config.handlerAssemblies, sp, event, ct);
              run == r.run && eventCache == r.cache
      ensures requestCache == old(requestCache)
    {
      run := Publish(event, ct);
    }
  }
}
