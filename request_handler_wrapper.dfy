/** `RequestHandlerWrapperImpl<TRequest, TResponse>`: binds a request type to its one
    handler (by naming convention), validates the handler's result type against the
    expected response, and executes the middleware pipeline around the handler. */
module RequestHandlerWrapper {
  import opened Types
  import opened Pipeline
  import opened HandlerCompiler
  import opened Services

  /** `HandlerMetadata`: the bound handler type and its chosen `Handle` overload. */
  datatype HandlerMetadata = HandlerMetadata(handlerType: TypeDesc, handle: MethodDesc)

  /** One wrapper instance: the closed generic arguments and its `_handler`. */
  datatype RequestWrapper = RequestWrapper(requestType: Ty, responseType: Ty, handler: HandlerMetadata)

  /** The naming convention: `{FullName}Handler`. */
  function HandlerName(requestType: Ty): string {
    FullName(requestType) + "Handler"
  }

  /** The assembly defines a type of that full name. */
  predicate Defines(a: Assembly, name: string) {
    GetType(a, name).Some?
  }

  /** `HandlerAssemblies.Select(a => a.GetType(name)).FirstOrDefault(t => t != null)`. */
  function FindHandlerType(assemblies: seq<Assembly>, name: string): (r: Option<TypeDesc>)
    ensures r.Some? <==> exists i :: 0 <= i < |assemblies| && Defines(assemblies[i], name)
    ensures r.Some? ==> r.value.fullName == name
  {
    if assemblies == [] then None
    else if Defines(assemblies[0], name) then GetType(assemblies[0], name)
    else
      var r := FindHandlerType(assemblies[1..], name);
      assert (exists i :: 0 <= i < |assemblies| && Defines(assemblies[i], name))
         ==> exists i :: 0 <= i < |assemblies| - 1 && Defines(assemblies[1..][i], name) by {
        if exists i :: 0 <= i < |assemblies| && Defines(assemblies[i], name) {
          var i :| 0 <= i < |assemblies| && Defines(assemblies[i], name);
          assert assemblies[1..][i - 1] == assemblies[i];
        }
      }
      r
  }

  /** The first registered assembly that defines the handler name wins. */
  lemma {:induction false} FirstAssemblyWins(assemblies: seq<Assembly>, name: string, i: nat)
    requires i < |assemblies| && Defines(assemblies[i], name)
    requires forall j :: 0 <= j < i ==> !Defines(assemblies[j], name)
    ensures FindHandlerType(assemblies, name) == GetType(assemblies[i], name)
  {
    if i > 0 {
      assert !Defines(assemblies[0], name);
      FirstAssemblyWins(assemblies[1..], name, i - 1);
    }
  }

  /** `GetMethod("Handle", [T, CancellationToken]) ?? GetMethod("Handle", [T])`:
      the overload taking the token is preferred. */
  function FindHandleMethod(handlerType: TypeDesc, argType: Ty): (r: Option<MethodDesc>)
    ensures GetMethod(handlerType, "Handle", [argType, TokenTy]).Some? ==> r == GetMethod(handlerType, "Handle", [argType, TokenTy])
    ensures GetMethod(handlerType, "Handle", [argType, TokenTy]).None? ==> r == GetMethod(handlerType, "Handle", [argType])
    ensures r.Some? ==> r.value in handlerType.methods && r.value.name == "Handle"
                        && (r.value.params == [argType, TokenTy] || r.value.params == [argType])
  {
    var withToken := GetMethod(handlerType, "Handle", [argType, TokenTy]);
    if withToken.Some? then withToken else GetMethod(handlerType, "Handle", [argType])
  }

  /** The result type `ValidateReturnType` checks: Unit for `Task`, T for `Task<T>`,
      the declared type otherwise. */
  function EffectiveResultType(returnType: Ty): (r: Ty)
    ensures returnType == TaskTy ==> r == UnitTy
    ensures returnType.TaskOfTy? ==> r == returnType.result
    ensures !IsTaskType(returnType) ==> r == returnType
  {
    match returnType
    case TaskTy => UnitTy
    case TaskOfTy(t) => t
    case _ => returnType
  }

  function NoHandlerError(requestType: Ty): Error {
    InvalidOperation("No handler found for " + Name(requestType) + " in any registered assembly.")
  }

  function MissingHandleError(handlerType: TypeDesc): Error {
    InvalidOperation("Handler " + handlerType.name + " must have a Handle method.")
  }

  function MismatchError(requestType: Ty, actual: Ty, response: Ty): Error {
    InvalidOperation("Handler for " + Name(requestType) + " returns " + Name(actual) + ", but " + Name(response) + " was expected.")
  }

  /** `ValidateReturnType`: the binding fails, naming the request type, the effective
      result type and the expected response type, unless the response type is
      assignable from the effective result type. */
  function ValidateReturnType(requestType: Ty, handle: MethodDesc, response: Ty, assignable: (Ty, Ty) -> bool): (r: Option<Error>)
    ensures r.None? <==> assignable(response, EffectiveResultType(handle.ret))
    ensures r.Some? ==> r.value == MismatchError(requestType, EffectiveResultType(handle.ret), response)
  {
    var actual := EffectiveResultType(handle.ret);
    if assignable(response, actual) then None else Some(MismatchError(requestType, actual, response))
  }

  /** `DiscoverHandler`: the handler named by convention in the first assembly that
      defines it, its preferred `Handle` overload, and the result-type check; each
      failure with its own message. */
  function DiscoverHandler(assemblies: seq<Assembly>, requestType: Ty, response: Ty, assignable: (Ty, Ty) -> bool): (r: Result<HandlerMetadata, Error>)
    ensures FindHandlerType(assemblies, HandlerName(requestType)).None? ==> r == Failure(NoHandlerError(requestType))
    ensures r.Success? ==>
              && FindHandlerType(assemblies, HandlerName(requestType)) == Some(r.value.handlerType)
              && r.value.handlerType.fullName == HandlerName(requestType)
              && FindHandleMethod(r.value.handlerType, requestType) == Some(r.value.handle)
              && assignable(response, EffectiveResultType(r.value.handle.ret))
    ensures forall t :: FindHandlerType(assemblies, HandlerName(requestType)) == Some(t) ==>
              && (FindHandleMethod(t, requestType).None? ==> r == Failure(MissingHandleError(t)))
              && (FindHandleMethod(t, requestType).Some? ==>
                    var m := FindHandleMethod(t, requestType).value;
                    r == if assignable(response, EffectiveResultType(m.ret)) then Success(HandlerMetadata(t, m))
                         else Failure(MismatchError(requestType, EffectiveResultType(m.ret), response)))
  {
    match FindHandlerType(assemblies, HandlerName(requestType))
    case None => Failure(NoHandlerError(requestType))
    case Some(handlerType) =>
      match FindHandleMethod(handlerType, requestType)
      case None => Failure(MissingHandleError(handlerType))
      case Some(m) =>
        match ValidateReturnType(requestType, m, response, assignable)
        case Some(e) => Failure(e)
        case None => Success(HandlerMetadata(handlerType, m))
  }

  /** The wrapper constructor: `_handler = DiscoverHandler(config)`. */
  function NewRequestWrapper(assemblies: seq<Assembly>, requestType: Ty, response: Ty, assignable: (Ty, Ty) -> bool): (r: Result<RequestWrapper, Error>)
    ensures r.Success? <==> DiscoverHandler(assemblies, requestType, response, assignable).Success?
    ensures r.Success? ==> r.value == RequestWrapper(requestType, response, DiscoverHandler(assemblies, requestType, response, assignable).value)
    ensures r.Failure? ==> r.error == DiscoverHandler(assemblies, requestType, response, assignable).error
  {
    match DiscoverHandler(assemblies, requestType, response, assignable)
    case Success(h) => Success(RequestWrapper(requestType, response, h))
    case Failure(e) => Failure(e)
  }

  /** The local function `delegateHandler`: the compiled handler call on the captured
      request, with the token the pipeline hands down. */
  function Terminal(w: RequestWrapper, sp: Provider, assignable: (Ty, Ty) -> bool): Delegate<Obj, Obj> {
    (ct: bool, ctx: Ctx<Obj>) =>
      var r := ForRequest(sp.behaviour, w.handler.handlerType, w.handler.handle, w.responseType, assignable, ctx.request, ct);
      Run(r.0, ctx.(log := ctx.log + r.1))
  }

  /** `GetRequiredService`'s failure when the handler type is not registered. */
  function NoServiceError(t: TypeDesc): Error {
    InvalidOperation("No service for type '" + t.fullName + "' has been registered.")
  }

  /** `Execute`: resolve the handler instance, build the pipeline from the middlewares
      resolved for this wrapper's request and response types, run it with the token. */
  function Execute(w: RequestWrapper, request: Obj, sp: Provider, assignable: (Ty, Ty) -> bool, ct: bool): (r: Run<Obj, Obj>)
    ensures !sp.resolves(w.handler.handlerType) ==> r == Run(Faulted(NoServiceError(w.handler.handlerType)), Ctx(request, []))
    ensures sp.middlewares(w.requestType, w.responseType) == [] && sp.resolves(w.handler.handlerType) ==>
              r == Terminal(w, sp, assignable)(ct, Ctx(request, []))
  {
    if !sp.resolves(w.handler.handlerType) then Run(Faulted(NoServiceError(w.handler.handlerType)), Ctx(request, []))
    else BuildPipeline(sp.middlewares(w.requestType, w.responseType), Terminal(w, sp, assignable))(ct, Ctx(request, []))
  }

  /** The overload bound by discovery receives the token exactly when the handler
      declares `Handle(request, CancellationToken)`. */
  lemma BoundOverloadReceivesToken(assemblies: seq<Assembly>, requestType: Ty, response: Ty, assignable: (Ty, Ty) -> bool, ct: bool)
    requires DiscoverHandler(assemblies, requestType, response, assignable).Success?
    ensures var h := DiscoverHandler(assemblies, requestType, response, assignable).value;
            TokenArgument(h.handle, ct) == if GetMethod(h.handlerType, "Handle", [requestType, TokenTy]).Some? then Some(ct) else None
  {
  }

  /** Once the result type has been validated, the compiled delegate (any of the four
      cases) yields a value of a type assignable to the response type or the
      handler's own failure; the casts it inserts never fail. `WellTyped` says the
      handler returns what its signature declares. */
  ghost predicate Transitive(assignable: (Ty, Ty) -> bool) {
    forall a, b, c :: assignable(a, b) && assignable(b, c) ==> assignable(a, c)
  }

  predicate WellTyped(call: CallResult, returnType: Ty, assignable: (Ty, Ty) -> bool) {
    call.Returned? && call.completion.Done? ==>
      match returnType
      case TaskTy => true
      case TaskOfTy(t) => assignable(t, call.completion.value.ty)
      case _ => assignable(returnType, call.completion.value.ty)
  }

  lemma CompiledDelegateYieldsResponse(handle: MethodDesc, call: CallResult, response: Ty, assignable: (Ty, Ty) -> bool)
    requires Transitive(assignable)
    requires assignable(response, EffectiveResultType(handle.ret))
    requires WellTyped(call, handle.ret, assignable)
    ensures var r := NormalizeToTaskOfResponse(SelectRequestCase(handle.ret, response), call, response, assignable);
            && (r.Done? ==> assignable(response, r.value.ty))
            && (r.Faulted? ==> call == Threw(r.error) || call == Returned(Faulted(r.error)))
            && (call.Returned? && call.completion.Done? ==>
                  r == Done(if handle.ret == TaskTy then UnitValue else call.completion.value))
  {
  }

  /** Without middlewares, sending to a resolved handler whose result type was
      validated gives what the handler returned (`Unit` for a plain `Task`), with the
      handler's own log. */
  lemma ExecuteYieldsHandlerValue(w: RequestWrapper, request: Obj, sp: Provider, assignable: (Ty, Ty) -> bool, ct: bool)
    requires Transitive(assignable)
    requires assignable(w.responseType, EffectiveResultType(w.handler.handle.ret))
    requires sp.resolves(w.handler.handlerType) && sp.middlewares(w.requestType, w.responseType) == []
    requires var call := sp.behaviour(w.handler.handlerType, w.handler.handle, request, TokenArgument(w.handler.handle, ct));
             call.result.Returned? && call.result.completion.Done? && WellTyped(call.result, w.handler.handle.ret, assignable)
    ensures var call := sp.behaviour(w.handler.handlerType, w.handler.handle, request, TokenArgument(w.handler.handle, ct));
            Execute(w, request, sp, assignable, ct)
            == Run(Done(if w.handler.handle.ret == TaskTy then UnitValue else call.result.completion.value), Ctx(request, call.trace))
  {
    var call := sp.behaviour(w.handler.handlerType, w.handler.handle, request, TokenArgument(w.handler.handle, ct));
    CompiledDelegateYieldsResponse(w.handler.handle, call.result, w.responseType, assignable);
  }

  /** With transparent middlewares only, the handler is called once, on the request as
      the middlewares mutated it and with the pipeline's token when it takes one; the
      log shows the pre-call entries, the handler's, then the post-call entries
      reversed. */
  lemma ExecuteTransparent(w: RequestWrapper, request: Obj, sp: Provider, assignable: (Ty, Ty) -> bool, ct: bool)
    requires sp.resolves(w.handler.handlerType)
    requires var ms := sp.middlewares(w.requestType, w.responseType);
             forall i :: 0 <= i < |ms| ==> Transparent(ms[i], ct)
    ensures var ms := sp.middlewares(w.requestType, w.responseType);
            var seen := MutateAll(ms, request);
            var call := sp.behaviour(w.handler.handlerType, w.handler.handle, seen, TokenArgument(w.handler.handle, ct));
            var outcome := NormalizeToTaskOfResponse(SelectRequestCase(w.handler.handle.ret, w.responseType), call.result, w.responseType, assignable);
            Execute(w, request, sp, assignable, ct)
            == Run(outcome, Ctx(seen, Befores(ms) + call.trace + (if outcome.Faulted? then [] else Reverse(AfterTags(ms)))))
  {
    var ms := sp.middlewares(w.requestType, w.responseType);
    TransparentRun(ms, Terminal(w, sp, assignable), ct, Ctx(request, []));
    assert [] + Befores(ms) == Befores(ms);
  }
}
