/** The service provider the dispatcher resolves handler and middleware instances
    from. Its construction, lifetimes and open-generic closing belong to the
    dependency-injection container and are not modelled; only what the core
    observes of it is. */
module Services {
  import opened Types
  import opened Pipeline

  datatype Provider = Provider(
    // `GetService(handlerType) != null`
    resolves: TypeDesc -> bool,
    // `GetServices<IPipelineMiddleware<TRequest, TResponse>>()`, in resolution order
    middlewares: (Ty, Ty) -> seq<Middleware<Obj, Obj>>,
    // what `Handle` does on a resolved instance of the handler type, given the
    // argument and (when the overload takes one) the cancellation token
    behaviour: (TypeDesc, MethodDesc, Obj, Option<bool>) -> HandlerCall)
}
