/** `HandlerCompiler`: adapts a handler's `Handle` method, whatever its parameter
    list and return shape, to the one calling convention the dispatcher uses. The
    compiled delegate is modelled by the case chosen at bind time and the function
    that applies that case to the outcome of the call. */
module HandlerCompiler {
  import opened Types

  /** The token argument the compiled call passes: the token when the method takes
      two parameters, nothing otherwise (`BuildMethodCall`). */
  function TokenArgument(handle: MethodDesc, ct: bool): (r: Option<bool>)
    ensures r.Some? <==> |handle.params| == 2
    ensures r.Some? ==> r.value == ct
  {
    if |handle.params| == 2 then Some(ct) else None
  }

  /** `BuildMethodCall`: invoke `Handle` on the handler instance with the argument,
      and with the token only when the method declares it. `behaviour` stands for
      the body of the handler's method. */
  function BuildMethodCall(
    behaviour: (TypeDesc, MethodDesc, Obj, Option<bool>) -> HandlerCall,
    handlerType: TypeDesc, handle: MethodDesc, arg: Obj, ct: bool): HandlerCall
  {
    behaviour(handlerType, handle, arg, TokenArgument(handle, ct))
  }

  /** The four adaptations of `NormalizeToTaskOfResponse`. */
  datatype RequestCase =
    | Passthrough          // returns Task<TResponse>: the call itself
    | AwaitUnit            // returns Task: await it, then Unit
    | AwaitCast(inner: Ty) // returns Task<T>, T != TResponse: await it, then cast
    | SyncConvert          // anything else: convert the value, wrap it in a completed task

  /** The case selection of `NormalizeToTaskOfResponse`, tested in source order. */
  function SelectRequestCase(returnType: Ty, response: Ty): (c: RequestCase)
    ensures c == Passthrough <==> returnType == TaskOfTy(response)
    ensures c == AwaitUnit <==> returnType == TaskTy
    ensures c.AwaitCast? <==> returnType.TaskOfTy? && returnType.result != response
    ensures c.AwaitCast? ==> c.inner == returnType.result
    ensures c == SyncConvert <==> !returnType.TaskTy? && !returnType.TaskOfTy?
  {
    if returnType == TaskOfTy(response) then Passthrough
    else if returnType == TaskTy then AwaitUnit
    else if returnType.TaskOfTy? then AwaitCast(returnType.result)
    else SyncConvert
  }

  /** `AwaitAndReturnUnit`: await the task, then `(TResponse)(object)Unit.Value`. */
  function AwaitAndReturnUnit(task: Completion<Obj>, response: Ty, assignable: (Ty, Ty) -> bool): (r: Completion<Obj>)
    ensures task.Faulted? ==> r == task
    ensures task.Done? && assignable(response, UnitTy) ==> r == Done(UnitValue)
    ensures task.Done? && !assignable(response, UnitTy) ==> r == Faulted(InvalidCast(UnitTy, response))
  {
    if task.Faulted? then task else Cast(UnitValue, response, assignable)
  }

  /** `AwaitAndCast`: await the task, then `(TResponse)(object)result`. */
  function AwaitAndCast(task: Completion<Obj>, response: Ty, assignable: (Ty, Ty) -> bool): (r: Completion<Obj>)
    ensures task.Faulted? ==> r == task
    ensures task.Done? && assignable(response, task.value.ty) ==> r == task
    ensures task.Done? && !assignable(response, task.value.ty) ==> r == Faulted(InvalidCast(task.value.ty, response))
  {
    if task.Faulted? then task else Cast(task.value, response, assignable)
  }

  /** What awaiting the compiled request delegate gives. A synchronous throw from the
      call surfaces when the delegate is awaited, like a faulted task. A completed
      `Task` gives `Unit`; any other completed value is handed on unchanged when it
      is a `TResponse`, and fails the cast otherwise. */
  function NormalizeToTaskOfResponse(c: RequestCase, call: CallResult, response: Ty, assignable: (Ty, Ty) -> bool): (r: Completion<Obj>)
    ensures call.Threw? ==> r == Faulted(call.error)
    ensures call.Returned? && call.completion.Faulted? ==> r == call.completion
    ensures c == Passthrough && call.Returned? ==> r == call.completion
    ensures c == AwaitUnit && call.Returned? && call.completion.Done? ==>
              && (r.Done? <==> assignable(response, UnitTy))
              && (r.Done? ==> r.value == UnitValue)
              && (r.Faulted? ==> r.error == InvalidCast(UnitTy, response))
    ensures (c.AwaitCast? || c == SyncConvert) && call.Returned? && call.completion.Done? ==>
              && (r.Done? <==> assignable(response, call.completion.value.ty))
              && (r.Done? ==> r.value == call.completion.value)
              && (r.Faulted? ==> r.error == InvalidCast(call.completion.value.ty, response))
  {
    match call
    case Threw(e) => Faulted(e)
    case Returned(task) =>
      match c
      case Passthrough => task
      case AwaitUnit => AwaitAndReturnUnit(task, response, assignable)
      case AwaitCast(_) => AwaitAndCast(task, response, assignable)
      case SyncConvert =>
        // Task.FromResult((TResponse)call)
        if task.Faulted? then task else Cast(task.value, response, assignable)
  }

  /** `typeof(Task).IsAssignableFrom(returnType)` */
  predicate IsTaskType(t: Ty) {
    t == TaskTy || t.TaskOfTy?
  }

  /** `NormalizeToNullableTask`: a task-returning event handler gives its task; any
      other is run for its effect and gives null. A synchronous throw is not caught:
      it escapes the compiled delegate (`Failure`). */
  function NormalizeToNullableTask(returnType: Ty, call: CallResult): (r: Result<Option<Completion<Obj>>, Error>)
    ensures call.Threw? <==> r.Failure?
    ensures r.Failure? ==> r.error == call.error
    ensures r.Success? ==> (r.value.Some? <==> IsTaskType(returnType))
    ensures r.Success? && r.value.Some? ==> r.value.value == call.completion
  {
    match call
    case Threw(e) => Failure(e)
    case Returned(task) => if IsTaskType(returnType) then Success(Some(task)) else Success(None)
  }

  /** `ForRequest`: the compiled request delegate applied to one call. */
  function ForRequest(
    behaviour: (TypeDesc, MethodDesc, Obj, Option<bool>) -> HandlerCall,
    handlerType: TypeDesc, handle: MethodDesc, response: Ty, assignable: (Ty, Ty) -> bool,
    request: Obj, ct: bool): (r: (Completion<Obj>, seq<string>))
    ensures var call := behaviour(handlerType, handle, request, TokenArgument(handle, ct));
            && r.1 == call.trace
            && (call.result.Threw? ==> r.0 == Faulted(call.result.error))
            && (call.result.Returned? && call.result.completion.Faulted? ==> r.0 == call.result.completion)
            && (handle.ret == TaskOfTy(response) && call.result.Returned? ==> r.0 == call.result.completion)
            && (handle.ret != TaskTy && call.result.Returned? && call.result.completion.Done? && assignable(response, call.result.completion.value.ty)
                ==> r.0 == call.result.completion)
            && (handle.ret == TaskTy && call.result.Returned? && call.result.completion.Done? && assignable(response, UnitTy)
                ==> r.0 == Done(UnitValue))
  {
    var call := BuildMethodCall(behaviour, handlerType, handle, request, ct);
    (NormalizeToTaskOfResponse(SelectRequestCase(handle.ret, response), call.result, response, assignable), call.trace)
  }

  /** `ForEvent`: the compiled event delegate applied to one call. */
  function ForEvent(
    behaviour: (TypeDesc, MethodDesc, Obj, Option<bool>) -> HandlerCall,
    handlerType: TypeDesc, handle: MethodDesc, event: Obj, ct: bool): (r: (Result<Option<Completion<Obj>>, Error>, seq<string>))
    ensures var call := behaviour(handlerType, handle, event, TokenArgument(handle, ct));
            && r.1 == call.trace
            && (r.0.Failure? <==> call.result.Threw?)
            && (r.0.Failure? ==> r.0.error == call.result.error)
            && (r.0.Success? ==> (r.0.value.Some? <==> IsTaskType(handle.ret)))
            && (r.0.Success? && r.0.value.Some? ==> r.0.value.value == call.result.completion)
  {
    var call := BuildMethodCall(behaviour, handlerType, handle, event, ct);
    (NormalizeToNullableTask(handle.ret, call.result), call.trace)
  }
}
