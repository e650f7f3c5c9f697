/** `EventPublisherWrapperImpl<TEvent>`: finds every handler of an event type once,
    at construction, and on each `Publish` invokes the ones the provider resolves,
    collecting the tasks they return. */
module EventPublisherWrapper {
  import opened Types
  import opened HandlerCompiler
  import opened Services
  import opened RequestHandlerWrapper

  /** `EventHandlerMetadata` */
  datatype EventHandlerMetadata = EventHandlerMetadata(handlerType: TypeDesc, handle: MethodDesc)

  /** One wrapper instance: its event type and the `_handlers` list fixed at construction. */
  datatype EventPublisher = EventPublisher(eventType: Ty, handlers: seq<EventHandlerMetadata>)

  /** The `Where(t => !t.IsAbstract && !t.IsInterface)` filter. */
  predicate IsConcrete(t: TypeDesc) {
    !t.isAbstract && !t.isInterface
  }

  /** The entry one scanned type contributes: any concrete type with a matching
      `Handle` overload, whatever its name. */
  function TypeEntry(t: TypeDesc, eventType: Ty): seq<EventHandlerMetadata> {
    if IsConcrete(t) && FindHandleMethod(t, eventType).Some? then [EventHandlerMetadata(t, FindHandleMethod(t, eventType).value)]
    else []
  }

  /** The entries of the scanned types, in type order. */
  function ScanTypes(ts: seq<TypeDesc>, eventType: Ty): seq<EventHandlerMetadata> {
    if ts == [] then [] else ScanTypes(ts[..|ts| - 1], eventType) + TypeEntry(ts[|ts| - 1], eventType)
  }

  /** The entries of the scanned assemblies, assembly by assembly. */
  function ScanAssemblies(assemblies: seq<Assembly>, eventType: Ty): seq<EventHandlerMetadata> {
    if assemblies == [] then []
    else ScanAssemblies(assemblies[..|assemblies| - 1], eventType) + ScanTypes(assemblies[|assemblies| - 1].types, eventType)
  }

  lemma ScanTypesStep(ts: seq<TypeDesc>, j: nat, eventType: Ty)
    requires j < |ts|
    ensures ScanTypes(ts[..j + 1], eventType) == ScanTypes(ts[..j], eventType) + TypeEntry(ts[j], eventType)
  {
    assert ts[..j + 1][..j] == ts[..j];
  }

  lemma ScanAssembliesStep(assemblies: seq<Assembly>, i: nat, eventType: Ty)
    requires i < |assemblies|
    ensures ScanAssemblies(assemblies[..i + 1], eventType) == ScanAssemblies(assemblies[..i], eventType) + ScanTypes(assemblies[i].types, eventType)
  {
    assert assemblies[..i + 1][..i] == assemblies[..i];
  }

  /** The inner loop of `DiscoverHandlers`: the entries of one assembly's types. */
  method DiscoverInAssembly(types: seq<TypeDesc>, eventType: Ty) returns (entries: seq<EventHandlerMetadata>)
    ensures entries == ScanTypes(types, eventType)
  {
    entries := [];
    for j := 0 to |types|
      invariant entries == ScanTypes(types[..j], eventType)
    {
      ScanTypesStep(types, j, eventType);
      var t := types[j];
      if !t.isAbstract && !t.isInterface {
        var handle := FindHandleMethod(t, eventType);
        if handle.Some? {
          entries := entries + [EventHandlerMetadata(t, handle.value)];
        }
      }
    }
    assert types[..|types|] == types;
  }

  /** `DiscoverHandlers`: the scan over the assemblies, in order. */
  method DiscoverHandlers(assemblies: seq<Assembly>, eventType: Ty) returns (handlers: seq<EventHandlerMetadata>)
    ensures handlers == ScanAssemblies(assemblies, eventType)
  {
    handlers := [];
    for i := 0 to |assemblies|
      invariant handlers == ScanAssemblies(assemblies[..i], eventType)
    {
      ScanAssembliesStep(assemblies, i, eventType);
      var entries := DiscoverInAssembly(assemblies[i].types, eventType);
      handlers := handlers + entries;
    }
    assert assemblies[..|assemblies|] == assemblies;
  }

  /** A type's entry, when it has one. */
  predicate Qualifies(t: TypeDesc, eventType: Ty, handle: MethodDesc) {
    IsConcrete(t) && FindHandleMethod(t, eventType) == Some(handle)
  }

  lemma {:induction false} ScanTypesMembers(ts: seq<TypeDesc>, eventType: Ty, e: EventHandlerMetadata)
    ensures e in ScanTypes(ts, eventType) <==> e.handlerType in ts && Qualifies(e.handlerType, eventType, e.handle)
  {
    if ts != [] {
      var init := ts[..|ts| - 1];
      ScanTypesMembers(init, eventType, e);
      assert ts == init + [ts[|ts| - 1]];
    }
  }

  /** The type is declared by one of the assemblies. */
  predicate InAssemblies(assemblies: seq<Assembly>, t: TypeDesc) {
    exists i :: 0 <= i < |assemblies| && t in assemblies[i].types
  }

  lemma InAssembliesSnoc(assemblies: seq<Assembly>, t: TypeDesc)
    requires assemblies != []
    ensures InAssemblies(assemblies, t)
            <==> InAssemblies(assemblies[..|assemblies| - 1], t) || t in assemblies[|assemblies| - 1].types
  {
    var init := assemblies[..|assemblies| - 1];
    if InAssemblies(assemblies, t) {
      var i :| 0 <= i < |assemblies| && t in assemblies[i].types;
      if i < |init| {
        assert init[i] == assemblies[i];
      }
    }
    if InAssemblies(init, t) {
      var i :| 0 <= i < |init| && t in init[i].types;
      assert assemblies[i] == init[i];
    }
  }

  /** The bound handlers are exactly the concrete types of the registered assemblies
      that have a matching `Handle`, each with its preferred overload; there is no
      naming rule. */
  lemma {:induction false} DiscoveredHandlersExactly(assemblies: seq<Assembly>, eventType: Ty, e: EventHandlerMetadata)
    ensures e in ScanAssemblies(assemblies, eventType)
        <==> InAssemblies(assemblies, e.handlerType) && Qualifies(e.handlerType, eventType, e.handle)
  {
    if assemblies != [] {
      DiscoveredHandlersExactly(assemblies[..|assemblies| - 1], eventType, e);
      ScanTypesMembers(assemblies[|assemblies| - 1].types, eventType, e);
      InAssembliesSnoc(assemblies, e.handlerType);
    }
  }

  /** The state of `Publish`'s loop: handler types invoked, tasks collected, the log
      the invoked handlers appended to, and the exception a handler threw
      synchronously, which ends the loop. */
  datatype PublishState = PublishState(invoked: seq<TypeDesc>, tasks: seq<Completion<Obj>>, log: seq<string>, thrown: Option<Error>)

  /** What a handler's compiled delegate hands back to the loop when the provider
      resolves it: a task, null, or a synchronous exception. */
  function HandlerReturn(h: EventHandlerMetadata, event: Obj, sp: Provider, ct: bool): Result<Option<Completion<Obj>>, Error> {
    ForEvent(sp.behaviour, h.handlerType, h.handle, event, ct).0
  }

  /** The handler is resolved and throws synchronously. */
  predicate ThrowsSync(h: EventHandlerMetadata, event: Obj, sp: Provider, ct: bool) {
    sp.resolves(h.handlerType) && HandlerReturn(h, event, sp, ct).Failure?
  }

  /** The task a handler contributes: its returned task when it is resolved and returns
      one; nothing when it is unresolved, returns null or throws. */
  function TaskOf(h: EventHandlerMetadata, event: Obj, sp: Provider, ct: bool): Option<Completion<Obj>> {
    if sp.resolves(h.handlerType) && HandlerReturn(h, event, sp, ct).Success? then HandlerReturn(h, event, sp, ct).value
    else None
  }

  /** The non-null tasks of the handlers, in list order. */
  function ReturnedTasks(hs: seq<EventHandlerMetadata>, event: Obj, sp: Provider, ct: bool): seq<Completion<Obj>> {
    if hs == [] then []
    else
      var t := TaskOf(hs[|hs| - 1], event, sp, ct);
      ReturnedTasks(hs[..|hs| - 1], event, sp, ct) + (if t.Some? then [t.value] else [])
  }

  /** A task is among the returned tasks exactly when some handler returned it. */
  lemma {:induction false} ReturnedTasksMembers(hs: seq<EventHandlerMetadata>, event: Obj, sp: Provider, ct: bool, t: Completion<Obj>)
    ensures t in ReturnedTasks(hs, event, sp, ct) <==> exists i :: 0 <= i < |hs| && TaskOf(hs[i], event, sp, ct) == Some(t)
  {
    if hs != [] {
      var init := hs[..|hs| - 1];
      ReturnedTasksMembers(init, event, sp, ct, t);
      if exists i :: 0 <= i < |hs| && TaskOf(hs[i], event, sp, ct) == Some(t) {
        var i :| 0 <= i < |hs| && TaskOf(hs[i], event, sp, ct) == Some(t);
        if i < |hs| - 1 {
          assert init[i] == hs[i];
        }
      }
      if exists i :: 0 <= i < |init| && TaskOf(init[i], event, sp, ct) == Some(t) {
        var i :| 0 <= i < |init| && TaskOf(init[i], event, sp, ct) == Some(t);
        assert hs[i] == init[i];
      }
    }
  }

  /** One iteration of `Publish`'s loop. Once a handler has thrown, or for a handler
      the provider does not resolve, nothing happens; otherwise the handler is invoked,
      and its task, if it returned one, is collected. */
  function PublishStep(st: PublishState, h: EventHandlerMetadata, event: Obj, sp: Provider, ct: bool): (r: PublishState)
    ensures st.thrown.Some? || !sp.resolves(h.handlerType) ==> r == st
    ensures st.thrown.None? && sp.resolves(h.handlerType) ==>
              && r.invoked == st.invoked + [h.handlerType]
              && (r.thrown.Some? <==> ThrowsSync(h, event, sp, ct))
              && r.tasks == st.tasks + (if TaskOf(h, event, sp, ct).Some? then [TaskOf(h, event, sp, ct).value] else [])
  {
    if st.thrown.Some? || !sp.resolves(h.handlerType) then st
    else
      var r := ForEvent(sp.behaviour, h.handlerType, h.handle, event, ct);
      var st' := st.(invoked := st.invoked + [h.handlerType], log := st.log + r.1);
      match r.0
      case Failure(e) => st'.(thrown := Some(e))
      case Success(None) => st'
      case Success(Some(task)) => st'.(tasks := st'.tasks + [task])
  }

  /** The handler types the provider resolves, in list order. */
  function ResolvedTypes(hs: seq<EventHandlerMetadata>, sp: Provider): seq<TypeDesc> {
    if hs == [] then []
    else ResolvedTypes(hs[..|hs| - 1], sp) + (if sp.resolves(hs[|hs| - 1].handlerType) then [hs[|hs| - 1].handlerType] else [])
  }

  /** No handler of the list throws synchronously. */
  predicate NoSyncThrow(hs: seq<EventHandlerMetadata>, event: Obj, sp: Provider, ct: bool) {
    forall i :: 0 <= i < |hs| ==> !ThrowsSync(hs[i], event, sp, ct)
  }

  /** The loop over a handler list. Unresolved handlers are skipped; each resolved one
      is invoked once, in list order (all of them unless one throws synchronously);
      without a throw the collected tasks are exactly the handlers' non-null tasks,
      in list order. */
  function Collect(hs: seq<EventHandlerMetadata>, event: Obj, sp: Provider, ct: bool): (st: PublishState)
    ensures |st.tasks| <= |st.invoked| <= |hs|
    ensures st.invoked <= ResolvedTypes(hs, sp)
    ensures st.thrown.None? ==> st.invoked == ResolvedTypes(hs, sp)
    ensures st.thrown.None? ==> st.tasks == ReturnedTasks(hs, event, sp, ct)
  {
    if hs == [] then PublishState([], [], [], None)
    else PublishStep(Collect(hs[..|hs| - 1], event, sp, ct), hs[|hs| - 1], event, sp, ct)
  }

  /** The loop ends early exactly when some handler throws synchronously, and then
      with the exception of the first handler that does. */
  lemma {:induction false} CollectThrows(hs: seq<EventHandlerMetadata>, event: Obj, sp: Provider, ct: bool)
    ensures Collect(hs, event, sp, ct).thrown.None? <==> NoSyncThrow(hs, event, sp, ct)
    ensures Collect(hs, event, sp, ct).thrown.Some? ==> FirstThrow(hs, event, sp, ct, Collect(hs, event, sp, ct).thrown.value)
  {
    if hs != [] {
      var init := hs[..|hs| - 1];
      var last := hs[|hs| - 1];
      CollectThrows(init, event, sp, ct);
      var prev := Collect(init, event, sp, ct);
      var st := Collect(hs, event, sp, ct);
      assert st == PublishStep(prev, last, event, sp, ct);
      if NoSyncThrow(init, event, sp, ct) && !ThrowsSync(last, event, sp, ct) {
        forall i | 0 <= i < |hs| ensures !ThrowsSync(hs[i], event, sp, ct) {
          if i < |init| {
            assert hs[i] == init[i];
          }
        }
      }
      if NoSyncThrow(hs, event, sp, ct) {
        forall i | 0 <= i < |init| ensures !ThrowsSync(init[i], event, sp, ct) {
          assert init[i] == hs[i];
        }
        assert !ThrowsSync(hs[|hs| - 1], event, sp, ct);
      }
      if prev.thrown.Some? {
        var i :| 0 <= i < |init| && ThrowsSync(init[i], event, sp, ct) && HandlerReturn(init[i], event, sp, ct).error == prev.thrown.value
                 && forall j :: 0 <= j < i ==> !ThrowsSync(init[j], event, sp, ct);
        assert hs[i] == init[i];
        assert forall j :: 0 <= j < i ==> hs[j] == init[j];
      } else if st.thrown.Some? {
        var i := |hs| - 1;
        assert forall j :: 0 <= j < i ==> hs[j] == init[j];
      }
    }
  }

  /** `e` is the synchronous exception of the first handler that throws one. */
  predicate FirstThrow(hs: seq<EventHandlerMetadata>, event: Obj, sp: Provider, ct: bool, e: Error) {
    exists i :: 0 <= i < |hs| && ThrowsSync(hs[i], event, sp, ct) && HandlerReturn(hs[i], event, sp, ct).error == e
                && forall j :: 0 <= j < i ==> !ThrowsSync(hs[j], event, sp, ct)
  }

  /** The state after handler `i`, given that no earlier handler threw. */
  lemma CollectStep(hs: seq<EventHandlerMetadata>, i: nat, event: Obj, sp: Provider, ct: bool)
    requires i < |hs| && Collect(hs[..i], event, sp, ct).thrown.None?
    ensures var st := Collect(hs[..i], event, sp, ct);
            var r := ForEvent(sp.behaviour, hs[i].handlerType, hs[i].handle, event, ct);
            Collect(hs[..i + 1], event, sp, ct)
            == if !sp.resolves(hs[i].handlerType) then st
               else if r.0.Failure? then PublishState(st.invoked + [hs[i].handlerType], st.tasks, st.log + r.1, Some(r.0.error))
               else PublishState(st.invoked + [hs[i].handlerType], st.tasks + (if r.0.value.Some? then [r.0.value.value] else []), st.log + r.1, None)
  {
    assert hs[..i + 1][..i] == hs[..i];
  }

  /** After a synchronous throw nothing further runs. */
  lemma {:induction false} ThrownIsFinal(hs: seq<EventHandlerMetadata>, i: nat, event: Obj, sp: Provider, ct: bool)
    requires i <= |hs| && Collect(hs[..i], event, sp, ct).thrown.Some?
    ensures Collect(hs, event, sp, ct) == Collect(hs[..i], event, sp, ct)
    decreases |hs| - i
  {
    if i < |hs| {
      assert hs[..i + 1][..i] == hs[..i];
      ThrownIsFinal(hs, i + 1, event, sp, ct);
    } else {
      assert hs[..i] == hs;
    }
  }

  /** `Task.WhenAll` awaited: faults with the first faulted task's exception, else completes. */
  function WhenAll(tasks: seq<Completion<Obj>>): (r: Completion<()>)
    ensures r.Faulted? <==> exists i :: 0 <= i < |tasks| && tasks[i].Faulted?
    ensures r.Faulted? ==> exists i :: 0 <= i < |tasks| && tasks[i] == Faulted(r.error)
                                      && forall j :: 0 <= j < i ==> tasks[j].Done?
  {
    if tasks == [] then Done(())
    else if tasks[0].Faulted? then Faulted(tasks[0].error)
    else
      var r := WhenAll(tasks[1..]);
      assert (exists i :: 0 <= i < |tasks| && tasks[i].Faulted?) ==> exists i :: 0 <= i < |tasks| - 1 && tasks[1..][i].Faulted? by {
        if exists i :: 0 <= i < |tasks| && tasks[i].Faulted? {
          var i :| 0 <= i < |tasks| && tasks[i].Faulted?;
          assert tasks[1..][i - 1] == tasks[i];
        }
      }
      assert r.Faulted? ==> exists i :: 0 <= i < |tasks| && tasks[i] == Faulted(r.error)
                                       && forall j :: 0 <= j < i ==> tasks[j].Done? by {
        if r.Faulted? {
          var i :| 0 <= i < |tasks| - 1 && tasks[1..][i] == Faulted(r.error) && forall j :: 0 <= j < i ==> tasks[1..][j].Done?;
          assert forall j :: 1 <= j < i + 1 ==> tasks[j] == tasks[1..][j - 1];
        }
      }
      r
  }

  /** What one `Publish` call does: who was invoked, which tasks were collected, the
      log, whether anything was awaited, and how the returned task settles. */
  datatype PublishRun = PublishRun(invoked: seq<TypeDesc>, tasks: seq<Completion<Obj>>, log: seq<string>, awaited: bool, outcome: Completion<()>)

  function PublishSpec(p: EventPublisher, event: Obj, sp: Provider, ct: bool): (r: PublishRun)
    ensures |r.tasks| <= |r.invoked| <= |p.handlers|
    ensures r.awaited <==> Collect(p.handlers, event, sp, ct).thrown.None? && |r.tasks| > 0
    ensures !r.awaited && r.outcome.Faulted? ==> Collect(p.handlers, event, sp, ct).thrown == Some(r.outcome.error)
    ensures Collect(p.handlers, event, sp, ct).thrown.None? ==>
              && r.invoked == ResolvedTypes(p.handlers, sp)
              && r.tasks == ReturnedTasks(p.handlers, event, sp, ct)
              && (r.outcome.Faulted? <==> exists i :: 0 <= i < |r.tasks| && r.tasks[i].Faulted?)
  {
    var st := Collect(p.handlers, event, sp, ct);
    if st.thrown.Some? then PublishRun(st.invoked, st.tasks, st.log, false, Faulted(st.thrown.value))
    else if |st.tasks| > 0 then PublishRun(st.invoked, st.tasks, st.log, true, WhenAll(st.tasks))
    else PublishRun(st.invoked, st.tasks, st.log, false, Done(()))
  }

  /** A synchronous throw from a resolved handler faults the returned task with the
      first such exception, and nothing is awaited. */
  lemma PublishSyncThrowFaults(p: EventPublisher, event: Obj, sp: Provider, ct: bool)
    requires !NoSyncThrow(p.handlers, event, sp, ct)
    ensures !PublishSpec(p, event, sp, ct).awaited
    ensures PublishSpec(p, event, sp, ct).outcome.Faulted?
    ensures FirstThrow(p.handlers, event, sp, ct, PublishSpec(p, event, sp, ct).outcome.error)
  {
    CollectThrows(p.handlers, event, sp, ct);
  }

  /** Without synchronous throws, the returned task faults exactly when the task some
      handler returned faults. */
  lemma PublishFaultsIffHandlerTaskFaults(p: EventPublisher, event: Obj, sp: Provider, ct: bool)
    requires NoSyncThrow(p.handlers, event, sp, ct)
    ensures PublishSpec(p, event, sp, ct).outcome.Faulted? <==>
              exists i :: 0 <= i < |p.handlers| && TaskOf(p.handlers[i], event, sp, ct).Some? && TaskOf(p.handlers[i], event, sp, ct).value.Faulted?
  {
    CollectThrows(p.handlers, event, sp, ct);
    var hs := p.handlers;
    var tasks := ReturnedTasks(hs, event, sp, ct);
    if PublishSpec(p, event, sp, ct).outcome.Faulted? {
      var k :| 0 <= k < |tasks| && tasks[k].Faulted?;
      ReturnedTasksMembers(hs, event, sp, ct, tasks[k]);
    }
    if exists i :: 0 <= i < |hs| && TaskOf(hs[i], event, sp, ct).Some? && TaskOf(hs[i], event, sp, ct).value.Faulted? {
      var i :| 0 <= i < |hs| && TaskOf(hs[i], event, sp, ct).Some? && TaskOf(hs[i], event, sp, ct).value.Faulted?;
      ReturnedTasksMembers(hs, event, sp, ct, TaskOf(hs[i], event, sp, ct).value);
    }
  }

  /** Handlers that all return null (void handlers) contribute no task. */
  lemma {:induction false} VoidHandlersReturnNoTask(hs: seq<EventHandlerMetadata>, event: Obj, sp: Provider, ct: bool)
    requires forall i :: 0 <= i < |hs| && sp.resolves(hs[i].handlerType) ==> HandlerReturn(hs[i], event, sp, ct) == Success(None)
    ensures ReturnedTasks(hs, event, sp, ct) == []
  {
    if hs != [] {
      var init := hs[..|hs| - 1];
      assert forall i :: 0 <= i < |init| ==> init[i] == hs[i];
      VoidHandlersReturnNoTask(init, event, sp, ct);
    }
  }

  /** When every resolved handler is a void handler, each is invoked, nothing is
      awaited and the returned task completes. */
  lemma PublishOfVoidHandlersCompletes(p: EventPublisher, event: Obj, sp: Provider, ct: bool)
    requires forall i :: 0 <= i < |p.handlers| && sp.resolves(p.handlers[i].handlerType) ==> HandlerReturn(p.handlers[i], event, sp, ct) == Success(None)
    ensures PublishSpec(p, event, sp, ct) == PublishRun(ResolvedTypes(p.handlers, sp), [], Collect(p.handlers, event, sp, ct).log, false, Done(()))
  {
    VoidHandlersReturnNoTask(p.handlers, event, sp, ct);
    CollectThrows(p.handlers, event, sp, ct);
  }

  /** `Publish`: the loop, then `Task.WhenAll` when something was collected. */
  method Publish(p: EventPublisher, event: Obj, sp: Provider, ct: bool) returns (run: PublishRun)
    ensures run == PublishSpec(p, event, sp, ct)
  {
    var hs := p.handlers;
    var invoked: seq<TypeDesc> := [];
    var tasks: seq<Completion<Obj>> := [];
    var log: seq<string> := [];
    for i := 0 to |hs|
      invariant Collect(hs[..i], event, sp, ct) == PublishState(invoked, tasks, log, None)
    {
      CollectStep(hs, i, event, sp, ct);
      var h := hs[i];
      if !sp.resolves(h.handlerType) {
        continue;
      }
      var r := ForEvent(sp.behaviour, h.handlerType, h.handle, event, ct);
      invoked, log := invoked + [h.handlerType], log + r.1;
      if r.0.Failure? {
        ThrownIsFinal(hs, i + 1, event, sp, ct);
        run := PublishRun(invoked, tasks, log, false, Faulted(r.0.error));
        return;
      }
      if r.0.value.Some? {
        tasks := tasks + [r.0.value.value];
      }
    }
    assert hs[..|hs|] == hs;
    if |tasks| > 0 {
      run := PublishRun(invoked, tasks, log, true, WhenAll(tasks));
    } else {
      run := PublishRun(invoked, tasks, log, false, Done(()));
    }
  }
}
