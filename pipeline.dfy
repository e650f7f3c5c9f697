/** The middleware pipeline of `RequestHandlerWrapperImpl.BuildPipeline`: the
    resolved middlewares are folded, in reverse, around the terminal handler call, so
    that the first one resolved ends up outermost. */
module Pipeline {
  import opened Types

  /** The state shared by every step of one dispatch: the captured request object
      (middlewares may mutate it in place) and the log the steps append to. */
  datatype Ctx<R> = Ctx(request: R, log: seq<string>)

  /** The settled task a step returns, and the shared state after it. */
  datatype Run<R, V> = Run(outcome: Completion<V>, ctx: Ctx<R>)

  /** `RequestHandlerDelegate<TResponse>`: called with the cancellation flag; the
      request it acts on is the shared, captured one. */
  type Delegate<!R, V> = (bool, Ctx<R>) -> Run<R, V>

  /** The behaviours an `IPipelineMiddleware.Handle` can have. */
  datatype Middleware<!R, V> =
    | Trace(before: string, after: string)  // log, await next, log again (skipped when next faults)
    | ShortCircuit(value: V)                 // return a value without calling next
    | Mutate(update: R -> R)                 // change the request in place, then call next
    | Recover(fallback: V)                   // call next; if it faults, return the fallback
    | CancelGuard(fallback: V)               // if cancellation is requested return the fallback, else call next

  /** `middleware.Handle(request, next, ct)` */
  function Handle<R, V>(m: Middleware<R, V>, next: Delegate<R, V>, ct: bool, ctx: Ctx<R>): Run<R, V> {
    match m
    case Trace(before, after) =>
      var r := next(ct, ctx.(log := ctx.log + [before]));
      if r.outcome.Faulted? then r else r.(ctx := r.ctx.(log := r.ctx.log + [after]))
    case ShortCircuit(v) => Run(Done(v), ctx)
    case Mutate(update) => next(ct, ctx.(request := update(ctx.request)))
    case Recover(fallback) =>
      var r := next(ct, ctx);
      if r.outcome.Faulted? then Run(Done(fallback), r.ctx) else r
    case CancelGuard(fallback) =>
      if ct then Run(Done(fallback), ctx) else next(ct, ctx)
  }

  /** The lambda `(next, middleware) => ct => middleware.Handle(request, next, ct)`. */
  function Wrap<R, V>(next: Delegate<R, V>, m: Middleware<R, V>): Delegate<R, V> {
    (ct: bool, ctx: Ctx<R>) => Handle(m, next, ct, ctx)
  }

  /** `Enumerable.Reverse` */
  function Reverse<T>(s: seq<T>): (r: seq<T>)
    ensures |r| == |s|
  {
    if s == [] then [] else Reverse(s[1..]) + [s[0]]
  }

  /** `Enumerable.Aggregate(seed, Wrap)`: a left fold. */
  function Aggregate<R, V>(ms: seq<Middleware<R, V>>, seed: Delegate<R, V>): Delegate<R, V>
    decreases |ms|
  {
    if ms == [] then seed else Aggregate(ms[1..], Wrap(seed, ms[0]))
  }

  /** `BuildPipeline`: the fold over the reversed middleware list, seeded with the
      terminal handler call. */
  function BuildPipeline<R, V>(ms: seq<Middleware<R, V>>, terminal: Delegate<R, V>): (p: Delegate<R, V>)
    ensures ms == [] ==> p == terminal
  {
    Aggregate(Reverse(ms), terminal)
  }

  /** Reference composition M1(M2(..Mn(terminal))): the first middleware outermost. */
  function Nest<R, V>(ms: seq<Middleware<R, V>>, terminal: Delegate<R, V>): Delegate<R, V>
    decreases |ms|
  {
    if ms == [] then terminal else Wrap(Nest(ms[1..], terminal), ms[0])
  }

  lemma {:induction false} AggregateSnoc<R, V>(ms: seq<Middleware<R, V>>, m: Middleware<R, V>, seed: Delegate<R, V>)
    ensures Aggregate(ms + [m], seed) == Wrap(Aggregate(ms, seed), m)
    decreases |ms|
  {
    if ms == [] {
      assert (ms + [m])[1..] == [];
    } else {
      assert (ms + [m])[1..] == ms[1..] + [m];
      AggregateSnoc(ms[1..], m, Wrap(seed, ms[0]));
    }
  }

  /** The fold over the reversed list is exactly the nesting M1(M2(..Mn(terminal))). */
  lemma {:induction false} BuildPipelineIsNesting<R, V>(ms: seq<Middleware<R, V>>, terminal: Delegate<R, V>)
    ensures BuildPipeline(ms, terminal) == Nest(ms, terminal)
    decreases |ms|
  {
    if ms != [] {
      calc {
        BuildPipeline(ms, terminal);
        Aggregate(Reverse(ms[1..]) + [ms[0]], terminal);
        { AggregateSnoc(Reverse(ms[1..]), ms[0], terminal); }
        Wrap(BuildPipeline(ms[1..], terminal), ms[0]);
        { BuildPipelineIsNesting(ms[1..], terminal); }
        Nest(ms, terminal);
      }
    }
  }

  /** A middleware that, under this cancellation flag, calls `next` exactly once with
      the same flag and returns what it returns (apart from trace entries). */
  predicate Transparent<R, V>(m: Middleware<R, V>, ct: bool) {
    m.Trace? || m.Mutate? || (m.CancelGuard? && !ct)
  }

  /** A middleware that, under this cancellation flag, returns without calling `next`. */
  predicate Stops<R, V>(m: Middleware<R, V>, ct: bool) {
    m.ShortCircuit? || (m.CancelGuard? && ct)
  }

  /** The pre-call log entries, outermost first. */
  function Befores<R, V>(ms: seq<Middleware<R, V>>): seq<string> {
    if ms == [] then []
    else (if ms[0].Trace? then [ms[0].before] else []) + Befores(ms[1..])
  }

  /** The post-call log entries, in registration order (they run innermost first). */
  function AfterTags<R, V>(ms: seq<Middleware<R, V>>): seq<string> {
    if ms == [] then []
    else (if ms[0].Trace? then [ms[0].after] else []) + AfterTags(ms[1..])
  }

  /** The request after every in-place mutation, applied outermost first. */
  function MutateAll<R, V>(ms: seq<Middleware<R, V>>, request: R): R
    decreases |ms|
  {
    if ms == [] then request
    else MutateAll(ms[1..], if ms[0].Mutate? then ms[0].update(request) else request)
  }

  lemma {:induction false} ReverseSnocFront<T>(x: T, s: seq<T>)
    ensures Reverse([x] + s) == Reverse(s) + [x]
  {
    assert ([x] + s)[1..] == s;
  }

  /** With only transparent middlewares, the terminal call receives the flag the
      pipeline was called with and the request as mutated by every middleware; the
      log is the pre-call entries in registration order, whatever the terminal logs,
      then (if the terminal did not fault) the post-call entries in reverse order. */
  lemma {:induction false} TransparentRun<R, V>(ms: seq<Middleware<R, V>>, terminal: Delegate<R, V>, ct: bool, ctx: Ctx<R>)
    requires forall i :: 0 <= i < |ms| ==> Transparent(ms[i], ct)
    ensures var inner := terminal(ct, Ctx(MutateAll(ms, ctx.request), ctx.log + Befores(ms)));
            BuildPipeline(ms, terminal)(ct, ctx)
            == if inner.outcome.Faulted? then inner
               else inner.(ctx := inner.ctx.(log := inner.ctx.log + Reverse(AfterTags(ms))))
    decreases |ms|
  {
    BuildPipelineIsNesting(ms, terminal);
    if ms != [] {
      var m := ms[0];
      var ctx' := if m.Trace? then ctx.(log := ctx.log + [m.before])
                  else if m.Mutate? then ctx.(request := m.update(ctx.request))
                  else ctx;
      TransparentRun(ms[1..], terminal, ct, ctx');
      BuildPipelineIsNesting(ms[1..], terminal);
      assert ctx.log + Befores(ms) == ctx'.log + Befores(ms[1..]);
      assert MutateAll(ms, ctx.request) == MutateAll(ms[1..], ctx'.request);
      assert Nest(ms, terminal)(ct, ctx) == Handle(m, Nest(ms[1..], terminal), ct, ctx);
      var inner := terminal(ct, Ctx(MutateAll(ms, ctx.request), ctx.log + Befores(ms)));
      var r := Nest(ms[1..], terminal)(ct, ctx');
      assert r == if inner.outcome.Faulted? then inner
                  else inner.(ctx := inner.ctx.(log := inner.ctx.log + Reverse(AfterTags(ms[1..]))));
      if m.Trace? {
        ReverseSnocFront(m.after, AfterTags(ms[1..]));
        assert Reverse(AfterTags(ms)) == Reverse(AfterTags(ms[1..])) + [m.after];
        assert Handle(m, Nest(ms[1..], terminal), ct, ctx)
            == if r.outcome.Faulted? then r else r.(ctx := r.ctx.(log := r.ctx.log + [m.after]));
        assert inner.ctx.log + Reverse(AfterTags(ms[1..])) + [m.after] == inner.ctx.log + Reverse(AfterTags(ms));
      } else {
        assert AfterTags(ms) == AfterTags(ms[1..]);
        assert Handle(m, Nest(ms[1..], terminal), ct, ctx) == r;
      }
    } else {
      assert Ctx(ctx.request, ctx.log + []) == ctx;
      var inner := terminal(ct, ctx);
      assert inner.ctx.(log := inner.ctx.log + []) == inner.ctx;
    }
  }

  /** A middleware that returns without calling `next` suppresses every inner
      middleware and the terminal call: the pipeline's run is the same whatever the
      inner middlewares and the terminal are. */
  lemma {:induction false} StopSuppressesInner<R, V>(
    ms: seq<Middleware<R, V>>, k: nat, terminal: Delegate<R, V>,
    rest: seq<Middleware<R, V>>, otherTerminal: Delegate<R, V>, ct: bool, ctx: Ctx<R>)
    requires k < |ms| && Stops(ms[k], ct)
    ensures BuildPipeline(ms, terminal)(ct, ctx) == BuildPipeline(ms[..k + 1] + rest, otherTerminal)(ct, ctx)
  {
    BuildPipelineIsNesting(ms, terminal);
    BuildPipelineIsNesting(ms[..k + 1] + rest, otherTerminal);
    NestStops(ms, k, terminal, rest, otherTerminal, ct, ctx);
  }

  lemma {:induction false} NestStops<R, V>(
    ms: seq<Middleware<R, V>>, k: nat, terminal: Delegate<R, V>,
    rest: seq<Middleware<R, V>>, otherTerminal: Delegate<R, V>, ct: bool, ctx: Ctx<R>)
    requires k < |ms| && Stops(ms[k], ct)
    ensures Nest(ms, terminal)(ct, ctx) == Nest(ms[..k + 1] + rest, otherTerminal)(ct, ctx)
    decreases k
  {
    var ms' := ms[..k + 1] + rest;
    assert ms'[0] == ms[0];
    if k > 0 {
      assert ms'[1..] == ms[1..][..k] + rest;
      var inner, inner' := Nest(ms[1..], terminal), Nest(ms'[1..], otherTerminal);
      forall ctx0: Ctx<R> ensures inner(ct, ctx0) == inner'(ct, ctx0) {
        NestStops(ms[1..], k - 1, terminal, rest, otherTerminal, ct, ctx0);
      }
      // Every middleware calls its next with the flag it was given.
      assert Handle(ms[0], inner, ct, ctx) == Handle(ms[0], inner', ct, ctx) by {
        match ms[0]
        case Trace(b, _) => assert inner(ct, ctx.(log := ctx.log + [b])) == inner'(ct, ctx.(log := ctx.log + [b]));
        case ShortCircuit(_) =>
        case Mutate(f) =>
          var ctx1 := ctx.(request := f(ctx.request));
          NestStops(ms[1..], k - 1, terminal, rest, otherTerminal, ct, ctx1);
        case Recover(_) => assert inner(ct, ctx) == inner'(ct, ctx);
        case CancelGuard(_) => assert inner(ct, ctx) == inner'(ct, ctx);
      }
    }
  }

  /** When the first middleware stops, its own value is the result and the shared
      state is untouched. */
  lemma OutermostStopResult<R, V>(ms: seq<Middleware<R, V>>, terminal: Delegate<R, V>, ct: bool, ctx: Ctx<R>)
    requires |ms| > 0 && Stops(ms[0], ct)
    ensures BuildPipeline(ms, terminal)(ct, ctx)
            == Run(Done(if ms[0].ShortCircuit? then ms[0].value else ms[0].fallback), ctx)
  {
    BuildPipelineIsNesting(ms, terminal);
  }

  lemma {:induction false} NestSnoc<R, V>(ms: seq<Middleware<R, V>>, m: Middleware<R, V>, terminal: Delegate<R, V>)
    ensures Nest(ms + [m], terminal) == Nest(ms, Wrap(terminal, m))
    decreases |ms|
  {
    if ms == [] {
      assert ([m] + [])[1..] == [];
    } else {
      assert (ms + [m])[1..] == ms[1..] + [m];
      NestSnoc(ms[1..], m, terminal);
    }
  }

  /** The value a stopping middleware returns. */
  function StopValue<R, V>(m: Middleware<R, V>): V
    requires m.ShortCircuit? || m.CancelGuard?
  {
    if m.ShortCircuit? then m.value else m.fallback
  }

  /** When the middlewares outside a stopping one are transparent, the stopping
      middleware's value is the result, and the log holds only the outer
      middlewares' entries: nothing inner, the handler included, ran. */
  lemma InnerStopResult<R, V>(ms: seq<Middleware<R, V>>, k: nat, terminal: Delegate<R, V>, ct: bool, ctx: Ctx<R>)
    requires k < |ms| && Stops(ms[k], ct)
    requires forall i :: 0 <= i < k ==> Transparent(ms[i], ct)
    ensures var r := BuildPipeline(ms, terminal)(ct, ctx);
            && r.outcome == Done(StopValue(ms[k]))
            && r.ctx.log == ctx.log + Befores(ms[..k]) + Reverse(AfterTags(ms[..k]))
  {
    var outer := ms[..k];
    StopSuppressesInner(ms, k, terminal, [], terminal, ct, ctx);
    assert ms[..k + 1] + [] == outer + [ms[k]];
    BuildPipelineIsNesting(outer + [ms[k]], terminal);
    NestSnoc(outer, ms[k], terminal);
    var stop := Wrap(terminal, ms[k]);
    BuildPipelineIsNesting(outer, stop);
    TransparentRun(outer, stop, ct, ctx);
  }

  /** Three tracing middlewares around a handler that logs once: the log reads
      M1-Before, M2-Before, M3-Before, Handler, M3-After, M2-After, M1-After. */
  lemma NestedTraceOrder<R, V>(request: R, value: V, ct: bool)
    ensures var ms: seq<Middleware<R, V>> := [Trace("M1-Before", "M1-After"), Trace("M2-Before", "M2-After"), Trace("M3-Before", "M3-After")];
            var handler: Delegate<R, V> := (ct: bool, ctx: Ctx<R>) => Run(Done(value), ctx.(log := ctx.log + ["Handler"]));
            BuildPipeline(ms, handler)(ct, Ctx(request, [])).ctx.log
            == ["M1-Before", "M2-Before", "M3-Before", "Handler", "M3-After", "M2-After", "M1-After"]
  {
    var ms: seq<Middleware<R, V>> := [Trace("M1-Before", "M1-After"), Trace("M2-Before", "M2-After"), Trace("M3-Before", "M3-After")];
    var handler: Delegate<R, V> := (ct: bool, ctx: Ctx<R>) => Run(Done(value), ctx.(log := ctx.log + ["Handler"]));
    TransparentRun(ms, handler, ct, Ctx(request, []));
    assert ms[1..][1..][1..] == [];
    assert Befores(ms) == ["M1-Before", "M2-Before", "M3-Before"];
    assert AfterTags(ms) == ["M1-After", "M2-After", "M3-After"];
    assert Reverse(AfterTags(ms)) == ["M3-After", "M2-After", "M1-After"] by {
      var a := AfterTags(ms);
      assert a[1..] == ["M2-After", "M3-After"];
      assert a[1..][1..] == ["M3-After"];
      assert Reverse(["M3-After"]) == ["M3-After"] by {
        assert ["M3-After"][1..] == [];
      }
      assert Reverse(["M2-After", "M3-After"]) == ["M3-After", "M2-After"] by {
        assert ["M2-After", "M3-After"][1..] == ["M3-After"];
      }
    }
  }
}
