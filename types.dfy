/** Abstract stand-ins for the reflection data the dispatcher inspects: runtime
    types, objects, `Handle` overloads, handler types and assemblies, plus the
    exceptions the core can raise. */
module Types {

  datatype Option<+T> = None | Some(value: T)

  datatype Result<+T, +E> = Success(value: T) | Failure(error: E)

  /** A runtime type, as far as the dispatcher distinguishes types. */
  datatype Ty =
    | VoidTy                              // System.Void
    | UnitTy                              // SimpleMediator.Unit
    | TaskTy                              // System.Threading.Tasks.Task
    | TaskOfTy(result: Ty)                // Task<T>
    | TokenTy                             // System.Threading.CancellationToken
    | ClassTy(fullName: string, name: string)  // any other type, by its full and short name

  /** `Type.FullName`. For a constructed `Task<T>` this is the generic definition's
      name only: the type-argument list .NET appends is not modelled, and no handler
      lookup here is made for a `Task<T>`. */
  function FullName(t: Ty): string {
    match t
    case VoidTy => "System.Void"
    case UnitTy => "SimpleMediator.Unit"
    case TaskTy => "System.Threading.Tasks.Task"
    case TaskOfTy(_) => "System.Threading.Tasks.Task`1"
    case TokenTy => "System.Threading.CancellationToken"
    case ClassTy(full, _) => full
  }

  /** `Type.Name` */
  function Name(t: Ty): string {
    match t
    case VoidTy => "Void"
    case UnitTy => "Unit"
    case TaskTy => "Task"
    case TaskOfTy(_) => "Task`1"
    case TokenTy => "CancellationToken"
    case ClassTy(_, name) => name
  }

  /** A runtime object: its runtime type and an abstract payload standing for its fields. */
  datatype Obj = Obj(ty: Ty, state: seq<int>)

  /** `Unit.Value` */
  const UnitValue: Obj := Obj(UnitTy, [])

  /** The exceptions that the core raises or lets through. */
  datatype Error =
    | ArgumentNull(paramName: string)
    | InvalidOperation(message: string)
    | Argument(message: string, paramName: string)
    | InvalidCast(source: Ty, target: Ty)
    | TargetInvocation(inner: Error)
    | Raised(message: string)             // thrown by handler or middleware code

  /** A settled task: completed with a value, or faulted with an exception. */
  datatype Completion<+V> = Done(value: V) | Faulted(error: Error)

  /** What calling a handler's `Handle` method does: it either throws before
      returning, or returns (for a `Task`-returning method, the task it returns, here
      already settled; for a synchronous method, `Done` of the returned value). */
  datatype CallResult = Threw(error: Error) | Returned(completion: Completion<Obj>)

  /** One call of a handler's `Handle`: its result and the trace entries the body
      appended to the shared log. */
  datatype HandlerCall = HandlerCall(result: CallResult, trace: seq<string>)

  /** A `Handle` overload: its name, its parameter types and its return type. */
  datatype MethodDesc = MethodDesc(name: string, params: seq<Ty>, ret: Ty)

  /** A type defined in an assembly, with the reflection flags the core reads. */
  datatype TypeDesc = TypeDesc(
    fullName: string,
    name: string,
    isAbstract: bool,
    isInterface: bool,
    isClass: bool,
    isGenericDefinition: bool,
    methods: seq<MethodDesc>)

  /** The type a type descriptor defines, as a runtime type. */
  function TypeOf(t: TypeDesc): Ty {
    ClassTy(t.fullName, t.name)
  }

  datatype Assembly = Assembly(name: string, types: seq<TypeDesc>)

  /** `(T)(object)o`: a reference or unboxing conversion, which fails unless the
      target type is assignable from the object's runtime type. `assignable(a, b)`
      stands for `a.IsAssignableFrom(b)`. */
  function Cast(o: Obj, target: Ty, assignable: (Ty, Ty) -> bool): (r: Completion<Obj>)
    ensures r.Done? <==> assignable(target, o.ty)
    ensures r.Done? ==> r.value == o
    ensures r.Faulted? ==> r.error == InvalidCast(o.ty, target)
  {
    if assignable(target, o.ty) then Done(o) else Faulted(InvalidCast(o.ty, target))
  }

  /** `Type.GetMethod(name, paramTypes)`, modelled as the first declared method whose
      name and parameter types equal the ones asked for; the binder's widening to
      compatible parameter types is not modelled. */
  function GetMethod(t: TypeDesc, name: string, params: seq<Ty>): (r: Option<MethodDesc>)
    ensures r.Some? <==> exists m :: m in t.methods && m.name == name && m.params == params
    ensures r.Some? ==> r.value in t.methods && r.value.name == name && r.value.params == params
  {
    FirstMethod(t.methods, name, params)
  }

  function FirstMethod(ms: seq<MethodDesc>, name: string, params: seq<Ty>): (r: Option<MethodDesc>)
    ensures r.Some? <==> exists m :: m in ms && m.name == name && m.params == params
    ensures r.Some? ==> r.value in ms && r.value.name == name && r.value.params == params
  {
    if ms == [] then None
    else if ms[0].name == name && ms[0].params == params then Some(ms[0])
    else FirstMethod(ms[1..], name, params)
  }

  /** `Assembly.GetType(fullName)`: the type of that assembly with that full name, if any. */
  function GetType(a: Assembly, fullName: string): (r: Option<TypeDesc>)
    ensures r.Some? <==> exists t :: t in a.types && t.fullName == fullName
    ensures r.Some? ==> r.value in a.types && r.value.fullName == fullName
  {
    FirstNamed(a.types, fullName)
  }

  function FirstNamed(ts: seq<TypeDesc>, fullName: string): (r: Option<TypeDesc>)
    ensures r.Some? <==> exists t :: t in ts && t.fullName == fullName
    ensures r.Some? ==> r.value in ts && r.value.fullName == fullName
  {
    if ts == [] then None
    else if ts[0].fullName == fullName then Some(ts[0])
    else FirstNamed(ts[1..], fullName)
  }

  predicate NoDuplicates<T(==)>(s: seq<T>) {
    forall i, j :: 0 <= i < j < |s| ==> s[i] != s[j]
  }

  function Elements<T>(s: seq<T>): set<T> {
    set x | x in s
  }
}
