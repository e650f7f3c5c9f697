/** `MediatorConfiguration`: the set of assemblies handlers are discovered in. The
    `HashSet<Assembly>` is kept as a duplicate-free sequence in insertion order, the
    order in which discovery enumerates it. */
module Configuration {
  import opened Types

  /** `HashSet.Add` on an insertion-ordered set. */
  function SetAdd<T(==)>(s: seq<T>, x: T): (r: seq<T>)
    ensures Elements(r) == Elements(s) + {x}
    ensures s <= r
    ensures |r| == if x in s then |s| else |s| + 1
    ensures NoDuplicates(s) ==> NoDuplicates(r)
  {
    if x in s then s else s + [x]
  }

  /** Adding an element already present changes nothing. */
  lemma SetAddIdempotent<T>(s: seq<T>, x: T)
    ensures SetAdd(SetAdd(s, x), x) == SetAdd(s, x)
  {
    assert x in SetAdd(s, x);
  }

  /** Adding each element of a sequence in turn (`foreach ... AddAssembly`). */
  function SetAddAll<T(==)>(s: seq<T>, xs: seq<T>): seq<T>
    decreases |xs|
  {
    if xs == [] then s else SetAddAll(SetAdd(s, xs[0]), xs[1..])
  }

  /** The result holds exactly the old elements and the added ones, each once, and
      keeps the old ones in front in their old order. */
  lemma {:induction false} SetAddAllContents<T>(s: seq<T>, xs: seq<T>)
    ensures Elements(SetAddAll(s, xs)) == Elements(s) + Elements(xs)
    ensures NoDuplicates(s) ==> NoDuplicates(SetAddAll(s, xs))
    ensures s <= SetAddAll(s, xs)
    ensures |SetAddAll(s, xs)| <= |s| + |xs|
    decreases |xs|
  {
    if xs != [] {
      SetAddAllContents(SetAdd(s, xs[0]), xs[1..]);
      assert xs == [xs[0]] + xs[1..];
      assert Elements(xs) == {xs[0]} + Elements(xs[1..]);
    }
  }

  class MediatorConfiguration {
    /** `HandlerAssemblies` */
    var handlerAssemblies: seq<Assembly>

    ghost predicate Valid()
      reads this
    {
      NoDuplicates(handlerAssemblies)
    }

    constructor()
      ensures handlerAssemblies == [] && Valid()
    {
      handlerAssemblies := [];
    }

    /** `AddAssembly`: set insertion; adding an assembly twice has no effect. */
    method AddAssembly(assembly: Assembly)
      modifies this
      ensures handlerAssemblies == SetAdd(old(handlerAssemblies), assembly)
      ensures old(Valid()) ==> Valid()
    {
      if assembly !in handlerAssemblies {
        handlerAssemblies := handlerAssemblies + [assembly];
      }
    }
  }
}
