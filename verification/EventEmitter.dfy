/** The emitter as written: live arrays that `on` extends in place and `deregister` replaces by filtered copies. */
module EventEmitter {
  import opened Registry

  /** A JavaScript array that is only ever extended at its end. */
  class JsArray {
    var items: seq<Handler>

    constructor (items: seq<Handler>)
      ensures this.items == items
    {
      this.items := items;
    }

    method Push(fn: Handler)
      modifies this
      ensures items == old(items) + [fn]
    {
      items := items + [fn];
    }

    /** `filter(v => v !== fn)`: a new array. */
    method FilterOut(fn: Handler) returns (copy: JsArray)
      ensures fresh(copy) && copy.items == Without(items, fn)
    {
      var kept: seq<Handler> := [];
      var i := 0;
      while i < |items|
        invariant 0 <= i <= |items|
        invariant kept + Without(items[i..], fn) == Without(items, fn)
      {
        assert items[i..][1..] == items[i + 1..];
        if items[i] != fn {
          kept := kept + [items[i]];
        }
        i := i + 1;
      }
      copy := new JsArray(kept);
    }
  }

  ghost predicate Stores(arrays: set<JsArray>, arr: JsArray, handlers: seq<Handler>)
    reads arrays
  {
    arr in arrays && arr.items == handlers != []
  }

  ghost predicate Unshared(listeners: map<Name, JsArray>) {
    forall m, n :: m in listeners && n in listeners && m != n ==> listeners[m] != listeners[n]
  }

  lemma UnsharedUpdate(listeners: map<Name, JsArray>, name: Name, arr: JsArray)
    requires Unshared(listeners) && forall n :: n in listeners && n != name ==> listeners[n] != arr
    ensures Unshared(listeners[name := arr])
  {
  }

  lemma UnsharedRemove(listeners: map<Name, JsArray>, name: Name)
    requires Unshared(listeners)
    ensures Unshared(listeners - {name})
  {
  }

  predicate Suffix(todo: seq<Body>, bodies: seq<Body>) {
    |todo| <= |bodies| && todo == bodies[|bodies| - |todo|..]
  }

  lemma SnapshotStep(r: Registry, snapshot: seq<Handler>, k: nat, args: Args, todo: seq<Body>)
    requires k < |snapshot|
    ensures var now := CallAll(r, snapshot[k..], args, todo);
      var next := CallAll(Inner(r, todo).registry, snapshot[k + 1..], args, Later(todo));
      && now.registry == next.registry
      && now.trace == CallEvents(r, snapshot[k], args, todo) + next.trace
  {
    assert snapshot[k..][1..] == snapshot[k + 1..];
  }

  lemma AllLeft<T>(s: seq<T>)
    ensures s[0..] == s
  {
  }

  lemma RegisteredIs(r: Registry, name: Name)
    ensures Registered(r, name) == if name in r then r[name] else []
  {
  }

  lemma AfterOnIs(r: Registry, name: Name, fn: Handler)
    ensures AfterOn(r, name, fn) == r[name := (if name in r then r[name] else []) + [fn]]
  {
  }

  lemma AfterDeregisterIs(r: Registry, name: Name, fn: Handler)
    ensures var rest := Without(if name in r then r[name] else [], fn);
      AfterDeregister(r, name, fn) == if rest == [] then r - {name} else r[name := rest]
  {
  }

  lemma NoCalls(r: Registry, handlers: seq<Handler>, args: Args, bodies: seq<Body>)
    requires handlers == []
    ensures CallAll(r, handlers, args, bodies) == Outcome(r, [])
  {
  }

  /** What `on` returns: `deregister` bound to its arguments. */
  datatype DeregFunction = DeregFunction(name: Name, fn: Handler)

  class Emitter {
    var listeners: map<Name, JsArray>
    /** The handlers registered for each name. */
    ghost var contents: Registry
    /** Every array this emitter has ever stored. */
    ghost var arrays: set<JsArray>
    /** The calls of handlers and their returns, as they happen. */
    ghost var trace: seq<Event>

    /** Stored arrays hold what is registered, are non-empty, and no two names share one. */
    ghost predicate Valid()
      reads this, arrays
    {
      && listeners.Keys == contents.Keys
      && Unshared(listeners)
      && forall n :: n in listeners ==> Stores(arrays, listeners[n], contents[n])
    }

    /** As `Valid`, leaving open what is stored for `name` and what `arr` holds. */
    ghost predicate ValidBut(name: Name, arr: JsArray)
      reads this, arrays - {arr}
    {
      && listeners.Keys == contents.Keys
      && Unshared(listeners)
      && forall n :: n in listeners && n != name ==> Stores(arrays - {arr}, listeners[n], contents[n])
    }

    lemma Excepting(name: Name, arr: JsArray)
      requires Valid()
      requires if name in listeners then arr == listeners[name] || arr !in arrays else arr !in arrays
      ensures ValidBut(name, arr)
    {
      forall n | n in listeners && n != name
        ensures Stores(arrays - {arr}, listeners[n], contents[n])
      {
        assert Stores(arrays, listeners[n], contents[n]);
      }
    }

    method Set(name: Name, arr: JsArray)
      requires ValidBut(name, arr) && arr.items != []
      modifies this
      ensures Valid() && arrays == old(arrays) + {arr}
      ensures listeners == old(listeners)[name := arr] && contents == old(contents)[name := arr.items]
      ensures trace == old(trace)
    {
      ghost var l, c := listeners, contents;
      forall n | n in l && n != name
        ensures l[n] != arr && Stores(arrays + {arr}, l[n], c[n])
      {
        assert Stores(arrays - {arr}, l[n], c[n]);
      }
      hide Unshared;
      listeners := listeners[name := arr];
      arrays := arrays + {arr};
      contents := contents[name := arr.items];
      UnsharedUpdate(l, name, arr);
    }

    method Unset(name: Name)
      requires Valid()
      modifies this`listeners, this`contents
      ensures Valid()
      ensures listeners == old(listeners) - {name} && contents == old(contents) - {name}
    {
      ghost var l, c := listeners, contents;
      listeners := listeners - {name};
      contents := contents - {name};
      UnsharedRemove(l, name);
    }

    constructor ()
      ensures Valid() && contents == map[] && trace == [] && arrays == {}
    {
      listeners := map[];
      contents := map[];
      arrays := {};
      trace := [];
    }

    /** The array stored for the name, or a new empty one. */
    method ArrayOf(name: Name) returns (arr: JsArray)
      ensures if name in listeners then arr == listeners[name] else fresh(arr) && arr.items == []
    {
      if name in listeners {
        arr := listeners[name];
      } else {
        arr := new JsArray([]);
      }
    }

    /** Appends to the array stored for the name, or stores a new one; all other names keep theirs. */
    method On(name: Name, fn: Handler) returns (d: DeregFunction)
      requires Valid()
      modifies this, arrays
      ensures Valid() && old(arrays) <= arrays && fresh(arrays - old(arrays))
      ensures contents == AfterOn(old(contents), name, fn)
      ensures name in listeners
      ensures if name in old(listeners) then listeners[name] == old(listeners[name]) else fresh(listeners[name])
      ensures listeners == old(listeners)[name := listeners[name]]
      ensures forall a :: a in old(arrays) ==> old(a.items) <= a.items
      ensures trace == old(trace)
      ensures d == DeregFunction(name, fn)
    {
      AfterOnIs(contents, name, fn);
      hide AfterOn, Registered;
      var arr := ArrayOf(name);
      Excepting(name, arr);
      assert arr.items == if name in contents then contents[name] else [];
      hide Valid, ValidBut;
      arr.Push(fn);
      Set(name, arr);
      d := DeregFunction(name, fn);
    }

    method Deregister(name: Name, fn: Handler)
      requires Valid()
      modifies this
      ensures Valid() && old(arrays) <= arrays && fresh(arrays - old(arrays))
      ensures contents == AfterDeregister(old(contents), name, fn)
      ensures forall a :: a in old(arrays) ==> a.items == old(a.items)
      ensures trace == old(trace)
    {
      AfterDeregisterIs(contents, name, fn);
      hide AfterDeregister, Registered, Without;
      var arr := ArrayOf(name);
      assert arr.items == if name in contents then contents[name] else [];
      arr := arr.FilterOut(fn);
      if |arr.items| == 0 {
        Unset(name);
      } else {
        Excepting(name, arr);
        hide Valid, ValidBut;
        Set(name, arr);
      }
    }

    /**
     Calls the handlers of `name`; the i-th call runs the i-th body. As `forEach` does, the length
     is read once, and an index is visited only if the array still has it.
     */
    method Emit(name: Name, args: Args, bodies: seq<Body>)
      requires Valid()
      modifies this, arrays
      ensures Valid() && old(arrays) <= arrays && fresh(arrays - old(arrays))
      ensures forall a :: a in old(arrays) ==> old(a.items) <= a.items
      ensures var o := CallAll(old(contents), Registered(old(contents), name), args, bodies);
        contents == o.registry && trace == old(trace) + o.trace
      ensures |old(trace)| <= |trace|
      ensures DirectCalls(trace[|old(trace)|..]) == CallsOf(Registered(old(contents), name), args)
      decreases bodies, 3
    {
      ghost var calls, snapshot := trace, Registered(contents, name);
      ghost var whole := CallAll(contents, snapshot, args, bodies);
      EmitCallsSnapshot(contents, snapshot, args, bodies);
      hide CallAll, DirectCalls, CallsOf, Registered;
      if name in listeners {
        RegisteredIs(contents, name);
        ForEach(listeners[name], args, bodies);
      } else {
        RegisteredIs(contents, name);
        NoCalls(contents, snapshot, args, bodies);
      }
      assert trace[|calls|..] == whole.trace;
    }

    /** `forEach` over an array that may grow meanwhile. */
    method ForEach(arr: JsArray, args: Args, bodies: seq<Body>)
      requires Valid() && arr in arrays
      modifies this, arrays
      ensures Valid() && old(arrays) <= arrays && fresh(arrays - old(arrays))
      ensures forall a :: a in old(arrays) ==> old(a.items) <= a.items
      ensures var o := CallAll(old(contents), old(arr.items), args, bodies);
        contents == o.registry && trace == old(trace) + o.trace
      decreases bodies, 2
    {
      hide CallAll, Valid, CallEvents, Inner;
      ghost var calls, snapshot := trace, arr.items;
      ghost var whole := CallAll(contents, snapshot, args, bodies);
      ghost var done: seq<Event> := [];
      var len := |arr.items|;
      var todo := bodies;
      var k := 0;
      AllLeft(snapshot);
      while k < len
        invariant 0 <= k <= len == |snapshot| && snapshot <= arr.items
        invariant Valid() && old(arrays) <= arrays && fresh(arrays - old(arrays))
        invariant forall a :: a in old(arrays) ==> old(a.items) <= a.items
        invariant trace == calls + done
        invariant whole.registry == CallAll(contents, snapshot[k..], args, todo).registry
        invariant whole.trace == done + CallAll(contents, snapshot[k..], args, todo).trace
        invariant Suffix(todo, bodies)
      {
        if k < |arr.items| {
          SnapshotStep(contents, snapshot, k, args, todo);
          ghost var more := done + CallEvents(contents, snapshot[k], args, todo);
          Call(arr.items[k], args, todo);
          done := more;
        }
        todo := Later(todo);
        k := k + 1;
      }
      NoCalls(contents, snapshot[k..], args, todo);
    }

    ghost method Record(event: Event)
      requires Valid()
      modifies this`trace
      ensures Valid() && trace == old(trace) + [event]
    {
      trace := trace + [event];
    }

    /** One call of a handler: it runs the first of the bodies that are left. */
    method Call(fn: Handler, args: Args, bodies: seq<Body>)
      requires Valid()
      modifies this, arrays
      ensures Valid() && old(arrays) <= arrays && fresh(arrays - old(arrays))
      ensures forall a :: a in old(arrays) ==> old(a.items) <= a.items
      ensures contents == Inner(old(contents), bodies).registry
      ensures trace == old(trace) + CallEvents(old(contents), fn, args, bodies)
      decreases bodies, 1
    {
      hide Valid;
      ghost var before, inner := trace, Inner(contents, bodies).trace;
      Record(Enter(fn, args));
      if bodies != [] {
        RunAll(bodies[0].actions);
      }
      Record(Leave);
      assert before + [Enter(fn, args)] + inner + [Leave] == before + ([Enter(fn, args)] + inner + [Leave]);
    }

    method RunAll(actions: seq<Action>)
      requires Valid()
      modifies this, arrays
      ensures Valid() && old(arrays) <= arrays && fresh(arrays - old(arrays))
      ensures forall a :: a in old(arrays) ==> old(a.items) <= a.items
      ensures var o := Run(old(contents), actions);
        contents == o.registry && trace == old(trace) + o.trace
      decreases actions, 1
    {
      hide Run, AfterOn, AfterDeregister, CallAll, Valid, DirectCalls, CallsOf, Registered;
      ghost var before, calls := contents, trace;
      RunUnfolds(before, actions);
      if actions != [] {
        Perform(actions[0]);
        ghost var first := Step(before, actions[0]);
        RunAll(actions[1..]);
      }
    }

    method Perform(a: Action)
      requires Valid()
      modifies this, arrays
      ensures Valid() && old(arrays) <= arrays && fresh(arrays - old(arrays))
      ensures forall a :: a in old(arrays) ==> old(a.items) <= a.items
      ensures var o := Step(old(contents), a);
        contents == o.registry && trace == old(trace) + o.trace
      decreases a, 0
    {
      hide AfterOn, AfterDeregister, CallAll, Valid, DirectCalls, CallsOf, Registered;
      match a {
        case On(name, fn) =>
          var d := this.On(name, fn);
        case Deregister(name, fn) =>
          this.Deregister(name, fn);
        case Emit(name, args, bodies) =>
          this.Emit(name, args, bodies);
      }
    }
  }

  lemma RunUnfolds(r: Registry, actions: seq<Action>)
    ensures actions == [] ==> Run(r, actions) == Outcome(r, [])
    ensures actions != [] ==>
      var first := Step(r, actions[0]);
      var rest := Run(first.registry, actions[1..]);
      Run(r, actions).registry == rest.registry && Run(r, actions).trace == first.trace + rest.trace
  {
  }
}
