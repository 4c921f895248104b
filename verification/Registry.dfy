/**
 Event registration seen from outside: a map from names to sequences of handlers, and the meaning of
 programs that register, deregister and emit, where every emit works on a snapshot.
 */
module Registry {

  /** Function objects and argument lists, by identity. */
  type Handler = nat
  type Args = nat

  /** Event names; a constructor of their own keeps them apart from other sequences. */
  datatype Name = Name(text: string)

  type Registry = map<Name, seq<Handler>>

  /**
   What code may do with an emitter. The code that runs when an emit calls its i-th handler is the
   i-th body, so a finite tree of actions describes any finite run, whatever its handlers do.
   */
  datatype Action =
    | On(name: Name, fn: Handler)
    | Deregister(name: Name, fn: Handler)
    | Emit(name: Name, args: Args, bodies: seq<Body>)

  /** What runs inside one call of a handler. */
  datatype Body = Body(actions: seq<Action>)

  datatype Event = Enter(fn: Handler, args: Args) | Leave

  datatype Outcome = Outcome(registry: Registry, trace: seq<Event>)

  function Registered(r: Registry, name: Name): seq<Handler> {
    if name in r then r[name] else []
  }

  function Without(handlers: seq<Handler>, fn: Handler): seq<Handler> {
    if handlers == [] then []
    else if handlers[0] == fn then Without(handlers[1..], fn)
    else [handlers[0]] + Without(handlers[1..], fn)
  }

  function AfterOn(r: Registry, name: Name, fn: Handler): Registry {
    r[name := Registered(r, name) + [fn]]
  }

  function AfterDeregister(r: Registry, name: Name, fn: Handler): Registry {
    var rest := Without(Registered(r, name), fn);
    if rest == [] then r - {name} else r[name := rest]
  }

  function Run(r: Registry, actions: seq<Action>): Outcome
    decreases actions, 1
  {
    if actions == [] then Outcome(r, [])
    else
      var first := Step(r, actions[0]);
      var rest := Run(first.registry, actions[1..]);
      Outcome(rest.registry, first.trace + rest.trace)
  }

  function Step(r: Registry, a: Action): Outcome
    decreases a, 0
  {
    match a
    case On(name, fn) => Outcome(AfterOn(r, name, fn), [])
    case Deregister(name, fn) => Outcome(AfterDeregister(r, name, fn), [])
    case Emit(name, args, bodies) => CallAll(r, Registered(r, name), args, bodies)
  }

  /** Calls the given handlers in order, whatever happens to the registry meanwhile. */
  function CallAll(r: Registry, handlers: seq<Handler>, args: Args, bodies: seq<Body>): Outcome
    decreases bodies, |handlers| + 1
  {
    if handlers == [] then Outcome(r, [])
    else
      var inner := Inner(r, bodies);
      var rest := CallAll(inner.registry, handlers[1..], args, Later(bodies));
      Outcome(rest.registry, [Enter(handlers[0], args)] + inner.trace + [Leave] + rest.trace)
  }

  /** What the next call runs; a handler without a body does nothing. */
  function Inner(r: Registry, bodies: seq<Body>): Outcome
    decreases bodies, 0
  {
    if bodies == [] then Outcome(r, []) else Run(r, bodies[0].actions)
  }

  function Later(bodies: seq<Body>): seq<Body> {
    if bodies == [] then [] else bodies[1..]
  }

  // ---- Which calls an emit makes itself ----

  /** The nesting depth after one event. */
  function Depth(e: Event, depth: nat): nat {
    if e.Enter? then depth + 1 else if depth == 0 then 0 else depth - 1
  }

  function EndDepth(trace: seq<Event>, depth: nat): nat {
    if trace == [] then depth else EndDepth(trace[1..], Depth(trace[0], depth))
  }

  /** The calls a trace makes at depth zero, when it starts at depth `depth`. */
  function TopCalls(trace: seq<Event>, depth: nat): seq<Event> {
    if trace == [] then []
    else
      var rest := TopCalls(trace[1..], Depth(trace[0], depth));
      if trace[0].Enter? && depth == 0 then [trace[0]] + rest else rest
  }

  /** The calls of a trace that are not made from within another call of it. */
  function DirectCalls(trace: seq<Event>): seq<Event> {
    TopCalls(trace, 0)
  }

  function CallsOf(handlers: seq<Handler>, args: Args): seq<Event> {
    seq(|handlers|, i requires 0 <= i < |handlers| => Enter(handlers[i], args))
  }

  lemma {:induction false} TraceConcat(s: seq<Event>, t: seq<Event>, depth: nat)
    ensures EndDepth(s + t, depth) == EndDepth(t, EndDepth(s, depth))
    ensures TopCalls(s + t, depth) == TopCalls(s, depth) + TopCalls(t, EndDepth(s, depth))
  {
    if s == [] {
      assert s + t == t;
    } else {
      assert (s + t)[1..] == s[1..] + t;
      TraceConcat(s[1..], t, Depth(s[0], depth));
    }
  }

  /** A trace that makes no call at depth zero and returns to the depth it starts from. */
  ghost predicate Nested(trace: seq<Event>, depth: nat) {
    EndDepth(trace, depth) == depth && TopCalls(trace, depth) == []
  }

  /** Whatever runs inside a call is nested in it. */
  lemma {:induction false} RunNested(r: Registry, actions: seq<Action>, depth: nat)
    requires depth > 0
    ensures Nested(Run(r, actions).trace, depth)
    decreases actions, 1
  {
    if actions == [] {
    } else {
      var first := Step(r, actions[0]);
      var rest := Run(first.registry, actions[1..]);
      match actions[0] {
        case Emit(name, args, bodies) => CallsNested(r, Registered(r, name), args, bodies, depth);
        case _ =>
      }
      RunNested(first.registry, actions[1..], depth);
      TraceConcat(first.trace, rest.trace, depth);
    }
  }

  lemma {:induction false} CallsNested(r: Registry, handlers: seq<Handler>, args: Args, bodies: seq<Body>, depth: nat)
    requires depth > 0
    ensures Nested(CallAll(r, handlers, args, bodies).trace, depth)
    decreases bodies, |handlers| + 1
  {
    if handlers == [] {
    } else {
      var inner := Inner(r, bodies);
      CallNested(r, bodies, depth);
      CallsNested(inner.registry, handlers[1..], args, Later(bodies), depth);
      var rest := CallAll(inner.registry, handlers[1..], args, Later(bodies));
      CallTrace(handlers[0], args, inner.trace, rest.trace, depth);
    }
  }

  lemma {:induction false} CallNested(r: Registry, bodies: seq<Body>, depth: nat)
    ensures Nested(Inner(r, bodies).trace, depth + 1)
    decreases bodies, 0
  {
    if bodies == [] {
    } else {
      RunNested(r, bodies[0].actions, depth + 1);
    }
  }

  lemma CallTrace(fn: Handler, args: Args, inner: seq<Event>, rest: seq<Event>, depth: nat)
    requires Nested(inner, depth + 1)
    ensures var trace := [Enter(fn, args)] + inner + [Leave] + rest;
      && EndDepth(trace, depth) == EndDepth(rest, depth)
      && TopCalls(trace, depth) == (if depth == 0 then [Enter(fn, args)] else []) + TopCalls(rest, depth)
  {
    var trace := [Enter(fn, args)] + inner + [Leave] + rest;
    var after := [Leave] + rest;
    assert after[1..] == rest;
    assert trace[1..] == inner + after;
    TraceConcat(inner, after, depth + 1);
  }

  /** An emit calls exactly the handlers of its snapshot, once per registration and in order. */
  lemma {:induction false} EmitCallsSnapshot(r: Registry, handlers: seq<Handler>, args: Args, bodies: seq<Body>)
    ensures DirectCalls(CallAll(r, handlers, args, bodies).trace) == CallsOf(handlers, args)
    decreases bodies, |handlers| + 1
  {
    if handlers == [] {
    } else {
      var inner := Inner(r, bodies);
      CallNested(r, bodies, 0);
      EmitCallsSnapshot(inner.registry, handlers[1..], args, Later(bodies));
      var rest := CallAll(inner.registry, handlers[1..], args, Later(bodies));
      CallTrace(handlers[0], args, inner.trace, rest.trace, 0);
    }
  }

  // ---- What each action of a run does ----

  /** A run in two parts: the second goes on where the first ended. */
  lemma {:induction false} RunConcat(r: Registry, a: seq<Action>, b: seq<Action>)
    ensures Run(r, a + b).registry == Run(Run(r, a).registry, b).registry
    ensures Run(r, a + b).trace == Run(r, a).trace + Run(Run(r, a).registry, b).trace
    decreases a
  {
    if a == [] {
      assert a + b == b;
    } else {
      assert (a + b)[0] == a[0] && (a + b)[1..] == a[1..] + b;
      var first := Step(r, a[0]);
      RunConcat(first.registry, a[1..], b);
    }
  }

  lemma RunOne(r: Registry, x: Action)
    ensures Run(r, [x]) == Step(r, x)
  {
    var first := Step(r, x);
    assert [x][1..] == [];
    assert first.trace + [] == first.trace;
  }

  /** An action in the middle of a run acts on the registry that the actions before it leave. */
  lemma ActionInRun(r: Registry, before: seq<Action>, x: Action, after: seq<Action>)
    ensures var at := Run(r, before); var done := Run(at.registry, [x]);
      var whole := Run(r, before + [x] + after);
      && whole.registry == Run(done.registry, after).registry
      && whole.trace == at.trace + done.trace + Run(done.registry, after).trace
  {
    RunConcat(r, before + [x], after);
    RunConcat(r, before, [x]);
  }

  /** The bindings of all other names are the same. */
  ghost predicate OthersKept(r: Registry, r': Registry, name: Name) {
    forall other :: other != name ==> (other in r' <==> other in r) && (other in r ==> r'[other] == r[other])
  }

  /** Registering puts the handler behind those registered under the name, and does nothing else. */
  lemma RunOn(r: Registry, name: Name, fn: Handler)
    ensures var o := Run(r, [On(name, fn)]);
      && name in o.registry
      && o.registry[name] == (if name in r then r[name] else []) + [fn]
      && OthersKept(r, o.registry, name)
      && o.trace == []
  {
    RunOne(r, On(name, fn));
  }

  /**
   Deregistering takes every registration of the handler under the name, keeps the others in their
   order, unbinds the name if none is left, and does nothing else.
   */
  lemma RunDeregister(r: Registry, name: Name, fn: Handler)
    ensures var had := if name in r then r[name] else [];
      var o := Run(r, [Deregister(name, fn)]);
      && (name in o.registry <==> exists g :: g in had && g != fn)
      && (name in o.registry ==> Remain(had, o.registry[name], fn))
      && OthersKept(r, o.registry, name)
      && o.trace == []
  {
    RunOne(r, Deregister(name, fn));
    var had := Registered(r, name);
    var places := WithoutPlaces(had, fn);
    if Without(had, fn) == [] {
      forall g | g in had ensures g == fn {
        WithoutCounts(had, fn, g);
      }
    } else {
      var g := Without(had, fn)[0];
      WithoutCounts(had, fn, g);
      assert g in multiset(Without(had, fn));
      assert g in had;
    }
  }

  /** `rest` is `had` without `fn`: the places of all other handlers, in order. */
  ghost predicate Remain(had: seq<Handler>, rest: seq<Handler>, fn: Handler) {
    exists places: seq<nat> :: Places(had, rest, fn, places)
  }

  ghost predicate Places(had: seq<Handler>, rest: seq<Handler>, fn: Handler, places: seq<nat>) {
    && |places| == |rest|
    && (forall i, j :: 0 <= i < j < |places| ==> places[i] < places[j])
    && (forall i :: 0 <= i < |places| ==> places[i] < |had| && rest[i] == had[places[i]])
    && (forall p :: 0 <= p < |had| ==> (p in places <==> had[p] != fn))
  }

  lemma {:induction false} WithoutPlaces(had: seq<Handler>, fn: Handler) returns (places: seq<nat>)
    ensures Places(had, Without(had, fn), fn, places)
  {
    if had == [] {
      places := [];
    } else {
      var n := |had| - 1;
      var front, last := had[..n], had[n];
      assert had == front + [last];
      var some := WithoutPlaces(front, fn);
      WithoutConcat(front, [last], fn);
      WithoutOne(last, fn);
      hide Places, Without;
      if last == fn {
        PlacesSkip(front, Without(front, fn), fn, some);
        assert Without(front, fn) + [] == Without(front, fn);
        places := some;
      } else {
        PlacesGrow(front, Without(front, fn), fn, some, last);
        places := some + [n];
      }
    }
  }

  lemma PlacesSkip(front: seq<Handler>, rest: seq<Handler>, fn: Handler, some: seq<nat>)
    requires Places(front, rest, fn, some)
    ensures Places(front + [fn], rest, fn, some)
  {
    var had := front + [fn];
    forall p | 0 <= p < |had| ensures p in some <==> had[p] != fn {
      if p < |front| {
        assert had[p] == front[p];
      }
    }
  }

  lemma PlacesGrow(front: seq<Handler>, rest: seq<Handler>, fn: Handler, some: seq<nat>, last: Handler)
    requires Places(front, rest, fn, some) && last != fn
    ensures Places(front + [last], rest + [last], fn, some + [|front|])
  {
    var had, more := front + [last], some + [|front|];
    forall p | 0 <= p < |had| ensures p in more <==> had[p] != fn {
      if p < |front| {
        assert had[p] == front[p];
      } else {
        assert more[|some|] == p;
      }
    }
  }

  lemma WithoutOne(g: Handler, fn: Handler)
    ensures Without([g], fn) == if g == fn then [] else [g]
  {
  }

  function Min(m: nat, n: nat): nat {
    if m <= n then m else n
  }

  /** The actions of several bodies, one after another. */
  function ActionsOf(bodies: seq<Body>): seq<Action> {
    if bodies == [] then [] else bodies[0].actions + ActionsOf(bodies[1..])
  }

  /** What is left for later calls. */
  function Skip(bodies: seq<Body>, k: nat): seq<Body> {
    bodies[Min(k, |bodies|)..]
  }

  /**
   An emit makes one call per handler registered when it began, in order, and leaves the registry as
   if the bodies of those calls had been run one after another.
   */
  lemma RunEmit(r: Registry, name: Name, args: Args, bodies: seq<Body>)
    ensures var handlers := if name in r then r[name] else [];
      var o := Run(r, [Emit(name, args, bodies)]);
      && |DirectCalls(o.trace)| == |handlers|
      && (forall i :: 0 <= i < |handlers| ==> DirectCalls(o.trace)[i] == Enter(handlers[i], args))
      && o.registry == Run(r, ActionsOf(bodies[..Min(|handlers|, |bodies|)])).registry
  {
    RunOne(r, Emit(name, args, bodies));
    EmitCallsSnapshot(r, Registered(r, name), args, bodies);
    CallsRunBodies(r, Registered(r, name), args, bodies);
  }

  lemma {:induction false} CallsRunBodies(r: Registry, handlers: seq<Handler>, args: Args, bodies: seq<Body>)
    ensures CallAll(r, handlers, args, bodies).registry
      == Run(r, ActionsOf(bodies[..Min(|handlers|, |bodies|)])).registry
    decreases |handlers|
  {
    var ran := bodies[..Min(|handlers|, |bodies|)];
    if handlers == [] {
    } else if bodies == [] {
      CallsRunBodies(r, handlers[1..], args, []);
    } else {
      var inner := Run(r, bodies[0].actions);
      CallsRunBodies(inner.registry, handlers[1..], args, bodies[1..]);
      assert ran[1..] == bodies[1..][..Min(|handlers| - 1, |bodies| - 1)];
      RunConcat(r, bodies[0].actions, ActionsOf(ran[1..]));
    }
  }

  /** The events of one call. */
  ghost function CallEvents(r: Registry, fn: Handler, args: Args, bodies: seq<Body>): seq<Event> {
    [Enter(fn, args)] + Inner(r, bodies).trace + [Leave]
  }

  lemma CallAllStep(r: Registry, handlers: seq<Handler>, args: Args, bodies: seq<Body>)
    requires handlers != []
    ensures var rest := CallAll(Inner(r, bodies).registry, handlers[1..], args, Later(bodies));
      CallAll(r, handlers, args, bodies)
        == Outcome(rest.registry, CallEvents(r, handlers[0], args, bodies) + rest.trace)
  {
  }

  lemma Joins<T>(a: seq<T>, b: seq<T>, c: seq<T>)
    ensures (a + b) + c == a + (b + c)
  {
  }

  /** The calls of an emit in two parts. */
  lemma {:induction false} CallAllConcat(r: Registry, s: seq<Handler>, t: seq<Handler>, args: Args, bodies: seq<Body>)
    ensures var first := CallAll(r, s, args, bodies);
      var rest := CallAll(first.registry, t, args, Skip(bodies, |s|));
      CallAll(r, s + t, args, bodies) == Outcome(rest.registry, first.trace + rest.trace)
    decreases |s|
  {
    if s == [] {
      assert s + t == t && Skip(bodies, 0) == bodies;
      assert [] + CallAll(r, t, args, bodies).trace == CallAll(r, t, args, bodies).trace;
    } else {
      var inner, events := Inner(r, bodies), CallEvents(r, s[0], args, bodies);
      assert (s + t)[0] == s[0] && (s + t)[1..] == s[1..] + t;
      assert Skip(Later(bodies), |s| - 1) == Skip(bodies, |s|);
      CallAllStep(r, s + t, args, bodies);
      CallAllStep(r, s, args, bodies);
      CallAllConcat(inner.registry, s[1..], t, args, Later(bodies));
      hide CallAll, CallEvents, Inner, Skip, Later;
      var first := CallAll(inner.registry, s[1..], args, Later(bodies));
      Joins(events, first.trace, CallAll(first.registry, t, args, Skip(bodies, |s|)).trace);
    }
  }

  /**
   The i-th call of an emit finds the registry as the bodies of the earlier calls leave it, and runs
   the i-th body, or nothing if there is none, between its entry and its return.
   */
  lemma CallInEmit(r: Registry, handlers: seq<Handler>, args: Args, bodies: seq<Body>, i: nat)
    requires i < |handlers|
    ensures var whole := CallAll(r, handlers, args, bodies);
      var before := CallAll(r, handlers[..i], args, bodies);
      var during := Run(before.registry, if i < |bodies| then bodies[i].actions else []);
      var after := CallAll(during.registry, handlers[i + 1..], args, Skip(bodies, i + 1));
      && before.registry == Run(r, ActionsOf(bodies[..Min(i, |bodies|)])).registry
      && whole.registry == after.registry
      && whole.trace == before.trace + ([Enter(handlers[i], args)] + during.trace + [Leave] + after.trace)
  {
    var s, t := handlers[..i], handlers[i..];
    assert handlers == s + t && t[0] == handlers[i] && t[1..] == handlers[i + 1..];
    CallAllConcat(r, s, t, args, bodies);
    CallsRunBodies(r, s, args, bodies);
    var left, before := Skip(bodies, i), CallAll(r, s, args, bodies).registry;
    CallAllStep(before, t, args, left);
    InnerIs(before, bodies, i);
    hide CallAll, Run, Inner, Skip, Later;
  }

  lemma InnerIs(r: Registry, bodies: seq<Body>, i: nat)
    ensures Inner(r, Skip(bodies, i)) == Run(r, if i < |bodies| then bodies[i].actions else [])
    ensures Later(Skip(bodies, i)) == Skip(bodies, i + 1)
  {
  }

  // ---- Laws of registration ----

  /** No name is bound to an empty sequence. */
  ghost predicate Proper(r: Registry) {
    forall name :: name in r ==> r[name] != []
  }

  lemma {:induction false} WithoutConcat(s: seq<Handler>, t: seq<Handler>, fn: Handler)
    ensures Without(s + t, fn) == Without(s, fn) + Without(t, fn)
  {
    if s == [] {
      assert s + t == t;
    } else {
      assert (s + t)[1..] == s[1..] + t;
      WithoutConcat(s[1..], t, fn);
    }
  }

  /** Every registration of the handler goes, and every other one stays. */
  lemma {:induction false} WithoutCounts(handlers: seq<Handler>, fn: Handler, g: Handler)
    ensures multiset(Without(handlers, fn))[g] == if g == fn then 0 else multiset(handlers)[g]
  {
    if handlers == [] {
    } else {
      assert handlers == [handlers[0]] + handlers[1..];
      WithoutCounts(handlers[1..], fn, g);
    }
  }

  lemma {:induction false} WithoutSame(handlers: seq<Handler>, fn: Handler)
    ensures |Without(handlers, fn)| <= |handlers|
    ensures Without(handlers, fn) == handlers <==> fn !in handlers
  {
    if handlers == [] {
    } else {
      WithoutSame(handlers[1..], fn);
    }
  }

  lemma DeregisterIdempotent(r: Registry, name: Name, fn: Handler)
    ensures AfterDeregister(AfterDeregister(r, name, fn), name, fn) == AfterDeregister(r, name, fn)
  {
    var rest := Without(Registered(r, name), fn);
    WithoutCounts(Registered(r, name), fn, fn);
    WithoutSame(rest, fn);
  }

  /**
   Calling the function that `on` returns takes the registration back exactly if the handler was
   not registered under that name before; otherwise it takes the earlier registrations with it.
   */
  lemma DeregisterUndoesOn(r: Registry, name: Name, fn: Handler)
    requires Proper(r)
    ensures AfterDeregister(AfterOn(r, name, fn), name, fn) == r <==> fn !in Registered(r, name)
  {
    var before := Registered(r, name);
    var rest := Without(before, fn);
    WithoutConcat(before, [fn], fn);
    assert Without(before + [fn], fn) == rest;
    WithoutSame(before, fn);
    var after := AfterDeregister(AfterOn(r, name, fn), name, fn);
    assert Registered(after, name) == rest;
    if rest == before {
      assert after == r;
    }
  }

  /** A second registration of a handler, taken back, takes the first one with it. */
  lemma SecondRegistrationTakesFirst(name: Name, fn: Handler)
    ensures var r: Registry := map[name := [fn]];
      AfterDeregister(AfterOn(r, name, fn), name, fn) == map[]
  {
    var r: Registry := map[name := [fn]];
    WithoutConcat([fn], [fn], fn);
    assert Without([fn], fn) == [];
    assert AfterOn(r, name, fn)[name] == [fn] + [fn];
  }

  lemma {:induction false} RunProper(r: Registry, actions: seq<Action>)
    requires Proper(r)
    ensures Proper(Run(r, actions).registry)
    decreases actions, 1
  {
    if actions == [] {
    } else {
      match actions[0] {
        case Emit(name, args, bodies) => CallsProper(r, Registered(r, name), args, bodies);
        case _ =>
      }
      RunProper(Step(r, actions[0]).registry, actions[1..]);
    }
  }

  lemma {:induction false} CallsProper(r: Registry, handlers: seq<Handler>, args: Args, bodies: seq<Body>)
    requires Proper(r)
    ensures Proper(CallAll(r, handlers, args, bodies).registry)
    decreases bodies, |handlers| + 1
  {
    if handlers == [] {
    } else {
      InnerProper(r, bodies);
      CallsProper(Inner(r, bodies).registry, handlers[1..], args, Later(bodies));
    }
  }

  lemma {:induction false} InnerProper(r: Registry, bodies: seq<Body>)
    requires Proper(r)
    ensures Proper(Inner(r, bodies).registry)
    decreases bodies, 0
  {
    if bodies == [] {
    } else {
      RunProper(r, bodies[0].actions);
    }
  }
}
