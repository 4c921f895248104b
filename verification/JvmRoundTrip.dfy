/** What the two conversions promise together. */
module JvmRoundTrip {
  import opened JsValue
  import opened Jvm
  import opened Denotation
  import opened JvmConversion

  /** What `toJVM` wrote can be read back: it has no cycle and stands for the value written, and for no other. */
  lemma WrittenIsReadable(h: Heap, h': Heap, nullInstance: Ref, r: Ref, v: Value, w: Value)
    requires Written(h, h', nullInstance, r, v)
    ensures Acyclic(h', r)
    ensures Denotes(h', r, w) <==> w == v
  {
    var f := Fresh(h, h', nullInstance);
    assert Extends(f, h');
    RendersInLarger(f, h', nullInstance, r, v);
    RendersDenotes(h', nullInstance, r, v);
    hide Denotes, Renders, Acyclic;
    UnfoldsIffAcyclic(h', r);
    if Denotes(h', r, w) {
      DenotesUnique(h', r, v, w);
    }
  }

  /** A value written to the heap and read back is the same value, whatever its kind and nesting. */
  method RoundTrip(env: Env, v: Value) returns (v': Value)
    requires env.Valid()
    modifies env
    ensures v' == v
    ensures env.Valid() && Extends(old(env.heap), env.heap)
    ensures Added(old(env.live), env.live, 1 + Weight(v, LEFT_BY_TO_JVM) + Weight(v, LEFT_BY_FROM_JVM))
  {
    hide Weight, Denotes, Renders, Closed, Acyclic, Added, Extends, Fresh;
    ghost var h, l := env.heap, env.live;
    var r := ToJVM(env, v);
    ghost var h1, l1 := env.heap, env.live;
    WrittenIsReadable(h, h1, env.nullInstance, r, v, v);
    ExtendsSelf(h1);
    v' := FromJVM(env, r, h1);
    WrittenIsReadable(h, h1, env.nullInstance, r, v, v');
    ExtendsTransitive(h, h1, env.heap);
    AddedRoundTrip(l, l1, env.live, r, Weight(v, LEFT_BY_TO_JVM), Weight(v, LEFT_BY_FROM_JVM));
  }

  lemma AddedRoundTrip(l: multiset<Ref>, l1: multiset<Ref>, l2: multiset<Ref>, r: Ref, m: int, n: int)
    requires Added(l + multiset{r}, l1, m) && Added(l1, l2, n)
    ensures Added(l, l2, 1 + m + n)
  {
    assert l <= l + multiset{r};
  }

  /**
   An object graph without a cycle, read in and written out again, gives a graph that stands for the
   same value, even when objects in the first one are shared; the first graph stays as it was.
   */
  method Rebuild(env: Env, obj: Ref) returns (r: Ref)
    requires env.Valid() && Acyclic(env.heap, obj)
    modifies env
    ensures env.Valid() && Extends(old(env.heap), env.heap)
    ensures r !in old(env.heap) || r == env.nullInstance
    ensures forall w :: Denotes(env.heap, obj, w) <==> Denotes(env.heap, r, w)
  {
    hide Weight, Denotes, Renders, Closed, Acyclic, Added, Extends, Fresh;
    ghost var h := env.heap;
    ExtendsSelf(h);
    var v := FromJVM(env, obj, h);
    ghost var h1 := env.heap;
    r := ToJVM(env, v);
    SameValue(h, h1, env.heap, env.nullInstance, obj, r, v);
  }

  lemma SameValue(h: Heap, h1: Heap, h2: Heap, nullInstance: Ref, obj: Ref, r: Ref, v: Value)
    requires Denotes(h, obj, v)
    requires Extends(h, h1) && Written(h1, h2, nullInstance, r, v)
    ensures Extends(h, h2) && (r !in h || r == nullInstance)
    ensures forall w :: Denotes(h2, obj, w) <==> Denotes(h2, r, w)
  {
    RendersPresent(Fresh(h1, h2, nullInstance), nullInstance, r, v);
    ExtendsTransitive(h, h1, h2);
    DenotesInLarger(h, h2, obj, v);
    hide Denotes, Renders, Extends, Fresh, Closed;
    forall w ensures Denotes(h2, obj, w) <==> Denotes(h2, r, w) {
      WrittenIsReadable(h1, h2, nullInstance, r, v, w);
      if Denotes(h2, obj, w) {
        DenotesUnique(h2, obj, v, w);
      }
    }
  }

  /** A walk along references. */
  ghost predicate Walk(h: Heap, path: seq<Ref>) {
    && (forall i :: 0 <= i < |path| ==> path[i] in h)
    && forall i :: 0 < i < |path| ==> path[i] in Pointers(h[path[i - 1]])
  }

  /** Whatever can be reached from the result of `toJVM` is a new object or the shared null object. */
  lemma {:induction false} ReachesOnlyNew(h: Heap, h': Heap, nullInstance: Ref, r: Ref, v: Value, path: seq<Ref>)
    requires Written(h, h', nullInstance, r, v)
    requires Walk(h', path) && path != [] && path[0] == r
    ensures forall x :: x in path ==> x !in h || x == nullInstance
    decreases |path|
  {
    var f, n := Fresh(h, h', nullInstance), |path| - 1;
    if n == 0 {
      RendersPresent(f, nullInstance, r, v);
    } else {
      var front := path[..n];
      ReachesOnlyNew(h, h', nullInstance, r, v, front);
      assert front[n - 1] == path[n - 1] && path[n - 1] in f;
      assert path[n] in f.Keys;
      assert path == front + [path[n]];
    }
  }
}
