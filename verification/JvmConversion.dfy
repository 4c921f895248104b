/** Writing native values into the Java heap and reading them back. */
module JvmConversion {
  import opened JsValue
  import opened Jvm
  import opened Denotation

  /** Local references that a conversion leaves behind for each node it visits. */
  const LEFT_BY_TO_JVM := Costs(1, 1, 1, 1, 0)
  const LEFT_BY_FROM_JVM := Costs(1, 1, 1, 3, 0)

  /**
   The references left, in numbers: writing leaves one for each string, array, byte array and map,
   and reading the same but three for each map; contained values add what they leave themselves.
   */
  lemma ReferencesLeft(c: Costs, v: Value, elems: seq<Value>, entries: map<U16String, Value>, k: U16String, w: Value)
    requires c == LEFT_BY_TO_JVM || c == LEFT_BY_FROM_JVM
    ensures v.Str? || v.Bytes? ==> Weight(v, c) == 1
    ensures v.Bool? || v.Num? || v.Null? ==> Weight(v, c) == 0
    ensures Weight(Arr([]), c) == 1
    ensures Weight(Arr(elems + [w]), c) == Weight(Arr(elems), c) + Weight(w, c)
    ensures Weight(Dict(map[]), c) == if c == LEFT_BY_TO_JVM then 1 else 3
    ensures k !in entries ==> Weight(Dict(entries[k := w]), c) == Weight(Dict(entries), c) + Weight(w, c)
  {
    hide Weight;
    WeightOfLeaf(v, c);
    WeightOfAppend(elems, w, c);
    WeightOfInsert(map[], k, w, c);
    if k !in entries {
      WeightOfInsert(entries, k, w, c);
    }
  }

  /** The objects of `h'` that `h` does not have, and the shared null object. */
  ghost function Fresh(h: Heap, h': Heap, nullInstance: Ref): Heap {
    map r | r in h' && (r !in h || r == nullInstance) :: h'[r]
  }

  /** A part of the heap that refers to nothing outside itself. */
  ghost predicate Closed(f: Heap) {
    forall r :: r in f ==> Pointers(f[r]) <= f.Keys
  }

  /**
   The object at `r` is what `toJVM` makes of `v`: an object of the class for its kind over parts that
   hold its content, and the shared null object for every null.
   */
  ghost predicate Renders(h: Heap, nullInstance: Ref, r: Ref, v: Value)
    decreases v
  {
    r in h &&
    match v
    case Str(chars) =>
      h[r].JSStringValue? && h[r].value in h && h[h[r].value] == JString(chars)
    case Bool(flag) =>
      h[r] == JSBooleanValue(flag)
    case Num(bits) =>
      h[r] == JSDoubleValue(bits)
    case Arr(elems) =>
      && h[r].JSArrayValue? && h[r].value in h && h[h[r].value].ObjectArray?
      && var slots := h[h[r].value].slots;
      && |slots| == |elems|
      && forall i :: 0 <= i < |elems| ==> slots[i].Some? && Renders(h, nullInstance, slots[i].value, elems[i])
    case Bytes(bytes) =>
      && h[r].JSByteArrayValue? && h[r].value in h && h[h[r].value].ByteArray?
      && SameBytes(h[h[r].value].jbytes, bytes)
    case Dict(entries) =>
      && h[r].JSMapValue? && h[r].value in h && h[h[r].value].HashMap?
      && var table := h[h[r].value].table;
      && table.Keys == entries.Keys
      && forall k :: k in entries ==> KeyFits(h, table[k], k) && Renders(h, nullInstance, table[k].value, entries[k])
    case Null =>
      r == nullInstance && h[r] == JSNullValue
  }

  lemma {:induction false} RendersInLarger(h: Heap, h': Heap, nullInstance: Ref, r: Ref, v: Value)
    requires Extends(h, h') && Renders(h, nullInstance, r, v)
    ensures Renders(h', nullInstance, r, v)
    decreases v
  {
    match v
    case Arr(elems) =>
      var slots := h[h[r].value].slots;
      forall i | 0 <= i < |elems| ensures Renders(h', nullInstance, slots[i].value, elems[i]) {
        RendersInLarger(h, h', nullInstance, slots[i].value, elems[i]);
      }
    case Dict(entries) =>
      var table := h[h[r].value].table;
      forall k | k in entries ensures Renders(h', nullInstance, table[k].value, entries[k]) {
        RendersInLarger(h, h', nullInstance, table[k].value, entries[k]);
      }
    case _ =>
  }

  /** What `toJVM` makes of a value stands for that value. */
  lemma {:induction false} RendersDenotes(h: Heap, nullInstance: Ref, r: Ref, v: Value)
    requires Renders(h, nullInstance, r, v)
    ensures Denotes(h, r, v)
    decreases v
  {
    match v
    case Arr(elems) =>
      var slots := h[h[r].value].slots;
      forall i | 0 <= i < |elems| ensures Denotes(h, slots[i].value, elems[i]) {
        RendersDenotes(h, nullInstance, slots[i].value, elems[i]);
      }
    case Dict(entries) =>
      var table := h[h[r].value].table;
      forall k | k in entries ensures Denotes(h, table[k].value, entries[k]) {
        RendersDenotes(h, nullInstance, table[k].value, entries[k]);
      }
    case _ =>
  }

  /** A closed part of the heap in which `r` is what `toJVM` makes of `v`. */
  ghost predicate Tree(f: Heap, nullInstance: Ref, r: Ref, v: Value) {
    Closed(f) && Renders(f, nullInstance, r, v)
  }

  /**
   What `toJVM` does to the heap: nothing to old objects, and the new ones, together with the null
   object, refer only to each other and are what `toJVM` makes of `v`.
   */
  ghost predicate Written(h: Heap, h': Heap, nullInstance: Ref, r: Ref, v: Value) {
    Extends(h, h') && Tree(Fresh(h, h', nullInstance), nullInstance, r, v)
  }

  /** `more` has the references of `less`, and `n` others. */
  ghost predicate Added(less: multiset<Ref>, more: multiset<Ref>, n: int) {
    less <= more && |more| == |less| + n
  }

  // ---- toJVM ----

  method ToJVM(env: Env, v: Value) returns (r: Ref)
    requires env.Valid()
    modifies env
    ensures env.Valid()
    ensures Written(old(env.heap), env.heap, env.nullInstance, r, v)
    ensures Added(old(env.live) + multiset{r}, env.live, Weight(v, LEFT_BY_TO_JVM))
    decreases v, 2
  {
    hide Written, Added, Fresh, Extends, Closed, Tree;
    ghost var h, l, nullRef := env.heap, env.live, env.nullInstance;
    match v {
      case Str(chars) =>
        var str := env.New(JString(chars));
        ghost var h1 := env.heap;
        r := env.New(JSStringValue(str));
        WrittenWithPart(h, h1, env.heap, nullRef, str, r, v);
        AddedPart(l, str, r);
      case Bool(flag) =>
        r := env.New(JSBooleanValue(flag));
        WrittenLeaf(h, env.heap, nullRef, r, v);
        AddedNone(env.live);
      case Num(bits) =>
        r := env.New(JSDoubleValue(bits));
        WrittenLeaf(h, env.heap, nullRef, r, v);
        AddedNone(env.live);
      case Arr(elems) =>
        r := ArrayToJVM(env, v);
      case Bytes(bytes) =>
        var arr := env.New(ByteArray(seq(|bytes|, _ => 0)));
        env.SetByteArrayRegion(arr, ToJBytes(bytes));
        ghost var h1 := env.heap;
        r := env.New(JSByteArrayValue(arr));
        assert h1 == h[arr := ByteArray(ToJBytes(bytes))];
        WrittenWithPart(h, h1, env.heap, nullRef, arr, r, v);
        AddedPart(l, arr, r);
      case Dict(entries) =>
        r := MapToJVM(env, v);
      case Null =>
        env.Local(env.nullInstance);
        r := env.nullInstance;
        WrittenNull(h, nullRef);
        AddedNone(env.live);
    }
  }

  method ArrayToJVM(env: Env, v: Value) returns (r: Ref)
    requires env.Valid() && v.Arr?
    modifies env
    ensures env.Valid()
    ensures Written(old(env.heap), env.heap, env.nullInstance, r, v)
    ensures Added(old(env.live) + multiset{r}, env.live, Weight(v, LEFT_BY_TO_JVM))
    decreases v, 1
  {
    hide Fresh, Extends, Closed, Renders, Added, Weight, WeightOfAll, ArrayPart, Tree;
    var n := |v.elems|;
    ghost var h, nullRef := env.heap, env.nullInstance;
    var arr := env.New(ObjectArray(seq(n, _ => None)));
    ghost var base := env.live;
    ArrayStart(h, env.heap, nullRef, arr, v.elems);
    AddedNone(base);
    ghost var left := 0;
    WeightOfNone(v.elems, LEFT_BY_TO_JVM);
    var i := 0;
    while i < n
      invariant 0 <= i <= n && env.Valid()
      invariant Extends(h, env.heap) && ArrayPart(Fresh(h, env.heap, nullRef), nullRef, arr, v.elems, i)
      invariant arr in env.heap && env.heap[arr].ObjectArray? && |env.heap[arr].slots| == n
      invariant Added(base, env.live, left) && left == WeightOfAll(v.elems[..i], LEFT_BY_TO_JVM)
    {
      ghost var h1, l1 := env.heap, env.live;
      var child := ToJVM(env, v.elems[i]);
      ghost var h2, l2 := env.heap, env.live;
      ExtendsKeeps(h1, h2, arr);
      env.SetObjectArrayElement(arr, i, child);
      ghost var w := Weight(v.elems[i], LEFT_BY_TO_JVM);
      AddedPresent(l1, l2, child, w);
      env.DeleteLocalRef(child);
      AddedDelete(l1, l2, env.live, child, w);
      ghost var total := left + w;
      AddedTogether(base, l1, env.live, left, w, total);
      WeightOfPrefix(v.elems, i, LEFT_BY_TO_JVM);
      left := total;
      ArrayStep(h, h1, h2, env.heap, nullRef, arr, v.elems, i, child);
      i := i + 1;
    }
    ghost var h3, l3 := env.heap, env.live;
    r := env.New(JSArrayValue(arr));
    ExtendsKeepsOut(h, h3, r);
    ArrayDone(h, h3, env.heap, nullRef, arr, r, v);
    AddedResult(old(env.live), l3, arr, r, left);
    WeightOfArray(v, n, LEFT_BY_TO_JVM);
  }

  method MapToJVM(env: Env, v: Value) returns (r: Ref)
    requires env.Valid() && v.Dict?
    modifies env
    ensures env.Valid()
    ensures Written(old(env.heap), env.heap, env.nullInstance, r, v)
    ensures Added(old(env.live) + multiset{r}, env.live, Weight(v, LEFT_BY_TO_JVM))
    decreases v, 1
  {
    hide Fresh, Extends, Closed, Renders, Added, Weight, WeightOfKeys, MapPart, TableFits, Tree;
    ghost var h, nullRef := env.heap, env.nullInstance;
    ghost var keys, all := v.entries.Keys, WeightOfKeys(v, v.entries.Keys, LEFT_BY_TO_JVM);
    var m := env.New(HashMap(map[]));
    ghost var base := env.live;
    MapStart(h, env.heap, nullRef, m, v);
    AddedNone(base);
    ghost var left := 0;
    var todo := v.entries.Keys;
    while todo != {}
      invariant todo <= keys && env.Valid()
      invariant Extends(h, env.heap) && MapPart(Fresh(h, env.heap, nullRef), nullRef, m, v, todo)
      invariant m in env.heap && env.heap[m].HashMap? && env.heap[m].table.Keys == keys - todo
      invariant Added(base, env.live, left)
      invariant left + WeightOfKeys(v, todo, LEFT_BY_TO_JVM) == all
      decreases todo
    {
      var k :| k in todo;
      ghost var h1, l1 := env.heap, env.live;
      ghost var h2, h3, str, child, w := WriteEntry(env, m, v, k);
      MapStep(h, h1, h2, h3, env.heap, nullRef, m, v, todo, k, str, child);
      KeysStep(keys, todo, k);
      WeightOfKey(v, todo, k, LEFT_BY_TO_JVM);
      ghost var total := left + w;
      AddedTogether(base, l1, env.live, left, w, total);
      left := total;
      todo := todo - {k};
    }
    ghost var h5, l5 := env.heap, env.live;
    r := env.New(JSMapValue(m));
    ExtendsKeepsOut(h, h5, r);
    MapDone(h, h5, env.heap, nullRef, m, r, v);
    WeightOfDict(v, LEFT_BY_TO_JVM);
    AddedResult(old(env.live), l5, m, r, left);
  }

  /** One round of the loop over the entries of a map. */
  method WriteEntry(env: Env, m: Ref, v: Value, k: U16String)
    returns (ghost h2: Heap, ghost h3: Heap, ghost str: Ref, ghost child: Ref, ghost w: nat)
    requires env.Valid() && v.Dict? && k in v.entries
    requires m in env.heap && env.heap[m].HashMap? && k !in env.heap[m].table
    modifies env
    ensures env.Valid()
    ensures str !in old(env.heap) && h2 == old(env.heap)[str := JString(k)]
    ensures Written(h2, h3, env.nullInstance, child, v.entries[k])
    ensures m in h3 && h3[m] == old(env.heap)[m]
    ensures env.heap == h3[m := HashMap(h3[m].table[k := Binding(str, child)])]
    ensures w == Weight(v.entries[k], LEFT_BY_TO_JVM) && Added(old(env.live), env.live, w)
    decreases v, 0
  {
    hide Fresh, Extends, Closed, Renders, Added, Weight, Tree;
    ghost var l1 := env.live;
    w := Weight(v.entries[k], LEFT_BY_TO_JVM);
    var key := env.New(JString(k));
    h2 := env.heap;
    var obj := ToJVM(env, v.entries[k]);
    h3 := env.heap;
    ghost var l3 := env.live;
    ExtendsKeeps(h2, h3, m);
    ExtendsKeeps(h2, h3, key);
    env.Put(m, key, obj);
    str, child := key, obj;
    assert l1 + multiset{str} + multiset{child} == l1 + multiset{child} + multiset{str};
    AddedPresent(l1 + multiset{child}, l3, str, w);
    env.DeleteLocalRef(key);
    ghost var l4 := env.live;
    AddedDelete(l1 + multiset{child}, l3, l4, str, w);
    AddedPresent(l1, l4, child, w);
    env.DeleteLocalRef(obj);
    AddedDelete(l1, l4, env.live, child, w);
  }

  // ---- Counting local references ----

  lemma AddedNone(l: multiset<Ref>)
    ensures Added(l, l, 0)
  {
  }

  lemma WeightOfNone(vs: seq<Value>, c: Costs)
    ensures WeightOfAll(vs[..0], c) == 0
  {
  }

  lemma AddedPresent(l0: multiset<Ref>, l: multiset<Ref>, r: Ref, n: int)
    requires Added(l0 + multiset{r}, l, n)
    ensures r in l
  {
    assert r in l0 + multiset{r};
  }

  lemma AddedDelete(l0: multiset<Ref>, l: multiset<Ref>, l': multiset<Ref>, r: Ref, n: int)
    requires Added(l0 + multiset{r}, l, n) && l' == l - multiset{r}
    ensures Added(l0, l', n)
  {
    assert r in l0 + multiset{r};
  }

  lemma AddedTogether(l0: multiset<Ref>, l1: multiset<Ref>, l2: multiset<Ref>, m: int, n: int, total: int)
    requires Added(l0, l1, m) && Added(l1, l2, n) && total == m + n
    ensures Added(l0, l2, total)
  {
  }

  lemma AddedResult(l0: multiset<Ref>, l1: multiset<Ref>, part: Ref, r: Ref, n: int)
    requires Added(l0 + multiset{part}, l1, n)
    ensures Added(l0 + multiset{r}, l1 + multiset{r}, n + 1)
  {
  }

  lemma AddedPart(l: multiset<Ref>, part: Ref, r: Ref)
    ensures Added(l + multiset{r}, l + multiset{part} + multiset{r}, 1)
  {
  }

  lemma WeightOfArray(v: Value, n: nat, c: Costs)
    requires v.Arr? && n == |v.elems|
    ensures Weight(v, c) == WeightOfAll(v.elems[..n], c) + c.arr
  {
    assert v.elems[..n] == v.elems;
  }

  lemma WeightOfDict(v: Value, c: Costs)
    requires v.Dict?
    ensures Weight(v, c) == WeightOfKeys(v, v.entries.Keys, c) + c.dict
    ensures WeightOfKeys(v, {}, c) == 0
  {
  }

  // ---- Fresh parts of the heap ----

  lemma ExtendsKeeps(h: Heap, h': Heap, r: Ref)
    requires Extends(h, h') && r in h
    ensures r in h' && h'[r] == h[r]
  {
  }

  /** Storing to an object that is not old. */
  lemma FreshUpdate(h: Heap, h1: Heap, nullInstance: Ref, r: Ref, o: Obj)
    requires Extends(h, h1) && r !in h && nullInstance in h
    ensures Extends(h, h1[r := o])
    ensures Fresh(h, h1[r := o], nullInstance) == Fresh(h, h1, nullInstance)[r := o]
  {
  }

  lemma FreshGrows(h: Heap, h1: Heap, h2: Heap, nullInstance: Ref)
    requires Extends(h, h1) && Extends(h1, h2) && nullInstance in h
    ensures Extends(h, h2)
    ensures Fresh(h, h2, nullInstance) == Fresh(h, h1, nullInstance) + Fresh(h1, h2, nullInstance)
    ensures Extends(Fresh(h, h1, nullInstance), Fresh(h, h2, nullInstance))
  {
  }

  lemma FreshNothing(h: Heap, nullInstance: Ref)
    requires nullInstance in h && h[nullInstance] == JSNullValue
    ensures Extends(h, h) && Closed(Fresh(h, h, nullInstance))
    ensures Fresh(h, h, nullInstance) == map[nullInstance := JSNullValue]
  {
  }

  lemma ClosedUpdate(f: Heap, r: Ref, o: Obj)
    requires Closed(f) && Pointers(o) <= f.Keys + {r}
    ensures Closed(f[r := o])
  {
  }

  lemma ClosedUnion(f: Heap, g: Heap)
    requires Closed(f) && Closed(g)
    ensures Closed(f + g)
  {
  }

  /** Creating an object that refers to nothing old but the null object. */
  lemma NewObject(h: Heap, h1: Heap, nullInstance: Ref, r: Ref, o: Obj)
    requires Extends(h, h1) && Closed(Fresh(h, h1, nullInstance)) && nullInstance in h && r !in h
    requires Pointers(o) <= Fresh(h, h1, nullInstance).Keys
    ensures Extends(h, h1[r := o])
    ensures Fresh(h, h1[r := o], nullInstance) == Fresh(h, h1, nullInstance)[r := o]
    ensures Closed(Fresh(h, h1[r := o], nullInstance))
  {
    FreshUpdate(h, h1, nullInstance, r, o);
    hide Extends, Fresh, Closed;
    ClosedUpdate(Fresh(h, h1, nullInstance), r, o);
  }

  lemma WrittenNull(h: Heap, nullInstance: Ref)
    requires nullInstance in h && h[nullInstance] == JSNullValue
    ensures Written(h, h, nullInstance, nullInstance, Null)
  {
    FreshNothing(h, nullInstance);
  }

  lemma WrittenLeaf(h: Heap, h': Heap, nullInstance: Ref, r: Ref, v: Value)
    requires nullInstance in h && h[nullInstance] == JSNullValue && r !in h
    requires v.Bool? || v.Num?
    requires h' == h[r := if v.Bool? then JSBooleanValue(v.flag) else JSDoubleValue(v.bits)]
    ensures Written(h, h', nullInstance, r, v)
  {
    hide Extends, Fresh, Closed;
    FreshNothing(h, nullInstance);
    NewObject(h, h, nullInstance, r, h'[r]);
  }

  lemma WrittenWithPart(h: Heap, h1: Heap, h2: Heap, nullInstance: Ref, part: Ref, r: Ref, v: Value)
    requires nullInstance in h && h[nullInstance] == JSNullValue && part !in h && r !in h1
    requires v.Str? || v.Bytes?
    requires h1 == h[part := if v.Str? then JString(v.chars) else ByteArray(ToJBytes(v.bytes))]
    requires h2 == h1[r := if v.Str? then JSStringValue(part) else JSByteArrayValue(part)]
    ensures Written(h, h2, nullInstance, r, v)
  {
    hide Extends, Fresh, Closed, ToJBytes;
    FreshNothing(h, nullInstance);
    NewObject(h, h, nullInstance, part, h1[part]);
    NewObject(h, h1, nullInstance, r, h2[r]);
  }

  // ---- Arrays ----

  /** The first `i` elements are written, and what they unfold to does not involve the array itself. */
  ghost predicate ArrayPart(f: Heap, nullInstance: Ref, arr: Ref, elems: seq<Value>, i: nat)
    requires i <= |elems|
  {
    && Closed(f)
    && arr in f && f[arr].ObjectArray? && |f[arr].slots| == |elems|
    && forall j :: 0 <= j < i ==>
         f[arr].slots[j].Some? && Renders(f - {arr}, nullInstance, f[arr].slots[j].value, elems[j])
  }

  lemma ArrayStart(h: Heap, h1: Heap, nullInstance: Ref, arr: Ref, elems: seq<Value>)
    requires nullInstance in h && h[nullInstance] == JSNullValue && arr !in h
    requires h1 == h[arr := ObjectArray(seq(|elems|, _ => None))]
    ensures Extends(h, h1) && ArrayPart(Fresh(h, h1, nullInstance), nullInstance, arr, elems, 0)
  {
    FreshNothing(h, nullInstance);
    FreshUpdate(h, h, nullInstance, arr, h1[arr]);
    ClosedUpdate(Fresh(h, h, nullInstance), arr, h1[arr]);
  }

  lemma ArrayStep(h: Heap, h1: Heap, h2: Heap, h3: Heap, nullInstance: Ref, arr: Ref,
                  elems: seq<Value>, i: nat, child: Ref)
    requires nullInstance in h && arr in h1 && arr !in h && i < |elems|
    requires Extends(h, h1) && ArrayPart(Fresh(h, h1, nullInstance), nullInstance, arr, elems, i)
    requires Written(h1, h2, nullInstance, child, elems[i])
    requires arr in h2 && h2[arr].ObjectArray? && |h2[arr].slots| == |elems|
    requires h3 == h2[arr := ObjectArray(h2[arr].slots[i := Some(child)])]
    ensures Extends(h, h3) && ArrayPart(Fresh(h, h3, nullInstance), nullInstance, arr, elems, i + 1)
  {
    hide Renders, Closed;
    var f, g := Fresh(h, h1, nullInstance), Fresh(h1, h2, nullInstance);
    FreshGrows(h, h1, h2, nullInstance);
    FreshUpdate(h, h2, nullInstance, arr, h3[arr]);
    assert arr !in g && arr != nullInstance;
    assert (f + g)[arr] == f[arr];
    ArrayPartGrows(f, g, nullInstance, arr, elems, i, child);
  }

  lemma ArrayPartGrows(f: Heap, g: Heap, nullInstance: Ref, arr: Ref, elems: seq<Value>, i: nat, child: Ref)
    requires i < |elems| && ArrayPart(f, nullInstance, arr, elems, i)
    requires Tree(g, nullInstance, child, elems[i]) && arr !in g && Extends(f, f + g)
    ensures ArrayPart((f + g)[arr := ObjectArray(f[arr].slots[i := Some(child)])], nullInstance, arr, elems, i + 1)
  {
    var slots := f[arr].slots[i := Some(child)];
    var f' := (f + g)[arr := ObjectArray(slots)];
    ClosedUnion(f, g);
    assert child in g;
    SlotsClosed(f, arr, i, child, f'.Keys);
    ClosedUpdate(f + g, arr, ObjectArray(slots));
    assert Extends(f - {arr}, f' - {arr}) && Extends(g, f' - {arr});
    RendersInLarger(g, f' - {arr}, nullInstance, child, elems[i]);
    forall j | 0 <= j < i ensures Renders(f' - {arr}, nullInstance, slots[j].value, elems[j]) {
      RendersInLarger(f - {arr}, f' - {arr}, nullInstance, slots[j].value, elems[j]);
    }
  }

  lemma SlotsClosed(f: Heap, arr: Ref, i: nat, child: Ref, keys: set<Ref>)
    requires Closed(f) && arr in f && f[arr].ObjectArray? && i < |f[arr].slots|
    requires f.Keys <= keys && child in keys
    ensures Pointers(ObjectArray(f[arr].slots[i := Some(child)])) <= keys
  {
    var slots := f[arr].slots;
    var slots' := slots[i := Some(child)];
    forall j | 0 <= j < |slots'| && slots'[j].Some? ensures slots'[j].value in keys {
      if j != i {
        assert slots[j].value in Pointers(f[arr]);
      }
    }
  }

  lemma ArrayDone(h: Heap, h3: Heap, h4: Heap, nullInstance: Ref, arr: Ref, r: Ref, v: Value)
    requires v.Arr? && nullInstance in h && r !in h3 && r !in h
    requires Extends(h, h3) && ArrayPart(Fresh(h, h3, nullInstance), nullInstance, arr, v.elems, |v.elems|)
    requires h4 == h3[r := JSArrayValue(arr)]
    ensures Written(h, h4, nullInstance, r, v)
  {
    FreshInside(h, h3, nullInstance, r);
    hide Extends, Fresh, Closed, Renders;
    NewObject(h, h3, nullInstance, r, JSArrayValue(arr));
    ArrayPartRenders(Fresh(h, h3, nullInstance), nullInstance, arr, r, v);
  }

  lemma ArrayPartRenders(f: Heap, nullInstance: Ref, arr: Ref, r: Ref, v: Value)
    requires v.Arr? && ArrayPart(f, nullInstance, arr, v.elems, |v.elems|) && r !in f
    ensures Renders(f[r := JSArrayValue(arr)], nullInstance, r, v)
  {
    hide Closed;
    var f' := f[r := JSArrayValue(arr)];
    assert Extends(f - {arr}, f');
    hide Extends;
    forall j | 0 <= j < |v.elems| ensures Renders(f', nullInstance, f[arr].slots[j].value, v.elems[j]) {
      RendersInLarger(f - {arr}, f', nullInstance, f[arr].slots[j].value, v.elems[j]);
    }
  }

  // ---- Maps ----

  lemma KeysStep(keys: set<U16String>, todo: set<U16String>, k: U16String)
    requires k in todo && todo <= keys
    ensures keys - todo + {k} == keys - (todo - {k})
  {
  }

  /** All keys but `todo` are written. */
  ghost predicate MapPart(f: Heap, nullInstance: Ref, m: Ref, v: Value, todo: set<U16String>)
    requires v.Dict?
  {
    && Closed(f)
    && m in f && f[m].HashMap? && f[m].table.Keys == v.entries.Keys - todo
    && TableFits(f - {m}, nullInstance, f[m].table, v.entries)
  }

  /** Every binding of the table has its key's text and an object that unfolds to the entry. */
  ghost predicate TableFits(e: Heap, nullInstance: Ref, table: map<U16String, Binding>,
                            entries: map<U16String, Value>)
  {
    forall k :: k in table ==>
      k in entries && KeyFits(e, table[k], k) && Renders(e, nullInstance, table[k].value, entries[k])
  }

  lemma MapStart(h: Heap, h1: Heap, nullInstance: Ref, m: Ref, v: Value)
    requires v.Dict? && nullInstance in h && h[nullInstance] == JSNullValue && m !in h
    requires h1 == h[m := HashMap(map[])]
    ensures Extends(h, h1) && MapPart(Fresh(h, h1, nullInstance), nullInstance, m, v, v.entries.Keys)
  {
    FreshNothing(h, nullInstance);
    FreshUpdate(h, h, nullInstance, m, h1[m]);
    ClosedUpdate(Fresh(h, h, nullInstance), m, h1[m]);
  }

  lemma MapStep(h: Heap, h1: Heap, h2: Heap, h3: Heap, h4: Heap, nullInstance: Ref, m: Ref, v: Value,
                todo: set<U16String>, k: U16String, str: Ref, child: Ref)
    requires v.Dict? && k in todo && todo <= v.entries.Keys
    requires nullInstance in h && m in h1 && m !in h && str !in h1
    requires Extends(h, h1) && MapPart(Fresh(h, h1, nullInstance), nullInstance, m, v, todo)
    requires h2 == h1[str := JString(k)]
    requires Written(h2, h3, nullInstance, child, v.entries[k])
    requires m in h3 && h3[m] == h1[m] && h1[m].HashMap?
    requires h4 == h3[m := HashMap(h1[m].table[k := Binding(str, child)])]
    ensures m in h4 && h4[m].HashMap? && h4[m].table.Keys == h1[m].table.Keys + {k}
    ensures Extends(h, h4) && MapPart(Fresh(h, h4, nullInstance), nullInstance, m, v, todo - {k})
  {
    hide Renders, Closed, TableFits;
    var f := Fresh(h, h1, nullInstance);
    var f2, g := f[str := JString(k)], Fresh(h2, h3, nullInstance);
    assert str !in h by { ExtendsKeepsOut(h, h1, str); }
    FreshUpdate(h, h1, nullInstance, str, JString(k));
    FreshGrows(h, h2, h3, nullInstance);
    FreshUpdate(h, h3, nullInstance, m, h4[m]);
    assert m !in g && str !in g && m != nullInstance && str != m;
    assert (f2 + g)[m] == f[m];
    MapPartGrows(f, g, nullInstance, m, v, todo, k, str, child);
  }

  lemma ExtendsKeepsOut(h: Heap, h1: Heap, r: Ref)
    requires Extends(h, h1) && r !in h1
    ensures r !in h
  {
  }

  lemma MapPartGrows(f: Heap, g: Heap, nullInstance: Ref, m: Ref, v: Value,
                     todo: set<U16String>, k: U16String, str: Ref, child: Ref)
    requires v.Dict? && k in todo && todo <= v.entries.Keys && MapPart(f, nullInstance, m, v, todo)
    requires str !in f && str !in g && m !in g && Extends(f, f + g)
    requires Tree(g, nullInstance, child, v.entries[k])
    ensures var f' := (f[str := JString(k)] + g)[m := HashMap(f[m].table[k := Binding(str, child)])];
      MapPart(f', nullInstance, m, v, todo - {k})
  {
    var b := Binding(str, child);
    var f' := (f[str := JString(k)] + g)[m := HashMap(f[m].table[k := b])];
    var e, e' := f - {m}, f' - {m};
    MapPartClosed(f, g, nullInstance, m, k, b, v.entries[k]);
    PartsExtend(f, g, m, k, b);
    hide Closed, Renders, Extends, TableFits, KeyFits;
    RendersInLarger(g, e', nullInstance, child, v.entries[k]);
    TableFitsInLarger(e, e', nullInstance, f[m].table, v.entries);
    TableFitsStep(e', nullInstance, f[m].table, v.entries, k, b);
    KeysStep(v.entries.Keys, todo, k);
  }

  lemma PartsExtend(f: Heap, g: Heap, m: Ref, k: U16String, b: Binding)
    requires b.key !in f && b.key !in g && m in f && f[m].HashMap? && m !in g && Extends(f, f + g)
    ensures var e' := (f[b.key := JString(k)] + g)[m := HashMap(f[m].table[k := b])] - {m};
      Extends(f - {m}, e') && Extends(g, e') && KeyFits(e', b, k)
  {
  }

  lemma TableFitsStep(e: Heap, nullInstance: Ref, table: map<U16String, Binding>,
                      entries: map<U16String, Value>, k: U16String, b: Binding)
    requires TableFits(e, nullInstance, table, entries)
    requires k in entries && KeyFits(e, b, k) && Renders(e, nullInstance, b.value, entries[k])
    ensures TableFits(e, nullInstance, table[k := b], entries)
  {
    hide Renders, KeyFits;
  }

  lemma MapPartClosed(f: Heap, g: Heap, nullInstance: Ref, m: Ref, k: U16String, b: Binding, w: Value)
    requires Closed(f) && Tree(g, nullInstance, b.value, w) && m in f && f[m].HashMap?
    ensures Closed((f[b.key := JString(k)] + g)[m := HashMap(f[m].table[k := b])])
  {
    hide Closed, Renders;
    var f2 := f[b.key := JString(k)];
    ClosedUpdate(f, b.key, JString(k));
    ClosedUnion(f2, g);
    RendersPresent(g, nullInstance, b.value, w);
    TableClosed(f, m, k, b, (f2 + g).Keys);
    ClosedUpdate(f2 + g, m, HashMap(f[m].table[k := b]));
  }

  lemma TableFitsInLarger(e: Heap, e': Heap, nullInstance: Ref, table: map<U16String, Binding>,
                          entries: map<U16String, Value>)
    requires Extends(e, e') && TableFits(e, nullInstance, table, entries)
    ensures TableFits(e', nullInstance, table, entries)
  {
    hide Renders;
    forall k | k in table ensures KeyFits(e', table[k], k) && Renders(e', nullInstance, table[k].value, entries[k]) {
      RendersInLarger(e, e', nullInstance, table[k].value, entries[k]);
    }
  }

  lemma RendersPresent(h: Heap, nullInstance: Ref, r: Ref, v: Value)
    requires Renders(h, nullInstance, r, v)
    ensures r in h
  {
  }

  lemma TableClosed(f: Heap, m: Ref, k: U16String, b: Binding, keys: set<Ref>)
    requires Closed(f) && m in f && f[m].HashMap?
    requires f.Keys <= keys && b.key in keys && b.value in keys
    ensures Pointers(HashMap(f[m].table[k := b])) <= keys
  {
    var table := f[m].table;
    forall j | j in table ensures table[j].key in keys && table[j].value in keys {
      assert table[j].key in Pointers(f[m]) && table[j].value in Pointers(f[m]);
    }
  }

  lemma MapDone(h: Heap, h5: Heap, h6: Heap, nullInstance: Ref, m: Ref, r: Ref, v: Value)
    requires v.Dict? && nullInstance in h && r !in h5 && r !in h
    requires Extends(h, h5) && MapPart(Fresh(h, h5, nullInstance), nullInstance, m, v, {})
    requires h6 == h5[r := JSMapValue(m)]
    ensures Written(h, h6, nullInstance, r, v)
  {
    FreshInside(h, h5, nullInstance, r);
    hide Extends, Fresh, Closed, Renders;
    NewObject(h, h5, nullInstance, r, JSMapValue(m));
    MapPartRenders(Fresh(h, h5, nullInstance), nullInstance, m, r, v);
  }

  lemma FreshInside(h: Heap, h': Heap, nullInstance: Ref, r: Ref)
    requires r !in h'
    ensures r !in Fresh(h, h', nullInstance)
  {
  }

  lemma MapPartRenders(f: Heap, nullInstance: Ref, m: Ref, r: Ref, v: Value)
    requires v.Dict? && MapPart(f, nullInstance, m, v, {}) && r !in f
    ensures Renders(f[r := JSMapValue(m)], nullInstance, r, v)
  {
    hide Closed;
    var f' := f[r := JSMapValue(m)];
    assert Extends(f - {m}, f');
    hide Extends;
    TableFitsInLarger(f - {m}, f', nullInstance, f[m].table, v.entries);
  }

  // ---- fromJVM ----

  /**
   Reads the object graph below `obj`, which must have no cycle. `base` is the heap in which the
   graph was given; reading allocates, so the current heap may have more objects.
   */
  method FromJVM(env: Env, obj: Ref, ghost base: Heap) returns (v: Value)
    requires env.Valid() && Extends(base, env.heap) && Acyclic(base, obj)
    modifies env
    ensures env.Valid() && Extends(old(env.heap), env.heap)
    ensures Denotes(base, obj, v)
    ensures Added(old(env.live), env.live, Weight(v, LEFT_BY_FROM_JVM))
    decreases Height(base, obj), 2
  {
    ghost var l := env.live;
    AcyclicWellFormed(base, env.heap, obj);
    LeafDenotes(base, obj);
    hide Extends, Acyclic, Added, Height, Denotes;
    ExtendsSelf(env.heap);
    AddedNone(l);
    var o := env.heap[obj];
    if o.JSStringValue? {
      env.Local(o.value);
      AddedOne(l, o.value, 0);
      v := Str(env.heap[o.value].chars);
    } else if o.JSBooleanValue? {
      v := Bool(o.flag);
    } else if o.JSDoubleValue? {
      v := Num(o.bits);
    } else if o.JSArrayValue? {
      v := ArrayFromJVM(env, obj, base);
    } else if o.JSByteArrayValue? {
      env.Local(o.value);
      AddedOne(l, o.value, 0);
      v := Bytes(FromJBytes(env.heap[o.value].jbytes));
    } else if o.JSMapValue? {
      v := MapFromJVM(env, obj, base);
    } else {
      v := Null;
    }
  }

  method ArrayFromJVM(env: Env, obj: Ref, ghost base: Heap) returns (v: Value)
    requires env.Valid() && Extends(base, env.heap) && Acyclic(base, obj)
    requires obj in base && base[obj].JSArrayValue?
    modifies env
    ensures env.Valid() && Extends(old(env.heap), env.heap)
    ensures Denotes(base, obj, v)
    ensures Added(old(env.live), env.live, Weight(v, LEFT_BY_FROM_JVM))
    decreases Height(base, obj), 1
  {
    ghost var h, l := env.heap, env.live;
    ghost var tree := ArrayTree(base, obj);
    AcyclicWellFormed(base, env.heap, obj);
    hide Extends, Acyclic, Added, Height, Denotes, Weight, WeightOfAll;
    ExtendsSelf(h);
    var arr := env.heap[obj].value;
    env.Local(arr);
    AddedNone(l);
    AddedOne(l, arr, 0);
    WeightOfNone(tree.elems, LEFT_BY_FROM_JVM);
    var slots := env.heap[arr].slots;
    ghost var left := 1;
    var res: seq<Value> := [];
    var i := 0;
    while i < |slots|
      invariant 0 <= i <= |slots| && env.Valid()
      invariant Extends(h, env.heap) && Extends(base, env.heap)
      invariant res == tree.elems[..i]
      invariant Added(l, env.live, left) && left == 1 + WeightOfAll(tree.elems[..i], LEFT_BY_FROM_JVM)
    {
      ghost var h1, l1 := env.heap, env.live;
      var child, w := ReadElement(env, slots[i].value, base, obj, tree.elems[i]);
      ExtendsTransitive(h, h1, env.heap);
      ExtendsTransitive(base, h1, env.heap);
      ghost var total := left + w;
      AddedTogether(l, l1, env.live, left, w, total);
      WeightOfPrefix(tree.elems, i, LEFT_BY_FROM_JVM);
      left := total;
      PrefixStep(tree.elems, i);
      res := res + [child];
      i := i + 1;
    }
    WeightOfArray(tree, i, LEFT_BY_FROM_JVM);
    AllOf(tree.elems, i);
    v := Arr(res);
  }

  method MapFromJVM(env: Env, obj: Ref, ghost base: Heap) returns (v: Value)
    requires env.Valid() && Extends(base, env.heap) && Acyclic(base, obj)
    requires obj in base && base[obj].JSMapValue?
    modifies env
    ensures env.Valid() && Extends(old(env.heap), env.heap)
    ensures Denotes(base, obj, v)
    ensures Added(old(env.live), env.live, Weight(v, LEFT_BY_FROM_JVM))
    decreases Height(base, obj), 1
  {
    ghost var h, l := env.heap, env.live;
    ghost var tree := MapTree(base, obj);
    AcyclicWellFormed(base, env.heap, obj);
    hide Extends, Acyclic, Added, Height, Denotes, Weight, WeightOfKeys, Enumerates, WellFormed, ReadSoFar;
    var m := env.heap[obj].value;
    ghost var table := env.heap[m].table;
    var arr, names := KeysOf(env, m);
    ExtendsTransitive(base, h, env.heap);
    var slots := env.heap[arr].slots;
    ghost var left, todo := 3, table.Keys;
    var res: map<U16String, Value> := map[];
    EnumeratesStart(names, todo);
    ReadNothing(tree);
    var i := 0;
    while i < |slots|
      invariant 0 <= i <= |slots| && env.Valid()
      invariant Extends(h, env.heap) && Extends(base, env.heap)
      invariant todo <= table.Keys && Enumerates(names[i..], todo)
      invariant ReadSoFar(res, tree, todo)
      invariant Added(l, env.live, left)
      invariant left + WeightOfKeys(tree, todo, LEFT_BY_FROM_JVM)
        == 3 + WeightOfKeys(tree, table.Keys, LEFT_BY_FROM_JVM)
    {
      ghost var h1, l1, k := env.heap, env.live, names[i];
      EnumeratesStep(names[i..], todo);
      MapEntry(base, env.heap, obj, tree, k);
      var name, child, w := ReadEntry(env, m, slots[i].value, base, obj, k, tree.entries[k]);
      ExtendsTransitive(h, h1, env.heap);
      ExtendsTransitive(base, h1, env.heap);
      WeightOfKey(tree, todo, k, LEFT_BY_FROM_JVM);
      ReadOneMore(res, tree, todo, k);
      res := res[name := child];
      ghost var total := left + w;
      AddedTogether(l, l1, env.live, left, w, total);
      left := total;
      todo := todo - {k};
      DropStep(names, i);
      i := i + 1;
    }
    EnumeratesEnd(names[i..], todo);
    ReadAll(res, tree);
    WeightOfDict(tree, LEFT_BY_FROM_JVM);
    v := Dict(res);
  }

  /** One round of the loop over the elements of an array. */
  method ReadElement(env: Env, ele: Ref, ghost base: Heap, ghost obj: Ref, ghost expected: Value)
    returns (child: Value, ghost w: nat)
    requires env.Valid() && Extends(base, env.heap) && Acyclic(base, obj)
    requires WellFormed(base, obj) && ele in Children(base, obj) && Denotes(base, ele, expected)
    modifies env
    ensures env.Valid() && Extends(old(env.heap), env.heap)
    ensures child == expected
    ensures w == Weight(child, LEFT_BY_FROM_JVM) && Added(old(env.live), env.live, w)
    decreases Height(base, obj), 0
  {
    hide Extends, Acyclic, Height, WellFormed, Children, Denotes, Added, Weight;
    ghost var l := env.live;
    env.Local(ele);
    ChildAcyclic(base, obj, ele);
    child := FromJVM(env, ele, base);
    DenotesUnique(base, ele, child, expected);
    w := Weight(child, LEFT_BY_FROM_JVM);
    AddedAround(l, env.live, ele, w);
    env.DeleteLocalRef(ele);
  }

  /** The map object of a map value, its key set, and the array of its keys: three local references. */
  method KeysOf(env: Env, m: Ref) returns (arr: Ref, ghost names: seq<U16String>)
    requires env.Valid() && m in env.heap && env.heap[m].HashMap?
    modifies env
    ensures env.Valid() && Extends(old(env.heap), env.heap)
    ensures var table := old(env.heap)[m].table;
      && Enumerates(names, table.Keys)
      && arr in env.heap && env.heap[arr].ObjectArray? && |env.heap[arr].slots| == |names|
      && forall i :: 0 <= i < |names| ==> env.heap[arr].slots[i] == Some(table[names[i]].key)
    ensures Added(old(env.live), env.live, 3)
  {
    env.Local(m);
    var keySet := env.New(KeySet(m));
    arr, names := env.ToArray(keySet);
  }

  /** One round of the loop over the keys of a map. */
  method ReadEntry(env: Env, m: Ref, key: Ref, ghost base: Heap, ghost obj: Ref,
                   ghost k: U16String, ghost expected: Value)
    returns (name: U16String, child: Value, ghost w: nat)
    requires env.Valid() && Extends(base, env.heap) && Acyclic(base, obj)
    requires m in env.heap && env.heap[m].HashMap? && k in env.heap[m].table
    requires key in env.heap && env.heap[key] == JString(k)
    requires WellFormed(base, obj) && env.heap[m].table[k].value in Children(base, obj)
    requires Denotes(base, env.heap[m].table[k].value, expected)
    modifies env
    ensures env.Valid() && Extends(old(env.heap), env.heap)
    ensures name == k && child == expected
    ensures w == Weight(child, LEFT_BY_FROM_JVM) && Added(old(env.live), env.live, w)
    decreases Height(base, obj), 0
  {
    hide Extends, Acyclic, Height, WellFormed, Children, Denotes, Added, Weight;
    ghost var l := env.live;
    env.Local(key);
    name := env.heap[key].chars;
    var value := env.Get(m, key);
    ChildAcyclic(base, obj, value);
    child := FromJVM(env, value, base);
    DenotesUnique(base, value, child, expected);
    w := Weight(child, LEFT_BY_FROM_JVM);
    ghost var l3 := env.live;
    assert l + multiset{key} + multiset{value} == l + multiset{value} + multiset{key};
    AddedAround(l + multiset{value}, l3, key, w);
    env.DeleteLocalRef(key);
    ghost var l4 := env.live;
    AddedAround(l, l4, value, w);
    env.DeleteLocalRef(value);
  }

  lemma AddedOne(l: multiset<Ref>, r: Ref, n: nat)
    ensures forall l': multiset<Ref> :: Added(l, l', n) ==> Added(l, l' + multiset{r}, n + 1)
  {
  }

  lemma AddedAround(l: multiset<Ref>, l': multiset<Ref>, r: Ref, n: int)
    requires Added(l + multiset{r}, l', n)
    ensures r in l' && Added(l, l' - multiset{r}, n)
  {
    AddedPresent(l, l', r, n);
    AddedDelete(l, l', l' - multiset{r}, r, n);
  }

  lemma ExtendsSelf(h: Heap)
    ensures Extends(h, h)
  {
  }

  lemma ExtendsTransitive(h: Heap, h1: Heap, h2: Heap)
    requires Extends(h, h1) && Extends(h1, h2)
    ensures Extends(h, h2)
  {
  }

  /** The map read so far has all entries but those of `todo`. */
  ghost predicate ReadSoFar(res: map<U16String, Value>, tree: Value, todo: set<U16String>)
    requires tree.Dict?
  {
    res.Keys == tree.entries.Keys - todo && forall k :: k in res ==> res[k] == tree.entries[k]
  }

  lemma ReadNothing(tree: Value)
    requires tree.Dict?
    ensures ReadSoFar(map[], tree, tree.entries.Keys)
  {
  }

  lemma ReadOneMore(res: map<U16String, Value>, tree: Value, todo: set<U16String>, k: U16String)
    requires tree.Dict? && ReadSoFar(res, tree, todo) && k in todo && todo <= tree.entries.Keys
    ensures ReadSoFar(res[k := tree.entries[k]], tree, todo - {k})
  {
    KeysStep(tree.entries.Keys, todo, k);
  }

  lemma ReadAll(res: map<U16String, Value>, tree: Value)
    requires tree.Dict? && ReadSoFar(res, tree, {})
    ensures res == tree.entries
  {
  }

  lemma EnumeratesStart<T>(names: seq<T>, s: set<T>)
    requires Enumerates(names, s)
    ensures names[0..] == names
  {
  }

  lemma DropStep<T>(names: seq<T>, i: nat)
    requires i < |names|
    ensures names[i..][0] == names[i]
    ensures names[i..][1..] == names[i + 1..]
  {
  }

  lemma EnumeratesStep<T>(names: seq<T>, s: set<T>)
    requires names != [] && Enumerates(names, s)
    ensures names[0] in s && Enumerates(names[1..], s - {names[0]})
  {
    forall k | k in s - {names[0]} ensures k in names[1..] {
      var i :| 0 <= i < |names| && names[i] == k;
      assert names[1..][i - 1] == k;
    }
  }

  lemma EnumeratesEnd<T>(names: seq<T>, s: set<T>)
    requires names == [] && Enumerates(names, s)
    ensures s == {}
  {
  }

  lemma AcyclicWellFormed(base: Heap, h: Heap, obj: Ref)
    requires Extends(base, h) && Acyclic(base, obj)
    ensures WellFormed(base, obj) && WellFormed(h, obj) && h[obj] == base[obj]
    ensures base[obj].JSStringValue? || base[obj].JSArrayValue? || base[obj].JSByteArrayValue? || base[obj].JSMapValue?
      ==> base[obj].value in base && base[obj].value in h && h[base[obj].value] == base[base[obj].value]
  {
    assert Chain(base, [obj]) && [obj][0] == obj;
    assert WellFormed(base, obj);
  }

  /** What an array value without a cycle below it stands for. */
  lemma ArrayTree(base: Heap, obj: Ref) returns (tree: Value)
    requires Acyclic(base, obj) && obj in base && base[obj].JSArrayValue?
    ensures WellFormed(base, obj) && Denotes(base, obj, tree) && tree.Arr?
    ensures var slots := base[base[obj].value].slots;
      && |tree.elems| == |slots|
      && forall i :: 0 <= i < |slots| ==>
           slots[i].value in Children(base, obj) && Denotes(base, slots[i].value, tree.elems[i])
  {
    UnfoldsIffAcyclic(base, obj);
    ExtendsSelf(base);
    AcyclicWellFormed(base, base, obj);
    tree := TreeOf(base, obj);
  }

  /** What a map value without a cycle below it stands for. */
  lemma MapTree(base: Heap, obj: Ref) returns (tree: Value)
    requires Acyclic(base, obj) && obj in base && base[obj].JSMapValue?
    ensures WellFormed(base, obj) && Denotes(base, obj, tree) && tree.Dict?
    ensures tree.entries.Keys == base[base[obj].value].table.Keys
  {
    UnfoldsIffAcyclic(base, obj);
    ExtendsSelf(base);
    AcyclicWellFormed(base, base, obj);
    tree := TreeOf(base, obj);
  }

  lemma MapEntry(base: Heap, h: Heap, obj: Ref, tree: Value, k: U16String)
    requires Extends(base, h) && WellFormed(base, obj) && base[obj].JSMapValue?
    requires tree.Dict? && Denotes(base, obj, tree) && k in base[base[obj].value].table
    ensures var b := base[base[obj].value].table[k];
      && b.key in h && h[b.key] == JString(k)
      && b.value in Children(base, obj) && Denotes(base, b.value, tree.entries[k])
    ensures base[obj].value in h && h[base[obj].value] == base[base[obj].value]
  {
  }

  lemma AllOf<T>(xs: seq<T>, n: nat)
    requires n == |xs|
    ensures xs[..n] == xs
  {
  }

  lemma PrefixStep<T>(xs: seq<T>, i: nat)
    requires i < |xs|
    ensures xs[..i] + [xs[i]] == xs[..i + 1]
  {
  }
}
