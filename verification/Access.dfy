/**
 The same values seen by access paths: what a script finds by indexing into a native value, and what
 Java code finds by following references from an object, agree at every path.
 */
module Access {
  import opened JsValue
  import opened Jvm
  import opened Denotation
  import opened JvmConversion

  datatype Step = At(index: nat) | Key(key: U16String)

  /** The native value at a path. */
  function Get(v: Value, path: seq<Step>): Option<Value> {
    if path == [] then Some(v)
    else
      match path[0]
      case At(i) => if v.Arr? && i < |v.elems| then Get(v.elems[i], path[1..]) else None
      case Key(k) => if v.Dict? && k in v.entries then Get(v.entries[k], path[1..]) else None
  }

  /** The Java object at a path. */
  function Find(h: Heap, r: Ref, path: seq<Step>): Option<Ref>
    decreases path
  {
    if r !in h then None
    else if path == [] then Some(r)
    else
      var part := if h[r].JSArrayValue? || h[r].JSMapValue? then h[r].value else r;
      if part !in h then None
      else
        match path[0]
        case At(i) =>
          if h[r].JSArrayValue? && h[part].ObjectArray? && i < |h[part].slots| && h[part].slots[i].Some?
          then Find(h, h[part].slots[i].value, path[1..])
          else None
        case Key(k) =>
          if h[r].JSMapValue? && h[part].HashMap? && k in h[part].table
          then Find(h, h[part].table[k].value, path[1..])
          else None
  }

  /** What can be told from one object and its own parts, without looking into contained values. */
  predicate Shows(h: Heap, r: Ref, v: Value) {
    r in h &&
    match h[r]
    case JSStringValue(s) => s in h && h[s].JString? && v == Str(h[s].chars)
    case JSBooleanValue(flag) => v == Bool(flag)
    case JSDoubleValue(bits) => v == Num(bits)
    case JSArrayValue(a) =>
      && a in h && h[a].ObjectArray? && v.Arr? && |v.elems| == |h[a].slots|
      && forall i :: 0 <= i < |v.elems| ==> h[a].slots[i].Some?
    case JSByteArrayValue(b) =>
      && b in h && h[b].ByteArray? && v.Bytes? && |v.bytes| == |h[b].jbytes|
      && forall i :: 0 <= i < |v.bytes| ==>
           h[b].jbytes[i] as int == if v.bytes[i] < 128 then v.bytes[i] as int else v.bytes[i] as int - 256
    case JSMapValue(m) =>
      && m in h && h[m].HashMap? && v.Dict? && v.entries.Keys == h[m].table.Keys
      && forall k :: k in v.entries ==> var key := h[m].table[k].key; key in h && h[key] == JString(k)
    case _ => v == Null
  }

  /** Either both sides have nothing at the path, or the object found shows the value found. */
  predicate AgreeAt(h: Heap, r: Ref, v: Value, path: seq<Step>) {
    var native, java := Get(v, path), Find(h, r, path);
    && (native.None? <==> java.None?)
    && (native.Some? && java.Some? ==> Shows(h, java.value, native.value))
  }

  lemma {:induction false} DenotesAgrees(h: Heap, r: Ref, v: Value, path: seq<Step>)
    requires Denotes(h, r, v)
    ensures AgreeAt(h, r, v, path)
    decreases path
  {
    if path == [] {
    } else if v.Arr? && path[0].At? && path[0].index < |v.elems| {
      DenotesAgrees(h, h[h[r].value].slots[path[0].index].value, v.elems[path[0].index], path[1..]);
    } else if v.Dict? && path[0].Key? && path[0].key in v.entries {
      DenotesAgrees(h, h[h[r].value].table[path[0].key].value, v.entries[path[0].key], path[1..]);
    } else {
      assert Get(v, path) == None;
    }
  }

  lemma {:induction false} AgreesDenotes(h: Heap, r: Ref, v: Value)
    requires forall path :: AgreeAt(h, r, v, path)
    ensures Denotes(h, r, v)
    decreases v
  {
    assert AgreeAt(h, r, v, []);
    match v
    case Arr(elems) =>
      forall i | 0 <= i < |elems| ensures Denotes(h, h[h[r].value].slots[i].value, elems[i]) {
        AgreesBelow(h, r, v, At(i), h[h[r].value].slots[i].value, elems[i]);
        AgreesDenotes(h, h[h[r].value].slots[i].value, elems[i]);
      }
    case Dict(entries) =>
      forall k | k in entries ensures Denotes(h, h[h[r].value].table[k].value, entries[k]) {
        AgreesBelow(h, r, v, Key(k), h[h[r].value].table[k].value, entries[k]);
        AgreesDenotes(h, h[h[r].value].table[k].value, entries[k]);
      }
    case _ =>
  }

  lemma AgreesBelow(h: Heap, r: Ref, v: Value, step: Step, child: Ref, w: Value)
    requires forall path :: AgreeAt(h, r, v, path)
    requires forall path :: Get(v, [step] + path) == Get(w, path) && Find(h, r, [step] + path) == Find(h, child, path)
    ensures forall path :: AgreeAt(h, child, w, path)
  {
    forall path ensures AgreeAt(h, child, w, path) {
      assert AgreeAt(h, r, v, [step] + path);
    }
  }

  /** An object stands for a value exactly when the two agree at every path. */
  lemma DenotesIffAgrees(h: Heap, r: Ref, v: Value)
    ensures Denotes(h, r, v) <==> forall path :: AgreeAt(h, r, v, path)
  {
    if Denotes(h, r, v) {
      forall path ensures AgreeAt(h, r, v, path) {
        DenotesAgrees(h, r, v, path);
      }
    }
    if forall path :: AgreeAt(h, r, v, path) {
      AgreesDenotes(h, r, v);
    }
  }

  /** What `toJVM` makes of a value has the shared null object exactly where the value has a null. */
  lemma {:induction false} RendersNulls(h: Heap, nullInstance: Ref, r: Ref, v: Value, path: seq<Step>)
    requires Renders(h, nullInstance, r, v) && nullInstance in h && h[nullInstance] == JSNullValue
    ensures Find(h, r, path) == Some(nullInstance) <==> Get(v, path) == Some(Null)
    decreases path
  {
    if path == [] {
    } else if v.Arr? && path[0].At? && path[0].index < |v.elems| {
      RendersNulls(h, nullInstance, h[h[r].value].slots[path[0].index].value, v.elems[path[0].index], path[1..]);
    } else if v.Dict? && path[0].Key? && path[0].key in v.entries {
      RendersNulls(h, nullInstance, h[h[r].value].table[path[0].key].value, v.entries[path[0].key], path[1..]);
    } else {
      assert Get(v, path) == None;
    }
  }

  /** What `toJVM` wrote, found again at every path, with the shared null object for every null. */
  lemma WrittenAt(h: Heap, h': Heap, nullInstance: Ref, r: Ref, v: Value, path: seq<Step>)
    requires Written(h, h', nullInstance, r, v) && nullInstance in h && h[nullInstance] == JSNullValue
    ensures AgreeAt(h', r, v, path)
    ensures Find(h', r, path) == Some(nullInstance) <==> Get(v, path) == Some(Null)
  {
    var f := Fresh(h, h', nullInstance);
    assert Extends(f, h');
    RendersInLarger(f, h', nullInstance, r, v);
    RendersDenotes(h', nullInstance, r, v);
    hide Renders, Denotes;
    DenotesAgrees(h', r, v, path);
    RendersNulls(h', nullInstance, r, v, path);
  }
}
