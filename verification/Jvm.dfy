/**
 The part of a Java virtual machine that the conversion touches: a heap of objects and a table of
 local references.
 */
module Jvm {
  import opened JsValue
  import Doubles

  type Ref = nat
  type JByte = n: int | -0x80 <= n < 0x80

  datatype Option<T> = None | Some(value: T)

  /** A binding of a Java hash map: the string object used as key, and the value object. */
  datatype Binding = Binding(key: Ref, value: Ref)

  /** Objects by class. Hash maps compare their keys by content, so they are indexed by it. */
  datatype Obj =
    | JString(chars: U16String)
    | ObjectArray(slots: seq<Option<Ref>>)
    | ByteArray(jbytes: seq<JByte>)
    | HashMap(table: map<U16String, Binding>)
    | KeySet(owner: Ref)
    | JSStringValue(value: Ref)
    | JSBooleanValue(flag: bool)
    | JSDoubleValue(bits: Doubles.Bits64)
    | JSArrayValue(value: Ref)
    | JSByteArrayValue(value: Ref)
    | JSMapValue(value: Ref)
    | JSNullValue
    | Other

  type Heap = map<Ref, Obj>

  /** The references an object holds. */
  function Pointers(o: Obj): set<Ref> {
    match o
    case ObjectArray(slots) => set i | 0 <= i < |slots| && slots[i].Some? :: slots[i].value
    case HashMap(table) => (set k | k in table :: table[k].key) + (set k | k in table :: table[k].value)
    case KeySet(m) => {m}
    case JSStringValue(r) => {r}
    case JSArrayValue(r) => {r}
    case JSByteArrayValue(r) => {r}
    case JSMapValue(r) => {r}
    case _ => {}
  }

  /** `h'` has every object of `h`, unchanged. */
  ghost predicate Extends(h: Heap, h': Heap) {
    forall r :: r in h ==> r in h' && h'[r] == h[r]
  }

  class Env {
    var heap: Heap
    /** The table of live local references, with multiplicity. */
    var live: multiset<Ref>
    var next: Ref
    const nullInstance: Ref

    ghost predicate Valid()
      reads this
    {
      && (forall r :: r in heap ==> r < next)
      && nullInstance in heap && heap[nullInstance] == JSNullValue
    }

    constructor ()
      ensures Valid() && live == multiset{}
    {
      nullInstance := 0;
      heap := map[0 := JSNullValue];
      next := 1;
      live := multiset{};
    }

    /** Every JNI function that creates an object: a fresh object and one local reference to it. */
    method New(o: Obj) returns (r: Ref)
      requires Valid()
      modifies this
      ensures Valid()
      ensures r !in old(heap) && heap == old(heap)[r := o]
      ensures live == old(live) + multiset{r}
    {
      r := next;
      heap := heap[r := o];
      next := next + 1;
      live := live + multiset{r};
    }

    /** Every JNI function that returns an existing object. */
    method Local(r: Ref)
      requires Valid()
      modifies this`live
      ensures Valid()
      ensures live == old(live) + multiset{r}
    {
      live := live + multiset{r};
    }

    method DeleteLocalRef(r: Ref)
      requires Valid() && r in live
      modifies this`live
      ensures Valid()
      ensures live == old(live) - multiset{r}
    {
      live := live - multiset{r};
    }

    method SetObjectArrayElement(arr: Ref, i: nat, r: Ref)
      requires Valid()
      requires arr in heap && heap[arr].ObjectArray? && i < |heap[arr].slots|
      modifies this`heap
      ensures Valid()
      ensures heap == old(heap)[arr := ObjectArray(old(heap)[arr].slots[i := Some(r)])]
    {
      heap := heap[arr := ObjectArray(heap[arr].slots[i := Some(r)])];
    }

    /** Fills a byte array; the region is the whole array, as in every use. */
    method SetByteArrayRegion(arr: Ref, jbytes: seq<JByte>)
      requires Valid()
      requires arr in heap && heap[arr].ByteArray? && |heap[arr].jbytes| == |jbytes|
      modifies this`heap
      ensures Valid()
      ensures heap == old(heap)[arr := ByteArray(jbytes)]
    {
      heap := heap[arr := ByteArray(jbytes)];
    }

    /**
     `HashMap.put`: an equal key keeps its key object and gets the new value, and the replaced value
     comes back as one more local reference.
     */
    method Put(m: Ref, key: Ref, value: Ref)
      requires Valid()
      requires m in heap && heap[m].HashMap? && key in heap && heap[key].JString?
      modifies this`heap, this`live
      ensures Valid()
      ensures var table, k := old(heap)[m].table, old(heap)[key].chars;
        && heap == old(heap)[m := HashMap(table[k := Binding(if k in table then table[k].key else key, value)])]
        && live == if k in table then old(live) + multiset{table[k].value} else old(live)
    {
      var table, k := heap[m].table, heap[key].chars;
      if k in table {
        heap := heap[m := HashMap(table[k := Binding(table[k].key, value)])];
        live := live + multiset{table[k].value};
      } else {
        heap := heap[m := HashMap(table[k := Binding(key, value)])];
      }
    }

    /** `HashMap.get` for a key that is present. */
    method Get(m: Ref, key: Ref) returns (value: Ref)
      requires Valid()
      requires m in heap && heap[m].HashMap? && key in heap && heap[key].JString?
      requires heap[key].chars in heap[m].table
      modifies this`live
      ensures Valid()
      ensures value == heap[m].table[heap[key].chars].value
      ensures live == old(live) + multiset{value}
    {
      value := heap[m].table[heap[key].chars].value;
      live := live + multiset{value};
    }

    /** `Set.toArray` on a key set: the key objects in an order of the machine's choosing. */
    method ToArray(keySet: Ref) returns (arr: Ref, ghost names: seq<U16String>)
      requires Valid()
      requires keySet in heap && heap[keySet].KeySet?
      requires heap[keySet].owner in heap && heap[heap[keySet].owner].HashMap?
      modifies this
      ensures Valid()
      ensures var table := old(heap)[old(heap)[keySet].owner].table;
        && arr !in old(heap)
        && Enumerates(names, table.Keys)
        && heap == old(heap)[arr := ObjectArray(seq(|names|, i requires 0 <= i < |names| => Some(table[names[i]].key)))]
        && live == old(live) + multiset{arr}
    {
      var table := heap[heap[keySet].owner].table;
      var todo := table.Keys;
      var order: seq<U16String> := [];
      while todo != {}
        invariant Enumerates(order, table.Keys - todo) && todo <= table.Keys
        decreases todo
      {
        var k :| k in todo;
        order := order + [k];
        todo := todo - {k};
      }
      assert table.Keys - todo == table.Keys;
      names := order;
      arr := New(ObjectArray(seq(|order|, i requires 0 <= i < |order| => Some(table[order[i]].key))));
    }
  }

  /** The sequence lists every element of the set exactly once. */
  ghost predicate Enumerates<T>(names: seq<T>, s: set<T>) {
    && (forall i :: 0 <= i < |names| ==> names[i] in s)
    && (forall k :: k in s ==> k in names)
    && (forall i, j :: 0 <= i < j < |names| ==> names[i] != names[j])
  }
}
