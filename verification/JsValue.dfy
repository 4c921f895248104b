/** The native value tree: seven kinds of values, nested through arrays and string-keyed maps. */
module JsValue {
  import Doubles
  import opened Words

  /** A UTF-16 code unit; strings keep their code units whether or not they pair up. */
  type Char16 = n: nat | n < 0x1_0000
  type U16String = seq<Char16>

  datatype Value =
    | Str(chars: U16String)
    | Bool(flag: bool)
    | Num(bits: Doubles.Bits64)
    | Arr(elems: seq<Value>)
    | Bytes(bytes: seq<Byte>)
    | Dict(entries: map<U16String, Value>)
    | Null

  /** A number for each kind of node. */
  datatype Costs = Costs(str: nat, arr: nat, bytes: nat, dict: nat, leaf: nat)

  /** The sum of the costs of all nodes of a tree. */
  ghost function Weight(v: Value, c: Costs): nat
    decreases v, 1
  {
    match v
    case Str(_) => c.str
    case Arr(elems) => c.arr + WeightOfAll(elems, c)
    case Bytes(_) => c.bytes
    case Dict(entries) => c.dict + WeightOfKeys(v, entries.Keys, c)
    case _ => c.leaf
  }

  ghost function WeightOfAll(vs: seq<Value>, c: Costs): nat
    decreases vs, 0
  {
    if vs == [] then 0 else WeightOfAll(vs[..|vs| - 1], c) + Weight(vs[|vs| - 1], c)
  }

  ghost function WeightOfKeys(v: Value, keys: set<U16String>, c: Costs): nat
    requires v.Dict? && keys <= v.entries.Keys
    decreases v, 0, keys
  {
    if keys == {} then 0 else
      var k :| k in keys;
      Weight(v.entries[k], c) + WeightOfKeys(v, keys - {k}, c)
  }

  /** The weight of a map does not depend on the order in which its keys are visited. */
  lemma {:induction false} WeightOfKey(v: Value, keys: set<U16String>, k: U16String, c: Costs)
    requires v.Dict? && k in keys && keys <= v.entries.Keys
    ensures WeightOfKeys(v, keys, c) == Weight(v.entries[k], c) + WeightOfKeys(v, keys - {k}, c)
    decreases keys
  {
    var p :| p in keys && WeightOfKeys(v, keys, c) == Weight(v.entries[p], c) + WeightOfKeys(v, keys - {p}, c);
    if p == k {
    } else {
      WeightOfKey(v, keys - {p}, k, c);
      WeightOfKey(v, keys - {k}, p, c);
      assert keys - {p} - {k} == keys - {k} - {p};
    }
  }

  lemma WeightOfPrefix(vs: seq<Value>, i: nat, c: Costs)
    requires i < |vs|
    ensures WeightOfAll(vs[..i + 1], c) == WeightOfAll(vs[..i], c) + Weight(vs[i], c)
  {
    assert vs[..i + 1][..i] == vs[..i];
  }

  lemma {:induction false} WeightOfElem(vs: seq<Value>, i: nat, c: Costs)
    requires i < |vs|
    ensures Weight(vs[i], c) <= WeightOfAll(vs, c)
  {
    if i == |vs| - 1 {
    } else {
      WeightOfElem(vs[..|vs| - 1], i, c);
    }
  }

  lemma WeightOfLeaf(v: Value, c: Costs)
    ensures v.Str? ==> Weight(v, c) == c.str
    ensures v.Bytes? ==> Weight(v, c) == c.bytes
    ensures v.Bool? || v.Num? || v.Null? ==> Weight(v, c) == c.leaf
  {
  }

  /** One more element adds its own weight. */
  lemma WeightOfAppend(elems: seq<Value>, w: Value, c: Costs)
    ensures Weight(Arr([]), c) == c.arr
    ensures Weight(Arr(elems + [w]), c) == Weight(Arr(elems), c) + Weight(w, c)
  {
    assert (elems + [w])[..|elems|] == elems;
  }

  /** One more entry adds its own weight. */
  lemma WeightOfInsert(entries: map<U16String, Value>, k: U16String, w: Value, c: Costs)
    requires k !in entries
    ensures Weight(Dict(map[]), c) == c.dict
    ensures Weight(Dict(entries[k := w]), c) == Weight(Dict(entries), c) + Weight(w, c)
  {
    var v, v' := Dict(entries), Dict(entries[k := w]);
    assert v'.entries.Keys - {k} == v.entries.Keys;
    WeightOfKey(v', v'.entries.Keys, k, c);
    WeightOfSameKeys(v, v', v.entries.Keys, c);
  }

  lemma {:induction false} WeightOfSameKeys(v: Value, v': Value, keys: set<U16String>, c: Costs)
    requires v.Dict? && v'.Dict? && keys <= v.entries.Keys && keys <= v'.entries.Keys
    requires forall k :: k in keys ==> v.entries[k] == v'.entries[k]
    ensures WeightOfKeys(v, keys, c) == WeightOfKeys(v', keys, c)
    decreases keys
  {
    if keys == {} {
    } else {
      var k :| k in keys;
      WeightOfKey(v, keys, k, c);
      WeightOfKey(v', keys, k, c);
      WeightOfSameKeys(v, v', keys - {k}, c);
    }
  }
}
