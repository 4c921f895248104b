/** Which value an object of the Java heap stands for, and when it stands for one at all. */
module Denotation {
  import opened JsValue
  import opened Jvm
  import opened Words

  /** A byte and its reinterpretation as a Java byte: the same eight bits. */
  function ToJByte(b: Byte): (j: JByte)
    ensures (j as int) % 0x100 == b
  {
    if b < 0x80 then b else b - 0x100
  }

  function FromJByte(j: JByte): (b: Byte)
    ensures b == (j as int) % 0x100
  {
    if j < 0 then j + 0x100 else j
  }

  function ToJBytes(bytes: seq<Byte>): (jbytes: seq<JByte>)
    ensures SameBytes(jbytes, bytes)
  {
    seq(|bytes|, i requires 0 <= i < |bytes| => ToJByte(bytes[i]))
  }

  function FromJBytes(jbytes: seq<JByte>): (bytes: seq<Byte>)
    ensures SameBytes(jbytes, bytes)
  {
    seq(|jbytes|, i requires 0 <= i < |jbytes| => FromJByte(jbytes[i]))
  }

  /** Java bytes and native bytes that agree modulo 256, one by one. */
  predicate SameBytes(jbytes: seq<JByte>, bytes: seq<Byte>) {
    |jbytes| == |bytes| && forall i :: 0 <= i < |bytes| ==> (jbytes[i] as int) % 0x100 == bytes[i]
  }

  /** The classes whose objects stand for anything but null. */
  predicate HasValueClass(o: Obj) {
    o.JSStringValue? || o.JSBooleanValue? || o.JSDoubleValue? || o.JSArrayValue? || o.JSByteArrayValue? || o.JSMapValue?
  }

  /**
   The object at `r` unfolds to the tree `v`. Shared objects unfold once per path; objects of any
   class without a value of its own stand for null.
   */
  ghost predicate Denotes(h: Heap, r: Ref, v: Value)
    decreases v
  {
    r in h &&
    match v
    case Str(chars) =>
      h[r].JSStringValue? && h[r].value in h && h[h[r].value] == JString(chars)
    case Bool(flag) =>
      h[r] == JSBooleanValue(flag)
    case Num(bits) =>
      h[r] == JSDoubleValue(bits)
    case Arr(elems) =>
      && h[r].JSArrayValue? && h[r].value in h && h[h[r].value].ObjectArray?
      && var slots := h[h[r].value].slots;
      && |slots| == |elems|
      && forall i :: 0 <= i < |elems| ==> slots[i].Some? && Denotes(h, slots[i].value, elems[i])
    case Bytes(bytes) =>
      && h[r].JSByteArrayValue? && h[r].value in h && h[h[r].value].ByteArray?
      && SameBytes(h[h[r].value].jbytes, bytes)
    case Dict(entries) =>
      && h[r].JSMapValue? && h[r].value in h && h[h[r].value].HashMap?
      && var table := h[h[r].value].table;
      && table.Keys == entries.Keys
      && forall k :: k in entries ==> KeyFits(h, table[k], k) && Denotes(h, table[k].value, entries[k])
    case Null =>
      !HasValueClass(h[r])
  }

  predicate KeyFits(h: Heap, b: Binding, k: U16String) {
    b.key in h && h[b.key] == JString(k)
  }

  lemma {:induction false} DenotesInLarger(h: Heap, h': Heap, r: Ref, v: Value)
    requires Extends(h, h') && Denotes(h, r, v)
    ensures Denotes(h', r, v)
    decreases v
  {
    match v
    case Arr(elems) =>
      forall i | 0 <= i < |elems| ensures Denotes(h', h[h[r].value].slots[i].value, elems[i]) {
        DenotesInLarger(h, h', h[h[r].value].slots[i].value, elems[i]);
      }
    case Dict(entries) =>
      forall k | k in entries ensures Denotes(h', h[h[r].value].table[k].value, entries[k]) {
        DenotesInLarger(h, h', h[h[r].value].table[k].value, entries[k]);
      }
    case _ =>
  }

  /** An array of Java bytes stands for one sequence of bytes, and a sequence of bytes is written one way. */
  lemma SameBytesUnique(jbytes: seq<JByte>, jbytes': seq<JByte>, bytes: seq<Byte>, bytes': seq<Byte>)
    requires SameBytes(jbytes, bytes) && SameBytes(jbytes', bytes')
    ensures jbytes == jbytes' <==> bytes == bytes'
  {
    if jbytes == jbytes' {
      assert forall i :: 0 <= i < |bytes| ==> bytes[i] == bytes'[i];
    }
    if bytes == bytes' {
      assert forall i :: 0 <= i < |jbytes| ==> jbytes[i] == jbytes'[i];
    }
  }

  /** An object stands for at most one value. */
  lemma {:induction false} DenotesUnique(h: Heap, r: Ref, v: Value, w: Value)
    requires Denotes(h, r, v) && Denotes(h, r, w)
    ensures v == w
    decreases v
  {
    match v
    case Arr(elems) =>
      var slots := h[h[r].value].slots;
      forall i | 0 <= i < |elems| ensures elems[i] == w.elems[i] {
        DenotesUnique(h, slots[i].value, elems[i], w.elems[i]);
      }
      assert elems == w.elems;
    case Dict(entries) =>
      var table := h[h[r].value].table;
      forall k | k in entries ensures entries[k] == w.entries[k] {
        DenotesUnique(h, table[k].value, entries[k], w.entries[k]);
      }
      assert entries == w.entries;
    case Bytes(bytes) =>
      var jbytes := h[h[r].value].jbytes;
      SameBytesUnique(jbytes, jbytes, bytes, w.bytes);
    case _ =>
  }

  // ---- Acyclic graphs are the ones that unfold ----

  /** The object at `r` has the parts its class promises, none of them a null reference. */
  ghost predicate WellFormed(h: Heap, r: Ref) {
    r in h &&
    match h[r]
    case JSStringValue(f) => f in h && h[f].JString?
    case JSArrayValue(f) => f in h && h[f].ObjectArray? && forall i :: 0 <= i < |h[f].slots| ==> h[f].slots[i].Some?
    case JSByteArrayValue(f) => f in h && h[f].ByteArray?
    case JSMapValue(f) => f in h && h[f].HashMap? && forall k :: k in h[f].table ==> KeyFits(h, h[f].table[k], k)
    case _ => true
  }

  /** The value objects that the object at `r` contains. */
  ghost function Children(h: Heap, r: Ref): set<Ref>
    requires WellFormed(h, r)
  {
    match h[r]
    case JSArrayValue(f) => set i | 0 <= i < |h[f].slots| :: h[f].slots[i].value
    case JSMapValue(f) => set k | k in h[f].table :: h[f].table[k].value
    case _ => {}
  }

  /** A witness that the graph below the ranked objects is well formed and has no cycle. */
  ghost predicate Ranked(h: Heap, rank: map<Ref, nat>) {
    forall r :: r in rank ==>
      WellFormed(h, r) && forall c :: c in Children(h, r) ==> c in rank && rank[c] < rank[r]
  }

  ghost predicate Unfolds(h: Heap, r: Ref) {
    exists v :: Denotes(h, r, v)
  }

  ghost function TreeOf(h: Heap, r: Ref): (v: Value)
    requires Unfolds(h, r)
    ensures Denotes(h, r, v)
  {
    var v :| Denotes(h, r, v);
    v
  }

  const ONE_EACH := Costs(1, 1, 1, 1, 1)

  /** The size of the tree ranks every object that has a tree. */
  ghost function SizeRank(h: Heap): map<Ref, nat> {
    map r | r in h && Unfolds(h, r) :: Weight(TreeOf(h, r), ONE_EACH)
  }

  lemma SizeRankRanks(h: Heap)
    ensures Ranked(h, SizeRank(h))
  {
    var rank := SizeRank(h);
    forall r | r in rank
      ensures WellFormed(h, r) && forall c :: c in Children(h, r) ==> c in rank && rank[c] < rank[r]
    {
      ChildrenSmaller(h, r, TreeOf(h, r));
    }
  }

  lemma ChildrenSmaller(h: Heap, r: Ref, v: Value)
    requires Denotes(h, r, v)
    ensures WellFormed(h, r)
    ensures forall c :: c in Children(h, r) ==>
      c in h && Unfolds(h, c) && Weight(TreeOf(h, c), ONE_EACH) < Weight(v, ONE_EACH)
  {
    assert WellFormed(h, r);
    forall c | c in Children(h, r)
      ensures c in h && Unfolds(h, c) && Weight(TreeOf(h, c), ONE_EACH) < Weight(v, ONE_EACH)
    {
      match v
      case Arr(elems) =>
        var i :| 0 <= i < |elems| && h[h[r].value].slots[i].value == c;
        DenotesUnique(h, c, elems[i], TreeOf(h, c));
        WeightOfElem(elems, i, ONE_EACH);
      case Dict(entries) =>
        var k :| k in entries && h[h[r].value].table[k].value == c;
        DenotesUnique(h, c, entries[k], TreeOf(h, c));
        WeightOfKey(v, entries.Keys, k, ONE_EACH);
      case _ =>
    }
  }

  /** A walk from value object to contained value object. */
  ghost predicate Chain(h: Heap, p: seq<Ref>) {
    p != [] && forall i :: 0 <= i < |p| - 1 ==> WellFormed(h, p[i]) && p[i + 1] in Children(h, p[i])
  }

  /** No chain from `r` meets an object twice, and every one ends in a well-formed object. */
  ghost predicate Acyclic(h: Heap, r: Ref) {
    forall p :: Chain(h, p) && p[0] == r ==> WellFormed(h, p[|p| - 1]) && p[|p| - 1] !in p[..|p| - 1]
  }

  /** Ranks fall along a chain. */
  lemma {:induction false} RankFalls(h: Heap, rank: map<Ref, nat>, p: seq<Ref>)
    requires Ranked(h, rank) && Chain(h, p) && p[0] in rank
    ensures p[|p| - 1] in rank
    ensures forall i :: 0 <= i < |p| - 1 ==> p[i] in rank && rank[p[|p| - 1]] < rank[p[i]]
    decreases |p|
  {
    var n := |p| - 1;
    if n == 0 {
    } else {
      var front := p[..n];
      assert forall i :: 0 <= i < n ==> front[i] == p[i];
      RankFalls(h, rank, front);
      assert p[n - 1 + 1] in Children(h, p[n - 1]);
    }
  }

  lemma RankedIsAcyclic(h: Heap, rank: map<Ref, nat>, r: Ref)
    requires Ranked(h, rank) && r in rank
    ensures Acyclic(h, r)
  {
    forall p | Chain(h, p) && p[0] == r ensures WellFormed(h, p[|p| - 1]) && p[|p| - 1] !in p[..|p| - 1] {
      RankFalls(h, rank, p);
    }
  }

  lemma ChainGrows(h: Heap, p: seq<Ref>, c: Ref)
    requires Chain(h, p) && WellFormed(h, p[|p| - 1]) && c in Children(h, p[|p| - 1])
    ensures Chain(h, p + [c])
  {
    var q := p + [c];
    forall i | 0 <= i < |q| - 1 ensures WellFormed(h, q[i]) && q[i + 1] in Children(h, q[i]) {
      assert q[i] == p[i];
    }
  }

  /** What the objects stand for that contain no other value. */
  lemma LeafDenotes(h: Heap, r: Ref)
    requires WellFormed(h, r)
    ensures h[r].JSStringValue? ==> Denotes(h, r, Str(h[h[r].value].chars))
    ensures h[r].JSBooleanValue? ==> Denotes(h, r, Bool(h[r].flag))
    ensures h[r].JSDoubleValue? ==> Denotes(h, r, Num(h[r].bits))
    ensures h[r].JSByteArrayValue? ==> Denotes(h, r, Bytes(FromJBytes(h[h[r].value].jbytes)))
    ensures !HasValueClass(h[r]) ==> Denotes(h, r, Null)
  {
  }

  /** An object whose contained values all unfold does so too. */
  lemma UnfoldsFromChildren(h: Heap, r: Ref)
    requires WellFormed(h, r) && forall c :: c in Children(h, r) ==> Unfolds(h, c)
    ensures Unfolds(h, r)
  {
    LeafDenotes(h, r);
    if h[r].JSArrayValue? {
      assert Denotes(h, r, ArrayOfTrees(h, r));
    } else if h[r].JSMapValue? {
      assert Denotes(h, r, MapOfTrees(h, r));
    } else {
      hide Denotes;
    }
  }

  ghost function ArrayOfTrees(h: Heap, r: Ref): (v: Value)
    requires WellFormed(h, r) && h[r].JSArrayValue? && forall c :: c in Children(h, r) ==> Unfolds(h, c)
    ensures Denotes(h, r, v)
  {
    var slots := h[h[r].value].slots;
    assert forall i :: 0 <= i < |slots| ==> slots[i].value in Children(h, r);
    Arr(seq(|slots|, i requires 0 <= i < |slots| => TreeOf(h, slots[i].value)))
  }

  ghost function MapOfTrees(h: Heap, r: Ref): (v: Value)
    requires WellFormed(h, r) && h[r].JSMapValue? && forall c :: c in Children(h, r) ==> Unfolds(h, c)
    ensures Denotes(h, r, v)
  {
    var table := h[h[r].value].table;
    assert forall k :: k in table ==> Unfolds(h, table[k].value) by {
      assert forall k :: k in table ==> table[k].value in Children(h, r);
    }
    hide WellFormed, Children;
    Dict(map k | k in table :: TreeOf(h, table[k].value))
  }

  ghost function Unvisited(h: Heap, p: seq<Ref>): set<Ref> {
    set x | x in h && x !in p
  }

  /** One step further, a chain without repetition is still one, and has fewer objects left to meet. */
  lemma ChainMoves(h: Heap, r: Ref, p: seq<Ref>, c: Ref)
    requires Acyclic(h, r) && Chain(h, p) && p[0] == r
    requires WellFormed(h, p[|p| - 1]) && c in Children(h, p[|p| - 1])
    ensures Chain(h, p + [c]) && (p + [c])[0] == r
    ensures Unvisited(h, p + [c]) < Unvisited(h, p)
  {
    var q := p + [c];
    ChainGrows(h, p, c);
    hide Chain, Children;
    assert q[..|q| - 1] == p && q[|q| - 1] == c;
    assert c in Unvisited(h, p) && c !in Unvisited(h, q);
    assert forall x :: x in p ==> x in q;
  }

  /** In a finite heap, chains that meet no object twice come to an end, so the object a chain ends in unfolds. */
  lemma {:induction false} AcyclicUnfolds(h: Heap, r: Ref, p: seq<Ref>)
    requires Acyclic(h, r) && Chain(h, p) && p[0] == r
    ensures Unfolds(h, p[|p| - 1])
    decreases Unvisited(h, p)
  {
    var last := p[|p| - 1];
    assert WellFormed(h, last);
    hide Acyclic, Chain, WellFormed, Children, Unfolds, Unvisited;
    forall c | c in Children(h, last) ensures Unfolds(h, c) {
      ChainMoves(h, r, p, c);
      AcyclicUnfolds(h, r, p + [c]);
    }
    UnfoldsFromChildren(h, last);
  }

  /** A finite graph without a cycle has a rank, and only such a graph has one. */
  lemma AcyclicIffRanked(h: Heap, r: Ref)
    ensures Acyclic(h, r) <==> exists rank: map<Ref, nat> :: Ranked(h, rank) && r in rank
    ensures Acyclic(h, r) <==> r in SizeRank(h)
  {
    SizeRankRanks(h);
    if Acyclic(h, r) {
      AcyclicUnfolds(h, r, [r]);
    }
    forall rank: map<Ref, nat> | Ranked(h, rank) && r in rank ensures Acyclic(h, r) {
      RankedIsAcyclic(h, rank, r);
    }
  }

  /** A rank is enough for an object to stand for a value. */
  lemma RankedUnfolds(h: Heap, rank: map<Ref, nat>, r: Ref)
    requires Ranked(h, rank) && r in rank
    ensures Unfolds(h, r)
  {
    AcyclicIffRanked(h, r);
  }

  /** An object stands for a value exactly when the graph below it is well formed and has no cycle. */
  lemma UnfoldsIffAcyclic(h: Heap, r: Ref)
    ensures Unfolds(h, r) <==> Acyclic(h, r)
  {
    AcyclicIffRanked(h, r);
    if Unfolds(h, r) {
      var v :| Denotes(h, r, v);
    }
  }

  /** The size of the tree below an object, for objects that have one. */
  ghost function Height(h: Heap, r: Ref): nat {
    if Unfolds(h, r) then Weight(TreeOf(h, r), ONE_EACH) else 0
  }

  /** What an object without a cycle below it contains has none either, and is smaller. */
  lemma ChildAcyclic(h: Heap, r: Ref, c: Ref)
    requires Acyclic(h, r) && WellFormed(h, r) && c in Children(h, r)
    ensures Acyclic(h, c) && Height(h, c) < Height(h, r)
  {
    UnfoldsIffAcyclic(h, r);
    UnfoldsIffAcyclic(h, c);
    hide Acyclic, WellFormed, Children, Denotes, Weight;
    ChildrenSmaller(h, r, TreeOf(h, r));
  }
}
