/** A bounded character buffer, the assertions it makes, and exactly when they all hold. */
module StringBuilder {

  const INT_MAX: int := 0x7fff_ffff

  /** Memory that holds a C string: a NUL somewhere. */
  type CString = s: seq<char> | '\0' in s witness ['\0']

  /** `strlen`: the position of the first NUL. */
  function StrLen(s: CString): (n: nat)
    ensures n < |s| && s[n] == '\0'
    ensures forall i :: 0 <= i < n ==> s[i] != '\0'
  {
    if s[0] == '\0' then 0 else 1 + StrLen(s[1..])
  }

  datatype Op =
    | AddCharacter(c: char)
    | AddSubstring(s: CString, n: int)
    | AddString(s: CString)
    | AddPadding(c: char, count: int)
    | Finalize
    | Reset
  {
    predicate Appends() {
      !Finalize? && !Reset?
    }
  }

  /** The buffer and the position, which is negative once the builder is finalized. */
  datatype State = State(memory: seq<char>, position: int)

  // ---- The assertions of each call, and what it does if they hold ----

  predicate CharacterPasses(b: State, c: char) {
    c != '\0' && 0 <= b.position < |b.memory|
  }

  function CharacterAdded(b: State, c: char): State
    requires CharacterPasses(b, c)
  {
    State(b.memory[b.position := c], b.position + 1)
  }

  predicate SubstringPasses(b: State, s: CString, n: int) {
    0 <= b.position && b.position + n < |b.memory| && 0 <= n <= StrLen(s)
  }

  function SubstringAdded(b: State, s: CString, n: int): State
    requires SubstringPasses(b, s, n)
  {
    State(b.memory[..b.position] + s[..n] + b.memory[b.position + n..], b.position + n)
  }

  predicate PaddingPasses(b: State, c: char, count: int)
    decreases count
  {
    count <= 0 || (CharacterPasses(b, c) && PaddingPasses(CharacterAdded(b, c), c, count - 1))
  }

  function PaddingAdded(b: State, c: char, count: int): State
    requires PaddingPasses(b, c, count)
    decreases count
  {
    if count <= 0 then b else PaddingAdded(CharacterAdded(b, c), c, count - 1)
  }

  predicate FinalizePasses(b: State) {
    && 0 <= b.position < |b.memory|
    && var terminated := b.memory[b.position := '\0'];
    && terminated[b.position] == '\0'
    && StrLen(terminated) == b.position
  }

  function Finalized(b: State): State
    requires FinalizePasses(b)
  {
    State(b.memory[b.position := '\0'], -1)
  }

  predicate Passes(b: State, op: Op) {
    match op
    case AddCharacter(c) => CharacterPasses(b, c)
    case AddSubstring(s, n) => SubstringPasses(b, s, n)
    case AddString(s) => StrLen(s) <= INT_MAX && SubstringPasses(b, s, StrLen(s))
    case AddPadding(c, count) => PaddingPasses(b, c, count)
    case Finalize => FinalizePasses(b)
    case Reset => true
  }

  function After(b: State, op: Op): State
    requires Passes(b, op)
  {
    match op
    case AddCharacter(c) => CharacterAdded(b, c)
    case AddSubstring(s, n) => SubstringAdded(b, s, n)
    case AddString(s) => SubstringAdded(b, s, StrLen(s))
    case AddPadding(c, count) => PaddingAdded(b, c, count)
    case Finalize => Finalized(b)
    case Reset => State(b.memory, 0)
  }

  predicate AllPass(b: State, ops: seq<Op>)
    decreases ops
  {
    ops == [] || (Passes(b, ops[0]) && AllPass(After(b, ops[0]), ops[1..]))
  }

  function AfterAll(b: State, ops: seq<Op>): State
    requires AllPass(b, ops)
    decreases ops
  {
    if ops == [] then b else AfterAll(After(b, ops[0]), ops[1..])
  }

  // ---- What the calls mean ----

  /** The text written since the last `Reset`, and whether it has been finalized. */
  datatype Progress = Building(text: seq<char>) | Done(text: seq<char>)

  /** Arguments that do not break an assertion by themselves, whatever the buffer. */
  predicate Legal(op: Op) {
    match op
    case AddCharacter(c) => c != '\0'
    case AddSubstring(s, n) => 0 <= n <= StrLen(s)
    case AddString(s) => StrLen(s) <= INT_MAX
    case AddPadding(c, count) => count <= 0 || c != '\0'
    case _ => true
  }

  lemma Joins<T>(a: seq<T>, b: seq<T>, c: seq<T>)
    ensures (a + b) + c == a + (b + c)
  {
  }

  /** The characters a call appends. */
  function Text(op: Op): seq<char>
    requires Legal(op)
  {
    match op
    case AddCharacter(c) => [c]
    case AddSubstring(s, n) => s[..n]
    case AddString(s) => s[..StrLen(s)]
    case AddPadding(c, count) => seq(if count <= 0 then 0 else count, _ => c)
    case _ => []
  }

  /**
   When a call is allowed, over a buffer of `size` characters: single characters may fill the
   buffer, a string must leave room for the NUL, and only `Reset` and empty padding may follow
   `Finalize`.
   */
  predicate Fits(p: Progress, op: Op, size: nat) {
    && Legal(op)
    && match op
       case AddCharacter(_) => p.Building? && |p.text| < size
       case AddSubstring(_, n) => p.Building? && |p.text| + n < size
       case AddString(s) => p.Building? && |p.text| + StrLen(s) < size
       case AddPadding(_, count) => count <= 0 || (p.Building? && |p.text| + count <= size)
       case Finalize => p.Building? && |p.text| < size
       case Reset => true
  }

  function Next(p: Progress, op: Op): Progress
    requires Legal(op)
  {
    match op
    case Reset => Building([])
    case Finalize => Done(p.text)
    case _ => p.(text := p.text + Text(op))
  }

  predicate AllFit(p: Progress, ops: seq<Op>, size: nat)
    decreases ops
  {
    ops == [] || (Fits(p, ops[0], size) && AllFit(Next(p, ops[0]), ops[1..], size))
  }

  function Final(p: Progress, ops: seq<Op>, size: nat): Progress
    requires AllFit(p, ops, size)
    decreases ops
  {
    if ops == [] then p else Final(Next(p, ops[0]), ops[1..], size)
  }

  /** A builder in which this text, without a NUL, has been written; a NUL follows it once finalized. */
  ghost predicate Holds(b: State, p: Progress) {
    && '\0' !in p.text
    && |p.text| <= |b.memory| && b.memory[..|p.text|] == p.text
    && (p.Building? ==> b.position == |p.text|)
    && (p.Done? ==> b.position < 0 && |p.text| < |b.memory| && b.memory[|p.text|] == '\0')
  }

  lemma {:induction false} PaddingMeaning(b: State, p: Progress, c: char, count: int)
    requires Holds(b, p)
    ensures PaddingPasses(b, c, count) <==> Fits(p, AddPadding(c, count), |b.memory|)
    ensures PaddingPasses(b, c, count) ==> Holds(PaddingAdded(b, c, count), Next(p, AddPadding(c, count)))
    ensures PaddingPasses(b, c, count) ==> |PaddingAdded(b, c, count).memory| == |b.memory|
    decreases count
  {
    if count <= 0 {
      assert p.text + Text(AddPadding(c, count)) == p.text;
    } else if CharacterPasses(b, c) {
      PaddingMeaning(CharacterAdded(b, c), Building(p.text + [c]), c, count - 1);
      assert p.text + [c] + Text(AddPadding(c, count - 1)) == p.text + Text(AddPadding(c, count));
    } else {
      assert c == '\0' || p.Done? || |p.text| == |b.memory|;
    }
  }

  lemma SubstringMeaning(b: State, p: Progress, s: CString, n: int)
    requires Holds(b, p) && SubstringPasses(b, s, n)
    ensures Holds(SubstringAdded(b, s, n), Building(p.text + s[..n]))
  {
    assert SubstringAdded(b, s, n).memory[..|p.text| + n] == p.text + s[..n];
  }

  lemma FinalizeMeaning(b: State, p: Progress)
    requires Holds(b, p)
    ensures FinalizePasses(b) <==> p.Building? && |p.text| < |b.memory|
    ensures FinalizePasses(b) ==> Holds(Finalized(b), Done(p.text))
  {
    if p.Building? && |p.text| < |b.memory| {
      var t: seq<char> := b.memory[b.position := '\0'];
      assert t[|p.text|] == '\0';
      assert forall i :: 0 <= i < |p.text| ==> t[i] == p.text[i];
      assert t[..|p.text|] == p.text;
    }
  }

  /** One call: exactly when its assertions hold, and what it leaves if they do. */
  lemma CallMeaning(b: State, p: Progress, op: Op)
    requires Holds(b, p)
    ensures Passes(b, op) <==> Fits(p, op, |b.memory|)
    ensures Passes(b, op) ==> Holds(After(b, op), Next(p, op)) && |After(b, op).memory| == |b.memory|
  {
    match op
    case AddCharacter(c) =>
    case AddSubstring(s, n) => if Passes(b, op) { SubstringMeaning(b, p, s, n); }
    case AddString(s) => if Passes(b, op) { SubstringMeaning(b, p, s, StrLen(s)); }
    case AddPadding(c, count) => PaddingMeaning(b, p, c, count);
    case Finalize => FinalizeMeaning(b, p);
    case Reset =>
  }

  /** `AddString` measures its argument first, which must be no longer than an `int` can say. */
  lemma AddStringPasses(b: State, s: CString)
    ensures Passes(b, AddString(s)) <==>
      StrLen(s) <= 0x7fff_ffff && 0 <= b.position && b.position + StrLen(s) < |b.memory|
  {
  }

  /**
   The edges of an empty builder: characters may fill the buffer to the last place, a string must
   leave one place for the NUL, and a full buffer cannot be finalized.
   */
  lemma FullBuffer(memory: seq<char>, s: CString, c: char)
    requires c != '\0' && memory != []
    ensures var b, n := State(memory, 0), |memory|;
      && Passes(b, AddPadding(c, n)) && !Passes(b, AddPadding(c, n + 1))
      && !Passes(b, AddSubstring(s, n)) && (n <= StrLen(s) ==> Passes(b, AddSubstring(s, n - 1)))
      && !FinalizePasses(PaddingAdded(b, c, n))
      && PaddingPasses(b, c, n - 1) && FinalizePasses(PaddingAdded(b, c, n - 1))
  {
    var b, n := State(memory, 0), |memory|;
    PaddingMeaning(b, Building([]), c, n + 1);
    FinalizeAfterPadding(b, c, n);
    FinalizeAfterPadding(b, c, n - 1);
    hide PaddingPasses, PaddingAdded, FinalizePasses, StrLen;
  }

  lemma FinalizeAfterPadding(b: State, c: char, count: nat)
    requires b.position == 0 && c != '\0' && count <= |b.memory|
    ensures PaddingPasses(b, c, count)
    ensures FinalizePasses(PaddingAdded(b, c, count)) <==> count < |b.memory|
  {
    var p := Next(Building([]), AddPadding(c, count));
    PaddingMeaning(b, Building([]), c, count);
    hide PaddingPasses, PaddingAdded, FinalizePasses;
    FinalizeMeaning(PaddingAdded(b, c, count), p);
  }

  /** Any sequence of calls, `Reset` and `Finalize` among them: exactly when every assertion holds. */
  lemma {:induction false} CallsPassIff(b: State, p: Progress, ops: seq<Op>)
    requires Holds(b, p)
    ensures AllPass(b, ops) <==> AllFit(p, ops, |b.memory|)
    ensures AllPass(b, ops) ==> Holds(AfterAll(b, ops), Final(p, ops, |b.memory|))
    decreases ops
  {
    if ops == [] {
    } else {
      CallMeaning(b, p, ops[0]);
      hide Holds, Passes, Fits, After, Next;
      if Passes(b, ops[0]) {
        CallsPassIff(After(b, ops[0]), Next(p, ops[0]), ops[1..]);
      }
    }
  }

  // ---- Runs that build one string ----

  predicate AllLegal(ops: seq<Op>) {
    forall op :: op in ops ==> Legal(op)
  }

  function AllText(ops: seq<Op>): seq<char>
    requires AllLegal(ops)
  {
    if ops == [] then [] else Text(ops[0]) + AllText(ops[1..])
  }

  ghost predicate AllAppend(ops: seq<Op>) {
    forall op :: op in ops ==> op.Appends()
  }

  lemma AppendFits(text: seq<char>, op: Op, size: nat)
    requires op.Appends()
    ensures Fits(Building(text), op, size) ==> Legal(op)
    ensures Legal(op) && |text| + |Text(op)| < size ==> Fits(Building(text), op, size)
    ensures Legal(op) ==> Next(Building(text), op) == Building(text + Text(op))
  {
  }

  lemma RunUnfolds(text: seq<char>, ops: seq<Op>, size: nat)
    requires ops != [] && ops[0].Appends()
    ensures AllLegal(ops) <==> Legal(ops[0]) && AllLegal(ops[1..])
    ensures var p, run, rest := Building(text), ops + [Finalize], ops[1..] + [Finalize];
      && (AllFit(p, run, size) <==> Fits(p, ops[0], size) && AllFit(Next(p, ops[0]), rest, size))
      && (AllFit(p, run, size) ==> Final(p, run, size) == Final(Next(p, ops[0]), rest, size))
  {
    assert ops == [ops[0]] + ops[1..];
    var run := ops + [Finalize];
    assert run[0] == ops[0] && run[1..] == ops[1..] + [Finalize];
    hide Legal, Fits, Next;
  }

  lemma {:induction false} AppendsFit(text: seq<char>, ops: seq<Op>, size: nat)
    requires AllAppend(ops)
    ensures var run := ops + [Finalize];
      AllFit(Building(text), run, size) <==> AllLegal(ops) && |text| + |AllText(ops)| < size
    ensures var run := ops + [Finalize];
      AllFit(Building(text), run, size) ==> Final(Building(text), run, size) == Done(text + AllText(ops))
    decreases ops
  {
    if ops == [] {
      assert ops + [Finalize] == [Finalize];
    } else {
      RunUnfolds(text, ops, size);
      AppendFits(text, ops[0], size);
      hide AllLegal, Legal, Text, AllFit, Final, Fits, Next;
      if Legal(ops[0]) {
        AppendsFit(text + Text(ops[0]), ops[1..], size);
        if AllLegal(ops[1..]) {
          Joins(text, Text(ops[0]), AllText(ops[1..]));
        }
      }
    }
  }

  /**
   After a `Reset`, whatever happened before, all assertions of a run of appending calls and of the
   `Finalize` after it hold exactly if every call has legal arguments and the text is shorter than
   the buffer. The buffer then holds that text as a C string.
   */
  lemma RunPassesIff(before: State, ops: seq<Op>)
    requires AllAppend(ops)
    ensures var run := [Reset] + ops + [Finalize];
      AllPass(before, run) <==> AllLegal(ops) && |AllText(ops)| < |before.memory|
    ensures var run := [Reset] + ops + [Finalize];
      AllPass(before, run) ==> Holds(AfterAll(before, run), Done(AllText(ops)))
  {
    var run := [Reset] + ops + [Finalize];
    assert run[1..] == ops + [Finalize];
    AppendsFit([], ops, |before.memory|);
    CallsPassIff(State(before.memory, 0), Building([]), run[1..]);
    if AllLegal(ops) {
      assert [] + AllText(ops) == AllText(ops);
    }
  }

  // ---- The class ----

  class Builder {
    /** The caller's buffer. */
    const buffer: array<char>
    var position: int

    function Current(): State
      reads this, buffer
    {
      State(buffer[..], position)
    }

    constructor (buffer: array<char>)
      ensures this.buffer == buffer && position == 0
    {
      this.buffer := buffer;
      position := 0;
    }

    /** Starts over, also after `Finalize`. */
    method Reset()
      modifies this`position
      ensures Current() == State(old(Current()).memory, 0)
    {
      position := 0;
    }

    method AddCharacter(c: char)
      requires CharacterPasses(Current(), c)
      modifies this, buffer
      ensures Current() == CharacterAdded(old(Current()), c)
    {
      buffer[position] := c;
      position := position + 1;
    }

    method AddSubstring(s: CString, n: int)
      requires SubstringPasses(Current(), s, n)
      modifies this, buffer
      ensures Current() == SubstringAdded(old(Current()), s, n)
    {
      ghost var was, at := buffer[..], position;
      forall i | 0 <= i < n {
        buffer[position + i] := s[i];
      }
      position := position + n;
      assert buffer[..] == was[..at] + s[..n] + was[at + n..];
    }

    method AddString(s: CString)
      requires Passes(Current(), Op.AddString(s))
      modifies this, buffer
      ensures Current() == SubstringAdded(old(Current()), s, StrLen(s))
    {
      AddSubstring(s, StrLen(s));
    }

    method AddPadding(c: char, count: int)
      requires PaddingPasses(Current(), c, count)
      modifies this, buffer
      ensures Current() == PaddingAdded(old(Current()), c, count)
    {
      ghost var start := Current();
      var i := 0;
      while i < count
        invariant 0 <= i && (i <= count || i == 0)
        invariant PaddingPasses(Current(), c, count - i)
        invariant PaddingAdded(Current(), c, count - i) == PaddingAdded(start, c, count)
      {
        AddCharacter(c);
        i := i + 1;
      }
    }

    /** Terminates the string and returns the buffer. */
    method Finalize() returns (start: array<char>)
      requires FinalizePasses(Current())
      modifies this, buffer
      ensures start == buffer
      ensures Current() == Finalized(old(Current()))
    {
      buffer[position] := '\0';
      position := -1;
      start := buffer;
    }

    method Perform(op: Op)
      requires Passes(Current(), op)
      modifies this, buffer
      ensures Current() == After(old(Current()), op)
    {
      match op
      case AddCharacter(c) => AddCharacter(c);
      case AddSubstring(s, n) => AddSubstring(s, n);
      case AddString(s) => AddString(s);
      case AddPadding(c, count) => AddPadding(c, count);
      case Finalize => var start := this.Finalize();
      case Reset => this.Reset();
    }

    /** Any sequence of calls that fit: no assertion fails, and the buffer holds what they mean. */
    method PerformAll(ops: seq<Op>, ghost p: Progress)
      requires Holds(Current(), p) && AllFit(p, ops, buffer.Length)
      modifies this, buffer
      ensures Holds(Current(), Final(p, ops, buffer.Length))
    {
      ghost var q := p;
      var i := 0;
      assert ops[0..] == ops;
      while i < |ops|
        invariant 0 <= i <= |ops| && Holds(Current(), q)
        invariant AllFit(q, ops[i..], buffer.Length)
        invariant Final(q, ops[i..], buffer.Length) == Final(p, ops, buffer.Length)
      {
        assert ops[i..][1..] == ops[i + 1..];
        CallMeaning(Current(), q, ops[i]);
        Perform(ops[i]);
        q := Next(q, ops[i]);
        i := i + 1;
      }
    }
  }

  /** Builds a string in a buffer with room for it: no assertion fails, and the text comes out as a C string. */
  method Build(buffer: array<char>, ops: seq<Op>) returns (result: array<char>)
    requires AllAppend(ops) && AllLegal(ops) && |AllText(ops)| < buffer.Length
    modifies buffer
    ensures result == buffer
    ensures '\0' in buffer[..] && StrLen(buffer[..]) == |AllText(ops)|
    ensures buffer[..|AllText(ops)|] == AllText(ops)
  {
    ghost var text := AllText(ops);
    AppendsFit([], ops, buffer.Length);
    assert [] + text == text;
    var b := new Builder(buffer);
    b.PerformAll(ops + [Finalize], Building([]));
    result := buffer;
    assert buffer[..][|text|] == '\0';
    assert forall i :: 0 <= i < |text| ==> buffer[..][i] == text[i];
  }
}
