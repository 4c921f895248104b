/** Reading a file through a component that delivers it in chunks. */
module HandleReader {
  import opened Words

  /** One answer of the component to a read: nothing, or some bytes. */
  datatype Response = Nothing | Data(bytes: seq<Byte>)

  const CHUNK_SIZE: nat := 2048

  /** A read that ends the loop. */
  predicate Ends(r: Response) {
    r.Nothing? || r.bytes == []
  }

  /** The chunks up to the first read that delivers nothing. */
  function Chunks(responses: seq<Response>): seq<seq<Byte>> {
    if responses == [] || Ends(responses[0]) then [] else [responses[0].bytes] + Chunks(responses[1..])
  }

  /** What is left after that read. */
  function Unread(responses: seq<Response>): seq<Response> {
    if responses == [] then [] else if Ends(responses[0]) then responses[1..] else Unread(responses[1..])
  }

  function Concat(chunks: seq<seq<Byte>>): seq<Byte> {
    if chunks == [] then [] else chunks[0] + Concat(chunks[1..])
  }

  /** Everything a component would deliver if it were read to the last answer. */
  function Content(responses: seq<Response>): seq<Byte> {
    if responses == [] then []
    else (if responses[0].Data? then responses[0].bytes else []) + Content(responses[1..])
  }

  /**
   The filesystem component: for each file the answers its reads will give, for each open handle
   those still to come.
   */
  class Filesystem {
    var files: map<string, seq<Response>>
    var handles: map<nat, seq<Response>>
    var next: nat

    ghost predicate Valid()
      reads this
    {
      forall h :: h in handles ==> h < next
    }

    constructor (files: map<string, seq<Response>>)
      ensures Valid() && this.files == files && handles == map[]
    {
      this.files := files;
      handles := map[];
      next := 0;
    }

    method Open(path: string) returns (handle: nat)
      requires Valid() && path in files
      modifies this
      ensures Valid() && files == old(files)
      ensures handle !in old(handles) && handles == old(handles)[handle := files[path]]
    {
      handle := next;
      next := next + 1;
      handles := handles[handle := files[path]];
    }

    /** The next answer; nothing once they are used up. */
    method Read(handle: nat, count: nat) returns (r: Response)
      requires Valid() && handle in handles
      modifies this`handles
      ensures Valid()
      ensures var left := old(handles)[handle];
        && r == (if left == [] then Nothing else left[0])
        && handles == old(handles)[handle := if left == [] then [] else left[1..]]
    {
      var left := handles[handle];
      if left == [] {
        r := Nothing;
      } else {
        r := left[0];
        handles := handles[handle := left[1..]];
      }
    }

    method Close(handle: nat)
      requires Valid()
      modifies this`handles
      ensures Valid() && handles == old(handles) - {handle}
    {
      handles := handles - {handle};
    }
  }

  /** `Uint8Array.prototype.set`: writes a chunk at an offset, all of it inside the array. */
  method SetAt(buffer: array<Byte>, chunk: seq<Byte>, offset: nat)
    requires offset + |chunk| <= buffer.Length
    modifies buffer
    ensures buffer[..] == old(buffer[..offset]) + chunk + old(buffer[offset + |chunk|..])
  {
    forall i | 0 <= i < |chunk| {
      buffer[offset + i] := chunk[i];
    }
  }

  /** The two passes over the chunks: one sizes the buffer, one fills it from left to right. */
  method Gather(buffers: seq<seq<Byte>>) returns (buffer: array<Byte>)
    ensures fresh(buffer) && buffer[..] == Concat(buffers)
  {
    var size := 0;
    var i := 0;
    AllChunks(buffers);
    while i < |buffers|
      invariant 0 <= i <= |buffers|
      invariant size == |Concat(buffers[..i])|
    {
      ConcatNext(buffers, i);
      size := size + |buffers[i]|;
      i := i + 1;
    }
    buffer := new Byte[size];
    var offset := 0;
    i := 0;
    while i < |buffers|
      invariant 0 <= i <= |buffers| && size == |Concat(buffers)|
      invariant offset == |Concat(buffers[..i])| <= size
      invariant buffer[..offset] == Concat(buffers[..i])
    {
      ConcatNext(buffers, i);
      ConcatPrefix(buffers, i + 1);
      SetAt(buffer, buffers[i], offset);
      offset := offset + |buffers[i]|;
      i := i + 1;
    }
  }

  /** Reads until an answer is empty or missing, joins the chunks and decodes them. */
  method ReadHandleToString(fs: Filesystem, handle: nat, decode: seq<Byte> -> string) returns (text: string)
    requires fs.Valid() && handle in fs.handles
    modifies fs`handles
    ensures fs.Valid() && fs.handles == old(fs.handles)[handle := Unread(old(fs.handles)[handle])]
    ensures text == decode(Concat(Chunks(old(fs.handles)[handle])))
  {
    hide Chunks, Unread, Concat;
    ghost var before, answers := fs.handles, fs.handles[handle];
    ghost var left := answers;
    var buffers: seq<seq<Byte>> := [];
    assert [] + Chunks(answers) == Chunks(answers);
    while true
      invariant fs.Valid() && fs.handles == before[handle := left]
      invariant buffers + Chunks(left) == Chunks(answers)
      invariant Unread(left) == Unread(answers)
      decreases |left|
    {
      var read := fs.Read(handle, CHUNK_SIZE);
      Answered(buffers, left);
      left := if left == [] then [] else left[1..];
      if read.Nothing? || |read.bytes| == 0 {
        break;
      }
      buffers := buffers + [read.bytes];
    }
    var buffer := Gather(buffers);
    text := decode(buffer[..]);
  }

  /** What the next answer means for the chunks still to come. */
  lemma Answered(buffers: seq<seq<Byte>>, left: seq<Response>)
    ensures left == [] ==> buffers + Chunks(left) == buffers && Unread(left) == []
    ensures left != [] && Ends(left[0]) ==> buffers + Chunks(left) == buffers && Unread(left) == left[1..]
    ensures left != [] && !Ends(left[0]) ==>
      buffers + Chunks(left) == (buffers + [left[0].bytes]) + Chunks(left[1..]) && Unread(left) == Unread(left[1..])
  {
  }

  /** Opens, reads and closes: the file is read as if alone, and no handle stays open. */
  method ReadFileToString(fs: Filesystem, path: string, decode: seq<Byte> -> string) returns (text: string)
    requires fs.Valid() && path in fs.files
    modifies fs
    ensures fs.Valid() && fs.handles == old(fs.handles)
    ensures text == decode(Concat(Chunks(old(fs.files)[path])))
  {
    var handle := fs.Open(path);
    text := ReadHandleToString(fs, handle, decode);
    fs.Close(handle);
  }

  lemma {:induction false} ConcatTwo(a: seq<seq<Byte>>, b: seq<seq<Byte>>)
    ensures Concat(a + b) == Concat(a) + Concat(b)
  {
    if a == [] {
      assert a + b == b;
    } else {
      assert (a + b)[1..] == a[1..] + b;
      ConcatTwo(a[1..], b);
    }
  }

  lemma ConcatNext(chunks: seq<seq<Byte>>, i: nat)
    requires i < |chunks|
    ensures Concat(chunks[..i + 1]) == Concat(chunks[..i]) + chunks[i]
  {
    assert chunks[..i + 1] == chunks[..i] + [chunks[i]];
    ConcatTwo(chunks[..i], [chunks[i]]);
  }

  lemma ConcatPrefix(chunks: seq<seq<Byte>>, i: nat)
    requires i <= |chunks|
    ensures |Concat(chunks[..i])| <= |Concat(chunks)|
  {
    assert chunks == chunks[..i] + chunks[i..];
    ConcatTwo(chunks[..i], chunks[i..]);
  }

  lemma AllChunks(chunks: seq<seq<Byte>>)
    ensures chunks[..|chunks|] == chunks
  {
  }

  /** Which answers are read: all that come before the first that is missing or empty, and that one. */
  lemma {:induction false} StopsAtFirst(responses: seq<Response>) returns (n: nat)
    ensures n <= |responses| && |Chunks(responses)| == n
    ensures forall i :: 0 <= i < n ==>
      responses[i].Data? && responses[i].bytes != [] && Chunks(responses)[i] == responses[i].bytes
    ensures n < |responses| ==> responses[n].Nothing? || responses[n].bytes == []
    ensures Unread(responses) == if n < |responses| then responses[n + 1..] else []
  {
    if responses == [] || Ends(responses[0]) {
      n := 0;
    } else {
      var rest := responses[1..];
      var m := StopsAtFirst(rest);
      n := m + 1;
      assert Chunks(responses) == [responses[0].bytes] + Chunks(rest);
      assert m < |rest| ==> rest[m + 1..] == responses[n + 1..];
      hide Chunks, Unread;
      forall i | 0 <= i < n
        ensures responses[i].Data? && responses[i].bytes != [] && Chunks(responses)[i] == responses[i].bytes
      {
        if i > 0 {
          assert responses[i] == rest[i - 1] && Chunks(responses)[i] == Chunks(rest)[i - 1];
        }
      }
    }
  }

  /** Every byte of every chunk has its place, behind all earlier chunks. */
  lemma ByteOfChunk(chunks: seq<seq<Byte>>, i: nat, j: nat)
    requires i < |chunks| && j < |chunks[i]|
    ensures var place := |Concat(chunks[..i])| + j;
      place < |Concat(chunks)| && Concat(chunks)[place] == chunks[i][j]
    ensures i == 0 ==> |Concat(chunks[..i])| == 0
    ensures i > 0 ==> |Concat(chunks[..i])| == |Concat(chunks[..i - 1])| + |chunks[i - 1]|
  {
    assert chunks == chunks[..i + 1] + chunks[i + 1..];
    ConcatTwo(chunks[..i + 1], chunks[i + 1..]);
    ConcatNext(chunks, i);
    if i > 0 {
      ConcatNext(chunks, i - 1);
    }
  }

  /** Nothing is lost, reordered or repeated up to the first empty answer. */
  lemma {:induction false} ReadThenUnread(responses: seq<Response>)
    ensures Content(responses) == Concat(Chunks(responses)) + Content(Unread(responses))
  {
    if responses == [] {
    } else {
      var bytes, rest := if Ends(responses[0]) then [] else responses[0].bytes, responses[1..];
      assert Content(responses) == bytes + Content(rest);
      if Ends(responses[0]) {
        assert Chunks(responses) == [] && Unread(responses) == rest;
      } else {
        ReadThenUnread(rest);
        ConcatFirst(bytes, Chunks(rest));
        assert Chunks(responses) == [bytes] + Chunks(rest) && Unread(responses) == Unread(rest);
        hide Concat, Content, Chunks, Unread;
        Associative(bytes, Concat(Chunks(rest)), Content(Unread(rest)));
      }
    }
  }

  lemma Associative(a: seq<Byte>, b: seq<Byte>, c: seq<Byte>)
    ensures a + (b + c) == a + b + c
  {
  }

  lemma ConcatFirst(chunk: seq<Byte>, rest: seq<seq<Byte>>)
    ensures Concat([chunk] + rest) == chunk + Concat(rest)
  {
    assert ([chunk] + rest)[1..] == rest;
  }

  /** A component that, once it has answered with nothing, answers with nothing from then on. */
  predicate EndsOnlyAtEnd(responses: seq<Response>) {
    forall i, j :: 0 <= i < j < |responses| && Ends(responses[i]) ==> Ends(responses[j])
  }

  lemma {:induction false} NoContentIff(responses: seq<Response>)
    ensures Content(responses) == [] <==> forall i :: 0 <= i < |responses| ==> Ends(responses[i])
  {
    if responses == [] {
    } else {
      var rest := responses[1..];
      NoContentIff(rest);
      assert Content(responses) == [] <==> Ends(responses[0]) && Content(rest) == [];
      assert forall i :: 0 < i < |responses| ==> responses[i] == rest[i - 1];
    }
  }

  /** Nothing is left unread exactly for components that end only at the end. */
  lemma {:induction false} NothingUnreadIff(responses: seq<Response>)
    ensures Content(Unread(responses)) == [] <==> EndsOnlyAtEnd(responses)
  {
    if responses == [] {
    } else {
      var rest := responses[1..];
      assert forall i :: 0 < i < |responses| ==> responses[i] == rest[i - 1];
      if Ends(responses[0]) {
        NoContentIff(rest);
      } else {
        NothingUnreadIff(rest);
        EndsLater(responses);
      }
    }
  }

  lemma EndsLater(responses: seq<Response>)
    requires responses != [] && !Ends(responses[0])
    ensures EndsOnlyAtEnd(responses) <==> EndsOnlyAtEnd(responses[1..])
  {
    var rest := responses[1..];
    if EndsOnlyAtEnd(responses) {
      forall i, j | 0 <= i < j < |rest| && Ends(rest[i]) ensures Ends(rest[j]) {
        assert rest[i] == responses[i + 1] && rest[j] == responses[j + 1];
      }
    }
    if EndsOnlyAtEnd(rest) {
      forall i, j | 0 <= i < j < |responses| && Ends(responses[i]) ensures Ends(responses[j]) {
        assert responses[i] == rest[i - 1] && responses[j] == rest[j - 1];
      }
    }
  }

  /**
   The whole content is read exactly if the component ends only at the end: an empty chunk, or none,
   with data after it cuts the text short.
   */
  lemma WholeFileIff(responses: seq<Response>)
    ensures Concat(Chunks(responses)) == Content(responses) <==> EndsOnlyAtEnd(responses)
  {
    ReadThenUnread(responses);
    NothingUnreadIff(responses);
  }

  /** A component that delivers an empty chunk in the middle of a file loses the rest of it. */
  lemma EmptyChunkTruncates()
    ensures var responses := [Data([1]), Data([]), Data([2])];
      Concat(Chunks(responses)) == [1] && Content(responses) == [1, 2]
  {
    var responses := [Data([1]), Data([]), Data([2])];
    assert responses[1..] == [Data([]), Data([2])];
    assert responses[1..][1..] == [Data([2])] && responses[1..][1..][1..] == [];
    assert Chunks(responses[1..]) == [];
    assert Content(responses[1..][1..]) == [2] + Content([]);
    ConcatFirst([1], []);
  }

  /** How the reads were chunked does not matter: two such readers of the same content give the same bytes. */
  lemma ChunkingIrrelevant(a: seq<Response>, b: seq<Response>)
    requires EndsOnlyAtEnd(a) && EndsOnlyAtEnd(b) && Content(a) == Content(b)
    ensures Concat(Chunks(a)) == Concat(Chunks(b)) == Content(a)
  {
    WholeFileIff(a);
    WholeFileIff(b);
  }
}
