/**
  Marks on the chunked handle stack of headers/mono/metadata/handle.h. How a handle is pushed is not in the header, so
  a push is any step that only appends.
 */
module HandleStack {
  import opened Options

  // ----- The stack on values

  /** A chunk with room for |elems| handles, the first `size` of which are in use. */
  datatype Chunk<H> = Chunk(size: nat, elems: seq<H>)

  /** Chunks from the bottom up; those above `top` are spare. */
  datatype Stack<H> = Stack(chunks: seq<Chunk<H>>, top: nat)

  datatype Mark = Mark(size: nat, chunk: nat)

  ghost predicate WellFormed<H>(s: Stack<H>) {
    s.top < |s.chunks| && forall i :: 0 <= i < |s.chunks| ==> s.chunks[i].size <= |s.chunks[i].elems|
  }

  /** The handles in use, from the bottom chunk to the top one, each up to its size. */
  ghost function Handles<H>(chunks: seq<Chunk<H>>, n: nat): seq<H>
    requires n <= |chunks| && forall i :: 0 <= i < |chunks| ==> chunks[i].size <= |chunks[i].elems|
  {
    if n == 0 then [] else Handles(chunks, n - 1) + chunks[n - 1].elems[..chunks[n - 1].size]
  }

  ghost function Contents<H>(s: Stack<H>): seq<H>
    requires WellFormed(s)
  {
    Handles(s.chunks, s.top + 1)
  }

  /** The number of handles in use in chunks `0..n`. */
  ghost function Used<H>(chunks: seq<Chunk<H>>, n: nat): nat
    requires n <= |chunks|
  {
    if n == 0 then 0 else Used(chunks, n - 1) + chunks[n - 1].size
  }

  lemma {:induction false} HandlesCount<H>(chunks: seq<Chunk<H>>, n: nat)
    requires n <= |chunks| && forall i :: 0 <= i < |chunks| ==> chunks[i].size <= |chunks[i].elems|
    ensures |Handles(chunks, n)| == Used(chunks, n)
  {
    if n > 0 {
      HandlesCount(chunks, n - 1);
    }
  }

  /** Each handle in use has its place in the contents, behind those of the chunks below; there are no others. */
  lemma {:induction false} HandleAt<H>(chunks: seq<Chunk<H>>, n: nat, i: nat, j: nat)
    requires i < n <= |chunks| && forall i :: 0 <= i < |chunks| ==> chunks[i].size <= |chunks[i].elems|
    requires j < chunks[i].size
    ensures |Handles(chunks, n)| == Used(chunks, n) && Used(chunks, i) + j < Used(chunks, n)
    ensures Handles(chunks, n)[Used(chunks, i) + j] == chunks[i].elems[j]
  {
    HandlesCount(chunks, n - 1);
    var low, last := Handles(chunks, n - 1), chunks[n - 1].elems[..chunks[n - 1].size];
    assert Handles(chunks, n) == low + last;
    if i < n - 1 {
      HandleAt(chunks, n - 1, i, j);
      assert (low + last)[Used(chunks, i) + j] == low[Used(chunks, i) + j];
    } else {
      assert (low + last)[|low| + j] == last[j];
    }
  }

  /** Handles in use stay, in the same places; new ones may follow in the top chunk and in chunks above it. */
  ghost predicate AppendOnly<H>(s: Stack<H>, s': Stack<H>) {
    && WellFormed(s) && WellFormed(s')
    && s.top <= s'.top
    && (forall i :: 0 <= i < s.top ==> s'.chunks[i].size == s.chunks[i].size)
    && s.chunks[s.top].size <= s'.chunks[s.top].size
    && (forall i, j :: 0 <= i <= s.top && 0 <= j < s.chunks[i].size ==> s'.chunks[i].elems[j] == s.chunks[i].elems[j])
  }

  /** `mono_stack_mark_init` */
  ghost function Init<H>(s: Stack<H>): Mark
    requires WellFormed(s)
  {
    Mark(s.chunks[s.top].size, s.top)
  }

  /** `mono_stack_mark_pop` */
  ghost function Pop<H>(s: Stack<H>, mark: Mark): Stack<H>
    requires mark.chunk < |s.chunks|
  {
    Stack(s.chunks[mark.chunk := s.chunks[mark.chunk].(size := mark.size)], mark.chunk)
  }

  lemma {:induction false} SameHandles<H>(chunks: seq<Chunk<H>>, chunks': seq<Chunk<H>>, n: nat)
    requires n <= |chunks| && forall i :: 0 <= i < |chunks| ==> chunks[i].size <= |chunks[i].elems|
    requires n <= |chunks'| && forall i :: 0 <= i < |chunks'| ==> chunks'[i].size <= |chunks'[i].elems|
    requires forall i :: 0 <= i < n ==> chunks'[i].size == chunks[i].size
    requires forall i, j :: 0 <= i < n && 0 <= j < chunks[i].size ==> chunks'[i].elems[j] == chunks[i].elems[j]
    ensures Handles(chunks', n) == Handles(chunks, n)
  {
    if n > 0 {
      SameHandles(chunks, chunks', n - 1);
      assert chunks'[n - 1].elems[..chunks'[n - 1].size] == chunks[n - 1].elems[..chunks[n - 1].size];
    }
  }

  lemma {:induction false} HandlesPrefix<H>(chunks: seq<Chunk<H>>, m: nat, n: nat)
    requires m <= n <= |chunks| && forall i :: 0 <= i < |chunks| ==> chunks[i].size <= |chunks[i].elems|
    ensures Handles(chunks, m) <= Handles(chunks, n)
  {
    if m < n {
      HandlesPrefix(chunks, m, n - 1);
    }
  }

  /** What an append-only step does to the contents. */
  lemma AppendOnlyAppends<H>(s: Stack<H>, s': Stack<H>)
    requires AppendOnly(s, s')
    ensures Contents(s) <= Contents(s')
  {
    SameHandles(s.chunks, s'.chunks, s.top);
    var now, later := s.chunks[s.top], s'.chunks[s.top];
    assert now.elems[..now.size] <= later.elems[..later.size];
    HandlesPrefix(s'.chunks, s.top + 1, s'.top + 1);
  }

  lemma AppendOnlyTransitive<H>(s: Stack<H>, s': Stack<H>, s'': Stack<H>)
    requires AppendOnly(s, s') && AppendOnly(s', s'')
    ensures AppendOnly(s, s'')
  {
    forall i, j | 0 <= i <= s.top && 0 <= j < s.chunks[i].size
      ensures s''.chunks[i].elems[j] == s.chunks[i].elems[j]
    {
      assert s'.chunks[i].elems[j] == s.chunks[i].elems[j];
    }
  }

  /** Popping a mark after any appending brings back the contents, and the top, of the moment it was taken. */
  lemma PopRestores<H>(s: Stack<H>, s': Stack<H>)
    requires AppendOnly(s, s')
    ensures AppendOnly(s, Pop(s', Init(s)))
    ensures Contents(Pop(s', Init(s))) == Contents(s) && Pop(s', Init(s)).top == s.top
  {
    SameHandles(s.chunks, Pop(s', Init(s)).chunks, s.top + 1);
  }

  // ----- Nested frames

  /** What happens in a frame: pushes, each given by the state it leads to, and inner frames. */
  datatype Steps<H> = Done | Push(after: Stack<H>, rest: Steps<H>) | Frame(body: Steps<H>, rest: Steps<H>)

  /** The state reached, or none if a push is not append-only. */
  ghost function Exec<H>(s: Stack<H>, steps: Steps<H>): Option<Stack<H>>
    requires WellFormed(s)
    decreases steps
  {
    match steps
    case Done => Some(s)
    case Push(after, rest) => if AppendOnly(s, after) then Exec(after, rest) else None
    case Frame(body, rest) =>
      match Exec(s, body)
      case None => None
      case Some(inner) =>
        if Init(s).chunk < |inner.chunks| && WellFormed(Pop(inner, Init(s))) then Exec(Pop(inner, Init(s)), rest)
        else None
  }

  /** Any nesting of frames is append-only as a whole. */
  lemma {:induction false} ExecAppends<H>(s: Stack<H>, steps: Steps<H>)
    requires WellFormed(s) && Exec(s, steps).Some?
    ensures AppendOnly(s, Exec(s, steps).value)
    decreases steps
  {
    match steps
    case Done =>
    case Push(after, rest) =>
      ExecAppends(after, rest);
      AppendOnlyTransitive(s, after, Exec(s, steps).value);
    case Frame(body, rest) =>
      ExecAppends(s, body);
      var popped := Pop(Exec(s, body).value, Init(s));
      PopRestores(s, Exec(s, body).value);
      ExecAppends(popped, rest);
      AppendOnlyTransitive(s, popped, Exec(s, steps).value);
  }

  /** Leaving a frame restores exactly the handles held on entry, whatever happened inside; it never gets stuck. */
  lemma FrameRestores<H>(s: Stack<H>, body: Steps<H>)
    requires WellFormed(s) && Exec(s, body).Some?
    ensures Exec(s, Frame(body, Done)).Some?
    ensures var after := Exec(s, Frame(body, Done)).value;
      WellFormed(after) && Contents(after) == Contents(s) && after.top == s.top
  {
    ExecAppends(s, body);
    PopRestores(s, Exec(s, body).value);
  }

  /** The steps of `a` followed by those of `b`. */
  ghost function Then<H>(a: Steps<H>, b: Steps<H>): Steps<H> {
    match a
    case Done => b
    case Push(after, rest) => Push(after, Then(rest, b))
    case Frame(body, rest) => Frame(body, Then(rest, b))
  }

  /** Steps are taken one after the other: what follows starts in the state that was reached. */
  lemma {:induction false} ExecThen<H>(s: Stack<H>, a: Steps<H>, b: Steps<H>)
    requires WellFormed(s)
    ensures Exec(s, a).Some? ==> WellFormed(Exec(s, a).value)
    ensures Exec(s, Then(a, b)) == if Exec(s, a).None? then None else Exec(Exec(s, a).value, b)
    decreases a
  {
    match a
    case Done =>
    case Push(after, rest) =>
      if AppendOnly(s, after) {
        ExecThen(after, rest, b);
      }
    case Frame(body, rest) =>
      if Exec(s, body).Some? {
        ExecAppends(s, body);
        PopRestores(s, Exec(s, body).value);
        ExecThen(Pop(Exec(s, body).value, Init(s)), rest, b);
      }
  }

  /** What is pushed after an inner frame has been left is held until the outer frame is left. */
  lemma PushedAfterFrame<H>(s: Stack<H>, body: Steps<H>, after: Stack<H>, rest: Steps<H>)
    requires WellFormed(s) && Exec(s, Frame(body, Push(after, rest))).Some?
    ensures WellFormed(after) && Contents(s) <= Contents(after)
    ensures var end := Exec(s, Frame(body, Push(after, rest))).value;
      WellFormed(end) && Contents(after) <= Contents(end)
  {
    ExecAppends(s, body);
    PopRestores(s, Exec(s, body).value);
    var popped := Pop(Exec(s, body).value, Init(s));
    AppendOnlyAppends(popped, after);
    ExecAppends(after, rest);
    AppendOnlyAppends(after, Exec(after, rest).value);
  }

  // ----- The stack in memory

  const OBJECTS_PER_HANDLES_CHUNK := 128 - 3

  class HandleChunk<H(0)> {
    var size: nat
    var prev: HandleChunk?<H>
    var next: HandleChunk?<H>
    const elems: array<H>

    constructor ()
      ensures size == 0 && prev == null && next == null
      ensures fresh(elems) && elems.Length == OBJECTS_PER_HANDLES_CHUNK
    {
      size, prev, next := 0, null, null;
      elems := new H[OBJECTS_PER_HANDLES_CHUNK];
    }
  }

  datatype HandleStackMark<H(0)> = HandleStackMark(size: nat, chunk: HandleChunk<H>)

  ghost function ChunkAt<H(0)>(chunks: seq<HandleChunk<H>>, i: int): HandleChunk?<H> {
    if 0 <= i < |chunks| then chunks[i] else null
  }

  class HandleStack<H(0)> {
    var top: HandleChunk<H>
    var bottom: HandleChunk<H>
    ghost var chunks: seq<HandleChunk<H>>
    ghost var topIndex: nat

    ghost predicate Valid()
      reads this, chunks
    {
      && topIndex < |chunks| && bottom == chunks[0] && top == chunks[topIndex]
      && (forall i, j :: 0 <= i < j < |chunks| ==> chunks[i] != chunks[j])
      && (forall i :: 0 <= i < |chunks| ==> chunks[i].elems.Length == OBJECTS_PER_HANDLES_CHUNK)
      && (forall i :: 0 <= i < |chunks| ==> chunks[i].size <= OBJECTS_PER_HANDLES_CHUNK)
      && (forall i {:trigger chunks[i].prev} :: 0 <= i < |chunks| ==> chunks[i].prev == ChunkAt(chunks, i - 1))
      && (forall i {:trigger chunks[i].next} :: 0 <= i < |chunks| ==> chunks[i].next == ChunkAt(chunks, i + 1))
    }

    ghost function Abstract(): Stack<H>
      reads this, chunks, set i | 0 <= i < |chunks| :: chunks[i].elems
    {
      Stack(seq(|chunks|, i requires 0 <= i < |chunks| 
        reads this, chunks, set j | 0 <= j < |chunks| :: chunks[j].elems =>
        Chunk(chunks[i].size, chunks[i].elems[..])), topIndex)
    }

    constructor ()
      ensures Valid() && WellFormed(Abstract()) && Contents(Abstract()) == []
    {
      var chunk := new HandleChunk<H>();
      top, bottom := chunk, chunk;
      chunks, topIndex := [chunk], 0;
      new;
      assert Handles(Abstract().chunks, 0) == [];
    }

    /** `mono_stack_mark_init` */
    method MarkInit() returns (mark: HandleStackMark<H>)
      requires Valid()
      ensures WellFormed(Abstract())
      ensures mark.chunk == chunks[topIndex] && Mark(mark.size, topIndex) == Init(Abstract())
    {
      mark := HandleStackMark(top.size, top);
    }

    /** `mono_stack_mark_pop`, for a mark of chunk `i`. */
    method MarkPop(mark: HandleStackMark<H>, ghost i: nat)
      requires Valid() && i < |chunks| && mark.chunk == chunks[i] && mark.size <= OBJECTS_PER_HANDLES_CHUNK
      modifies `top, `topIndex, mark.chunk`size
      ensures Valid() && chunks == old(chunks)
      ensures Abstract() == Pop(old(Abstract()), Mark(mark.size, i))
    {
      var oldTop := mark.chunk;
      oldTop.size := mark.size;
      top := oldTop;
      topIndex := i;
      assert forall j :: 0 <= j < |chunks| && j != i ==> chunks[j] != oldTop;
    }
  }
}
