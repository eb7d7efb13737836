/** Whole runs of malloclab/mm.c by a client that also writes into its payloads: the byte
    heap behaves as a growing collection of independent blocks. */
module MmClient {
  import opened Layout
  import opened Pointers
  import opened Mm

  /** Calls of the allocator and writes of the client. Blocks go by order of allocation. */
  datatype Call =
    | Malloc(size: nat)
    | Realloc(i: nat, size: nat)
    | Free(i: nat)
    | Write(i: nat, at: nat, c: byte)

  type Store = seq<seq<byte>>

  /** The sizes of the blocks after a run. */
  ghost function Shape(calls: seq<Call>): seq<nat> {
    if calls == [] then [] else ShapeStep(Shape(calls[..|calls| - 1]), calls[|calls| - 1])
  }

  ghost function ShapeStep(sizes: seq<nat>, call: Call): seq<nat> {
    if (call.Malloc? || call.Realloc?) && Room(sizes, call.size) then sizes + [call.size] else sizes
  }

  /** A client may use the blocks it has been given, inside their payloads. */
  ghost predicate Legal(sizes: seq<nat>, call: Call) {
    match call
    case Malloc(size) => size <= INT_MAX
    case Realloc(i, size) => i < |sizes| && size <= INT_MAX
    case Free(i) => i < |sizes|
    case Write(i, at, _) => i < |sizes| && at < sizes[i]
  }

  ghost predicate LegalCalls(calls: seq<Call>) {
    forall k :: 0 <= k < |calls| ==> Legal(Shape(calls[..k]), calls[k])
  }

  /** A collection of independent blocks: an allocation with room adds one, whose contents are
      unknown except for what realloc copied; a write changes one byte of one block. */
  ghost predicate Next(sizes: seq<nat>, s: Store, call: Call, s': Store)
    requires |s| == |sizes|
  {
    match call
    case Malloc(size) =>
      if Room(sizes, size) then |s'| == |s| + 1 && s'[..|s|] == s && |s'[|s|]| == size else s' == s
    case Realloc(i, size) =>
      if Room(sizes, size)
      then |s'| == |s| + 1 && s'[..|s|] == s && |s'[|s|]| == size && (i < |s| ==> Agree(s'[|s|], s[i]))
      else s' == s
    case Free(_) => s' == s
    case Write(i, at, c) => i < |s| && at < |s[i]| && s' == s[i := s[i][at := c]]
  }

  ghost predicate IsRun(calls: seq<Call>, states: seq<Store>) {
    |states| == |calls| + 1 && states[0] == []
    && forall k :: 0 <= k < |calls| ==>
         |states[k]| == |Shape(calls[..k])| && Next(Shape(calls[..k]), states[k], calls[k], states[k + 1])
  }

  /** In every run, a byte of a block changes only when the client writes that very byte. */
  lemma {:induction false} OnlyWritesChange(calls: seq<Call>, states: seq<Store>, from: nat, to: nat, i: nat, j: nat)
    requires IsRun(calls, states) && from <= to <= |calls|
    requires i < |states[from]| && j < |states[from][i]|
    requires forall k :: from <= k < to && calls[k].Write? ==> !(calls[k].i == i && calls[k].at == j)
    ensures i < |states[to]| && j < |states[to][i]| && states[to][i][j] == states[from][i][j]
  {
    hide Next, Shape;
    if from < to {
      OnlyWritesChange(calls, states, from, to - 1, i, j);
      assert |states[to - 1]| == |Shape(calls[..to - 1])|;
      NextKeeps(Shape(calls[..to - 1]), states[to - 1], calls[to - 1], states[to - 1 + 1], i, j);
    }
  }

  lemma NextKeeps(sizes: seq<nat>, s: Store, call: Call, s': Store, i: nat, j: nat)
    requires |s| == |sizes| && Next(sizes, s, call, s') && i < |s| && j < |s[i]|
    requires call.Write? ==> !(call.i == i && call.at == j)
    ensures i < |s'| && j < |s'[i]| && s'[i][j] == s[i][j]
  {
    hide Room;
    if |s'| == |s| + 1 {
      assert s'[..|s|][i] == s[i];
    }
  }

  /** What a client writes it reads back, until it writes the same byte again. */
  lemma WriteIsRead(calls: seq<Call>, states: seq<Store>, k: nat, to: nat)
    requires IsRun(calls, states) && k < to <= |calls| && calls[k].Write?
    requires forall h :: k < h < to && calls[h].Write? ==> !(calls[h].i == calls[k].i && calls[h].at == calls[k].at)
    ensures var i, at := calls[k].i, calls[k].at;
            i < |states[to]| && at < |states[to][i]| && states[to][i][at] == calls[k].c
  {
    assert Next(Shape(calls[..k]), states[k], calls[k], states[k + 1]);
    OnlyWritesChange(calls, states, k + 1, to, calls[k].i, calls[k].at);
  }

  /** A realloc that adds a block gives it the size asked for and the bytes of the old block; a
      copied byte stays until the client writes it. */
  lemma ReallocIsCopy(calls: seq<Call>, states: seq<Store>, k: nat, to: nat, j: nat)
    requires IsRun(calls, states) && k < to <= |calls| && calls[k].Realloc? && |states[k]| < |states[k + 1]|
    requires calls[k].i < |states[k]| && j < |states[k][calls[k].i]| && j < calls[k].size
    requires forall h :: k < h < to && calls[h].Write? ==> !(calls[h].i == |states[k]| && calls[h].at == j)
    ensures var n := |states[k]|;
            |states[k + 1]| == n + 1 && |states[k + 1][n]| == calls[k].size && n < |states[to]|
            && j < |states[to][n]| && states[to][n][j] == states[k][calls[k].i][j]
  {
    assert Next(Shape(calls[..k]), states[k], calls[k], states[k + 1]);
    OnlyWritesChange(calls, states, k + 1, to, |states[k]|, j);
  }

  /** Every payload lies inside the heap behind its header; payloads of different blocks share
      no byte, and none reaches into a header. */
  lemma PayloadsApart(base: int, sizes: seq<nat>, i: nat)
    requires i < |sizes|
    ensures base + SIZE_T_SIZE <= AddrOf(base, sizes, i)
    ensures AddrOf(base, sizes, i) + sizes[i] <= base + Total(sizes)
    ensures forall j :: i < j < |sizes| ==>
              AddrOf(base, sizes, i) + sizes[i] <= AddrOf(base, sizes, j) - SIZE_T_SIZE
  {
    BlockInHeap(sizes, i);
    forall j | i < j < |sizes| ensures Offset(sizes, i) + SIZE_T_SIZE + sizes[i] <= Offset(sizes, j) {
      BlocksApart(sizes, i, j);
    }
  }

  lemma ShapeOfStep(calls: seq<Call>, k: nat)
    requires k < |calls|
    ensures Shape(calls[..k + 1]) == ShapeStep(Shape(calls[..k]), calls[k])
  {
    assert calls[..k + 1][..k] == calls[..k];
  }

  /** The client's pointers are the addresses of the blocks. */
  ghost predicate Holds(mm: Mm, ptrs: seq<int>)
    reads mm
  {
    |ptrs| == |mm.sizes| && forall k :: 0 <= k < |ptrs| ==> ptrs[k] == mm.Addr(k)
  }

  lemma HoldsMore(base: int, sizes: seq<nat>, size: nat, ptrs: seq<int>, p: int)
    requires base % ALIGNMENT == 0
    requires |ptrs| == |sizes| && forall k :: 0 <= k < |ptrs| ==> ptrs[k] == AddrOf(base, sizes, k)
    requires p == AddrOf(base, sizes + [size], |sizes|)
    ensures forall k :: 0 <= k < |ptrs + [p]| ==> (ptrs + [p])[k] == AddrOf(base, sizes + [size], k)
  {
    NextAddr(base, sizes, size);
  }

  lemma SpliceOne(s: seq<byte>, at: nat, c: byte)
    requires at < |s|
    ensures Splice(s, at, Repeat(c, 1)) == s[at := c]
  {
  }

  method Do(mm: Mm, call: Call, ptrs: seq<int>) returns (ptrs': seq<int>)
    requires mm.Valid() && Holds(mm, ptrs) && Legal(mm.sizes, call)
    modifies mm, mm.mem`brk, mm.mem.bytes
    ensures mm.Valid() && Holds(mm, ptrs') && mm.sizes == ShapeStep(old(mm.sizes), call)
    ensures Next(old(mm.sizes), old(mm.Data()), call, mm.Data())
  {
    hide HeadersHold, Splice, Offset, Total, Agree, Payload, AddrOf;
    ghost var sizes := mm.sizes;
    var p := NULL;
    match call {
      case Malloc(size) =>
        p := mm.Malloc(size);
      case Realloc(i, size) =>
        p := mm.Realloc(ptrs[i], size, i);
      case Free(i) =>
        mm.Free(ptrs[i]);
      case Write(i, at, c) =>
        SpliceOne(mm.Data()[i], at, c);
        mm.Fill(ptrs[i], at, c, 1, i);
    }
    ptrs' := ptrs;
    if p != NULL {
      HoldsMore(mm.mem.startBrk, sizes, call.size, ptrs, p);
      ptrs' := ptrs + [p];
    }
  }

  lemma NothingCalled(mm: Mm)
    ensures Shape([]) == [] && (mm.sizes == [] ==> Holds(mm, []))
  {
  }

  /** Every run of the byte-level allocator, with arbitrary client writes in between, is a run
      of the collection of independent blocks. */
  method RunCalls(mm: Mm, calls: seq<Call>) returns (ptrs: seq<int>, ghost states: seq<Store>)
    requires mm.Valid() && mm.sizes == [] && LegalCalls(calls)
    modifies mm, mm.mem`brk, mm.mem.bytes
    ensures mm.Valid() && mm.sizes == Shape(calls) && Holds(mm, ptrs)
    ensures IsRun(calls, states) && mm.Data() == states[|calls|]
  {
    hide Mm.Valid, Total, Offset, Next, Legal, Shape, ShapeStep, Payload, AddrOf, Holds;
    NothingCalled(mm);
    ptrs := [];
    states := [mm.Data()];
    assert calls[..0] == [];
    var i := 0;
    while i < |calls|
      invariant 0 <= i <= |calls|
      invariant mm.Valid() && mm.sizes == Shape(calls[..i]) && Holds(mm, ptrs)
      invariant |states| == i + 1 && states[0] == [] && states[i] == mm.Data()
      invariant forall k :: 0 <= k < i ==>
                  |states[k]| == |Shape(calls[..k])| && Next(Shape(calls[..k]), states[k], calls[k], states[k + 1])
    {
      ShapeOfStep(calls, i);
      ptrs := Do(mm, calls[i], ptrs);
      states := states + [mm.Data()];
      i := i + 1;
    }
    assert calls[..i] == calls;
  }
}
