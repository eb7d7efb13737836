/** The allocator of malloclab/mm.c over the simulated heap. */
module Mm {
  import opened Layout
  import opened MemLib
  import opened Pointers

  /** The address of payload `i` in a heap that starts at `base`. */
  ghost function AddrOf(base: int, sizes: seq<nat>, i: nat): int
    requires i <= |sizes|
  {
    base + Offset(sizes, i) + SIZE_T_SIZE
  }

  /** One more block for a payload of `size` bytes fits the heap. */
  ghost predicate Room(sizes: seq<nat>, size: nat) {
    Total(sizes) + Align(size + SIZE_T_SIZE) <= MAX_HEAP
  }

  /** A fresh payload is aligned and starts beyond the heap so far. */
  lemma NextAddr(base: int, sizes: seq<nat>, size: nat)
    requires base % ALIGNMENT == 0
    ensures AddrOf(base, sizes + [size], |sizes|) == base + Total(sizes) + SIZE_T_SIZE
    ensures AddrOf(base, sizes + [size], |sizes|) % ALIGNMENT == 0
    ensures forall i :: 0 <= i < |sizes| ==> AddrOf(base, sizes + [size], i) == AddrOf(base, sizes, i)
  {
    hide Total, Align;
    OffsetOfPrefix(sizes, [size], |sizes|);
    WholeHeap(sizes);
    OffsetIsAligned(sizes, |sizes|);
    forall i | 0 <= i < |sizes| ensures Offset(sizes + [size], i) == Offset(sizes, i) {
      OffsetOfPrefix(sizes, [size], i);
    }
  }

  /** `a` and `b` agree as far as both go. */
  ghost predicate Agree(a: seq<byte>, b: seq<byte>) {
    forall j :: 0 <= j < |a| && j < |b| ==> a[j] == b[j]
  }

  /** Of the heap, nothing was written but a header at `at` and `n` bytes of its payload. */
  ghost predicate OnlyWrote(was: seq<byte>, now: seq<byte>, at: nat, n: nat) {
    |now| == |was|
    && forall k :: 0 <= k < |now| ==>
         at <= k < at + 8 || at + SIZE_T_SIZE <= k < at + SIZE_T_SIZE + n || now[k] == was[k]
  }

  /** Nothing outside of the new header and the copied bytes changes. */
  lemma ByteNotWritten(was: seq<byte>, now: seq<byte>, at: nat, n: nat, k: nat)
    requires OnlyWrote(was, now, at, n) && k < |was|
    requires k < at || at + 8 <= k < at + 16 || at + 16 + n <= k
    ensures k < |now| && now[k] == was[k]
  {
  }

  lemma HeaderOnlyWrote(was: seq<byte>, at: nat, bs: seq<byte>)
    requires |bs| == 8 && at + 8 <= |was|
    ensures OnlyWrote(was, Splice(was, at, bs), at, 0)
  {
  }

  lemma CopyOnlyWrote(was: seq<byte>, now: seq<byte>, at: nat, bs: seq<byte>)
    requires OnlyWrote(was, now, at, 0) && at + SIZE_T_SIZE + |bs| <= |now|
    ensures OnlyWrote(was, Splice(now, at + SIZE_T_SIZE, bs), at, |bs|)
  {
  }

  /** A new payload `c`, once the first bytes of an old one, `b`, were copied into it. */
  lemma CopyAgrees(c: seq<byte>, b: seq<byte>, n: nat)
    requires n == if |c| < |b| then |c| else |b|
    ensures Agree(Splice(c, 0, b[..n]), b)
  {
  }

  lemma PayloadPrefix(bytes: seq<byte>, sizes: seq<nat>, i: nat, n: nat)
    requires HeadersHold(bytes, sizes) && i < |sizes| && n <= sizes[i]
    ensures Offset(sizes, i) + SIZE_T_SIZE + n <= |bytes|
    ensures var at := Offset(sizes, i) + SIZE_T_SIZE;
            Payload(bytes, sizes, i)[..n] == bytes[at..at + n]
  {
    BlockInHeap(sizes, i);
  }

  /** The first bytes of a payload, in memory. */
  lemma FirstBytes(bytes: seq<byte>, sizes: seq<nat>, i: nat, n: nat, base: int, p: int)
    requires HeadersHold(bytes, sizes) && i < |sizes| && n <= sizes[i] && p == AddrOf(base, sizes, i)
    ensures 0 <= p - base && p - base + n <= |bytes|
    ensures Payload(bytes, sizes, i)[..n] == bytes[p - base..p - base + n]
  {
    hide HeadersHold, Payload, Offset;
    PayloadPrefix(bytes, sizes, i, n);
  }

  /** Payloads that agree, in memory: as many bytes are equal as the shorter of the two has. */
  lemma AgreeInMemory(now: seq<byte>, sizes': seq<nat>, k: nat, was: seq<byte>, sizes: seq<nat>, i: nat, base: int)
    requires HeadersHold(now, sizes') && k < |sizes'| && HeadersHold(was, sizes) && i < |sizes|
    ensures var n := if sizes'[k] < sizes[i] then sizes'[k] else sizes[i];
            var to, from := AddrOf(base, sizes', k) - base, AddrOf(base, sizes, i) - base;
            0 <= to && to + n <= |now| && 0 <= from && from + n <= |was|
            && (Agree(Payload(now, sizes', k), Payload(was, sizes, i)) <==> now[to..to + n] == was[from..from + n])
  {
    hide Payload, Offset;
    var n := if sizes'[k] < sizes[i] then sizes'[k] else sizes[i];
    FirstBytes(now, sizes', k, n, base, AddrOf(base, sizes', k));
    FirstBytes(was, sizes, i, n, base, AddrOf(base, sizes, i));
    AgreeIsPrefix(Payload(now, sizes', k), Payload(was, sizes, i), n);
  }

  lemma AgreeIsPrefix(a: seq<byte>, b: seq<byte>, n: nat)
    requires n == if |a| < |b| then |a| else |b|
    ensures Agree(a, b) <==> a[..n] == b[..n]
  {
    if a[..n] == b[..n] {
      forall j | 0 <= j < |a| && j < |b| ensures a[j] == b[j] {
        assert a[..n][j] == b[..n][j];
      }
    }
  }

  class Mm {
    const mem: Mem
    /** What the successful calls of mm_malloc since the last reset asked for. Blocks are
        never given back, so this is the whole layout of the heap. */
    ghost var sizes: seq<nat>

    ghost predicate Valid()
      reads this, mem, mem.bytes
    {
      mem.Valid()
      && mem.HeapSize() == Total(sizes)
      && HeadersHold(mem.bytes[..], sizes)
    }

    /** The contents of all payloads handed out so far. */
    ghost function Data(): seq<seq<byte>>
      requires Valid()
      reads this, mem, mem.bytes
    {
      Payloads(mem.bytes[..], sizes)
    }

    ghost function Addr(i: nat): int
      requires i < |sizes|
      reads this
    {
      AddrOf(mem.startBrk, sizes, i)
    }

    constructor (mem: Mem)
      requires mem.Valid() && mem.HeapSize() == 0
      ensures Valid() && this.mem == mem && sizes == []
    {
      this.mem, sizes := mem, [];
    }

    /** `mem_reset_brk` followed by `mm_init`, as the replays start. */
    method Reset() returns (r: int)
      requires mem.Valid()
      modifies this, mem`brk
      ensures Valid() && sizes == [] && mem.brk == mem.startBrk && r == 0
    {
      mem.ResetBrk();
      sizes := [];
      r := 0;
    }

    /** The code of mm_malloc, for every size_t. It refuses exactly a negative or too large
        rounded size, and the block it grants is too small exactly for the sizes above INT_MAX - 31.
        When the size rounds to nothing, the header is still stored at brk, so it must fit there. */
    method MallocAny(size: nat) returns (p: int)
      requires mem.Valid() && size <= SIZE_MAX
      requires NewSize(size) == 0 ==> mem.brk + 8 <= mem.maxAddr
      modifies mem`brk, mem.bytes
      ensures mem.Valid()
      ensures p == NULL <==> NewSize(size) < 0 || MAX_HEAP - old(mem.HeapSize()) < NewSize(size)
      ensures p == NULL ==> mem.brk == old(mem.brk) && mem.bytes[..] == old(mem.bytes[..])
      ensures p != NULL ==>
                p == old(mem.brk) + SIZE_T_SIZE && mem.brk == old(mem.brk) + NewSize(size)
                && old(mem.HeapSize()) + 8 <= MAX_HEAP
                && mem.bytes[..] == Splice(old(mem.bytes[..]), old(mem.HeapSize()), ToBytes(size, 8))
      ensures p != NULL ==> (mem.brk < p + size <==> INT_MAX - 31 < size)
    {
      hide Splice, ToBytes, NewSize;
      NewSizeSuffices(size);
      NewSizeIsAligned(size);
      var newsize := NewSize(size);
      var q := mem.Sbrk(newsize);
      if q == SBRK_FAILED {
        return NULL;
      }
      mem.StoreWord(q, size);
      return q + SIZE_T_SIZE;
    }

    /** On the sizes of an int: fails exactly when the rounded block does not fit, and then
        changes nothing. */
    method Malloc(size: nat) returns (p: int)
      requires Valid() && size <= INT_MAX
      modifies this, mem`brk, mem.bytes
      ensures Valid()
      ensures p != NULL <==> Room(old(sizes), size)
      ensures p != NULL <==> old(mem.HeapSize()) + Align(size + 16) <= 52428800
      ensures p == NULL ==>
                sizes == old(sizes) && mem.brk == old(mem.brk) && mem.bytes[..] == old(mem.bytes[..])
      ensures p != NULL ==>
                sizes == old(sizes) + [size] && p == Addr(|old(sizes)|) && p % ALIGNMENT == 0
                && mem.brk == old(mem.brk) + Align(size + SIZE_T_SIZE)
                && p == old(mem.brk) + SIZE_T_SIZE
                && Data() == old(Data()) + [Data()[|old(sizes)|]]
      ensures p != NULL ==> OnlyWrote(old(mem.bytes[..]), mem.bytes[..], old(Total(sizes)), 0)
    {
      hide HeadersHold, Splice, ToBytes, Payloads, Total, OnlyWrote, NewSize;
      NewSizeSuffices(size);
      TotalOfMore(sizes, size);
      NextAddr(mem.startBrk, sizes, size);
      ghost var was, at := mem.bytes[..], Total(sizes);
      p := MallocAny(size);
      if p != NULL {
        WriteNewHeader(was, sizes, size);
        HeaderOnlyWrote(was, at, ToBytes(size, 8));
        sizes := sizes + [size];
      }
    }

    method Free(ptr: int) {
    }

    /** Always moves: the new payload starts with a copy of the old one, as far as both go. */
    method Realloc(ptr: int, size: nat, ghost i: nat) returns (p: int)
      requires Valid() && size <= INT_MAX
      requires i < |sizes| && ptr == Addr(i)
      modifies this, mem`brk, mem.bytes
      ensures Valid()
      ensures p != NULL <==> Room(old(sizes), size)
      ensures p != NULL <==> old(mem.HeapSize()) + Align(size + 16) <= 52428800
      ensures p == NULL ==>
                sizes == old(sizes) && mem.brk == old(mem.brk) && mem.bytes[..] == old(mem.bytes[..])
      ensures p != NULL ==>
                sizes == old(sizes) + [size] && p == Addr(|old(sizes)|) && p % ALIGNMENT == 0
                && mem.brk == old(mem.brk) + Align(size + SIZE_T_SIZE)
                && p == old(mem.brk) + SIZE_T_SIZE
                && Data() == old(Data()) + [Data()[|old(sizes)|]]
                && Agree(Data()[|old(sizes)|], old(Data())[i])
      ensures p != NULL ==>
                OnlyWrote(old(mem.bytes[..]), mem.bytes[..], old(Total(sizes)),
                          if size < sizes[i] then size else sizes[i])
    {
      hide HeadersHold, Splice, Payloads, Agree, Total, Offset, OnlyWrote;
      var newptr := Malloc(size);
      if newptr == NULL {
        return NULL;
      }
      ghost var k := |old(sizes)|;
      NextAddr(mem.startBrk, old(sizes), size);
      var copySize := ReadHeader(ptr, i);
      if size < copySize {
        copySize := size;
      }
      CopyAgrees(Data()[k], Data()[i], copySize);
      BlockInHeap(sizes, k);
      WholeHeap(old(sizes));
      OffsetOfPrefix(old(sizes), [size], k);
      CopyOnlyWrote(old(mem.bytes[..]), mem.bytes[..], old(Total(sizes)), Data()[i][..copySize]);
      Copy(newptr, ptr, copySize, k, i);
      Free(ptr);
      return newptr;
    }

    method ReadHeader(p: int, ghost i: nat) returns (size: nat)
      requires Valid() && i < |sizes| && p == Addr(i)
      ensures size == sizes[i]
    {
      BlockInHeap(sizes, i);
      assert Header(mem.bytes[..], sizes, i) == sizes[i];
      size := mem.LoadWord(p - SIZE_T_SIZE);
    }

    /** memcpy from an earlier payload into a later one. */
    method Copy(dst: int, src: int, n: nat, ghost k: nat, ghost i: nat)
      requires Valid() && i < k < |sizes| && dst == Addr(k) && src == Addr(i)
      requires n <= sizes[i] && n <= sizes[k]
      modifies mem.bytes
      ensures Valid()
      ensures Data() == old(Data())[k := Splice(old(Data())[k], 0, old(Data())[i][..n])]
      ensures dst - mem.startBrk + n <= MAX_HEAP
      ensures mem.bytes[..] == Splice(old(mem.bytes[..]), dst - mem.startBrk, old(Data())[i][..n])
    {
      hide HeadersHold, Splice, Total, Offset, Payload;
      BlockInHeap(sizes, i);
      BlockInHeap(sizes, k);
      BlocksApart(sizes, i, k);
      PayloadPrefix(mem.bytes[..], sizes, i, n);
      WriteInPayload(mem.bytes[..], sizes, k, 0, Data()[i][..n]);
      mem.MemCpy(dst, src, n);
    }

    /** A client's memset of `n` bytes inside a payload, from byte `at` of it on. */
    method Fill(p: int, at: nat, c: byte, n: nat, ghost i: nat)
      requires Valid() && i < |sizes| && p == Addr(i) && at + n <= sizes[i]
      modifies mem.bytes
      ensures Valid()
      ensures Data() == old(Data())[i := Splice(old(Data())[i], at, Repeat(c, n))]
    {
      hide HeadersHold, Splice, Total, Offset, Payload;
      BlockInHeap(sizes, i);
      WriteInPayload(mem.bytes[..], sizes, i, at, Repeat(c, n));
      mem.MemSet(p + at, c, n);
    }
  }
}
