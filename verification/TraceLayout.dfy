/** Where malloclab/mm.c puts the blocks of a trace: the same in every replay. */
module TraceLayout {
  import opened Layout
  import opened MemLib
  import opened Pointers
  import opened Mm
  import opened Ranges
  import opened Checker

  /** The sizes mm_malloc is asked for by a trace, in order. */
  ghost function Served(ops: seq<TraceOp>): seq<nat> {
    if ops == [] then []
    else
      var before, op := ops[..|ops| - 1], ops[|ops| - 1];
      if op.Free? then Served(before) else Served(before) + [op.size]
  }

  /** The block, by order of allocation, that an id was given last. */
  ghost function Owner(ops: seq<TraceOp>): map<nat, nat> {
    if ops == [] then map[]
    else
      var before, op := ops[..|ops| - 1], ops[|ops| - 1];
      if op.Free? then Owner(before) else Owner(before)[op.index := |Served(before)|]
  }

  /** The pointer that each operation gets, NULL for a free. */
  ghost function Addresses(base: int, ops: seq<TraceOp>): (ptrs: seq<int>)
    ensures |ptrs| == |ops|
  {
    if ops == [] then []
    else
      var before, op := ops[..|ops| - 1], ops[|ops| - 1];
      Addresses(base, before) + [if op.Free? then NULL else base + Total(Served(before)) + SIZE_T_SIZE]
  }

  ghost function ExtentOf(base: int, sizes: seq<nat>, k: nat): Extent
    requires k < |sizes|
  {
    Extent(AddrOf(base, sizes, k), sizes[k])
  }

  lemma {:induction false} OwnersAreNamed(ops: seq<TraceOp>)
    ensures Owner(ops).Keys == Named(ops)
    ensures forall id :: id in Owner(ops) ==> Owner(ops)[id] < |Served(ops)|
  {
    if ops != [] {
      OwnersAreNamed(ops[..|ops| - 1]);
    }
  }

  /** What `blocks` and `block_sizes` hold for the ids of a trace. */
  ghost function Extents(base: int, ops: seq<TraceOp>): (m: map<nat, Extent>)
    ensures m.Keys == Named(ops)
  {
    OwnersAreNamed(ops);
    map id | id in Owner(ops) :: ExtentOf(base, Served(ops), Owner(ops)[id])
  }

  lemma TraceStep(base: int, before: seq<TraceOp>, op: TraceOp)
    ensures Served(before + [op]) == if op.Free? then Served(before) else Served(before) + [op.size]
    ensures Owner(before + [op]) == if op.Free? then Owner(before) else Owner(before)[op.index := |Served(before)|]
    ensures Named(before + [op]) == if op.Free? then Named(before) else Named(before) + {op.index}
    ensures Addresses(base, before + [op]) ==
            Addresses(base, before) + [if op.Free? then NULL else base + Total(Served(before)) + SIZE_T_SIZE]
    ensures LiveIds(before + [op]) == LiveStep(LiveIds(before), op)
  {
    hide LiveStep, Total, Align;
    assert (before + [op])[..|before|] == before;
  }

  lemma ExtentsStep(base: int, before: seq<TraceOp>, op: TraceOp)
    requires base % ALIGNMENT == 0
    ensures Extents(base, before + [op]) ==
            if op.Free? then Extents(base, before)
            else Extents(base, before)[op.index := Extent(base + Total(Served(before)) + SIZE_T_SIZE, op.size)]
  {
    TraceStep(base, before, op);
    OwnersAreNamed(before);
    hide Served, Owner, Named, Addresses, LiveIds;
    if !op.Free? {
      NextAddr(base, Served(before), op.size);
    }
  }

  lemma KnownBlock(base: int, done: seq<TraceOp>, id: nat)
    requires id in Named(done)
    ensures id in Owner(done) && Owner(done)[id] < |Served(done)|
    ensures Extents(base, done)[id] == ExtentOf(base, Served(done), Owner(done)[id])
  {
  }

  // ------------------------------------------------------------ fill bytes

  /** All bytes of a payload are the low byte of its id. */
  ghost predicate Uniform(data: seq<byte>, id: nat) {
    forall j :: 0 <= j < |data| ==> data[j] as int == id % 256
  }

  ghost predicate Filled(data: seq<seq<byte>>, owner: map<nat, nat>) {
    forall id :: id in owner ==> owner[id] < |data| && Uniform(data[owner[id]], id)
  }

  lemma FilledMore(data: seq<seq<byte>>, owner: map<nat, nat>, id: nat, b: seq<byte>)
    requires Filled(data, owner) && Uniform(b, id)
    ensures Filled(data + [b], owner[id := |data|])
  {
  }

  lemma FillIsUniform(b: seq<byte>, id: nat)
    ensures Uniform(Splice(b, 0, Repeat((id % 256) as byte, |b|)), id)
  {
  }

  /** The block after those of `was` starts with a copy of the block that `id` owned. */
  ghost predicate NewestAgrees(data: seq<seq<byte>>, was: seq<seq<byte>>, owner: map<nat, nat>, id: nat) {
    id in owner && owner[id] < |was| < |data| && Agree(data[|was|], was[owner[id]])
  }

  /** The low byte of an id, read back through a signed char, compares equal exactly below 128. */
  lemma PreservedIfSmall(b: seq<byte>, n: nat, id: nat)
    requires 0 < n <= |b| && forall j :: 0 <= j < n ==> b[j] as int == id % 256
    ensures Preserved(b, n, id) <==> id % 256 < 128
  {
    assert b[0] as int == id % 256;
  }

  // ------------------------------------------------------------ ranges

  /** The records of a bump allocator: pairwise disjoint, newer above older, all below brk. */
  ghost predicate Stacked(rs: seq<Range>, brk: int) {
    (forall i :: 0 <= i < |rs| ==> rs[i].lo <= rs[i].hi < brk)
    && forall i, j :: 0 <= i < j < |rs| ==> rs[j].hi < rs[i].lo
  }

  /** A payload at the end of the heap passes every test. */
  lemma FreshIsAccepted(rs: seq<Range>, brk: int, p: int, size: nat, heapLo: int, end: int)
    requires Stacked(rs, brk) && heapLo <= brk && p == brk + SIZE_T_SIZE && p % ALIGNMENT == 0
    requires 0 < size && p + size <= end
    ensures Accepts(rs, p, size, heapLo, end - 1)
    ensures Stacked([Range(p, p + size - 1)] + rs, end)
  {
  }

  lemma RemoveIsStacked(rs: seq<Range>, lo: int, brk: int)
    requires Stacked(rs, brk)
    ensures Stacked(Remove(rs, lo), brk)
  {
    hide Remove, Laminar;
    RemoveDropsOne(rs, lo);
  }

  // ------------------------------------------------------------ what passes

  /** The traces that mm.c passes: the blocks fit the heap, and no id is reallocated whose low
      byte is lost on the way through a signed char. */
  ghost predicate Passes(ops: seq<TraceOp>) {
    Total(Served(ops)) <= MAX_HEAP
    && forall k :: 0 <= k < |ops| && ops[k].Realloc? ==> ops[k].index % 256 < 128
  }

  lemma PassesStep(ops: seq<TraceOp>, i: nat)
    requires i < |ops|
    ensures ops[..i + 1] == ops[..i] + [ops[i]] && ops[..i + 1][..i] == ops[..i]
    ensures Passes(ops[..i + 1]) <==>
            Passes(ops[..i]) && (!ops[i].Free? ==> Room(Served(ops[..i]), ops[i].size))
            && (ops[i].Realloc? ==> ops[i].index % 256 < 128)
  {
    hide Total, Served, Align;
    var before, after := ops[..i], ops[..i + 1];
    assert after[..i] == before && after == before + [ops[i]];
    TraceStep(0, before, ops[i]);
    if !ops[i].Free? {
      TotalOfMore(Served(before), ops[i].size);
    }
    assert forall k :: 0 <= k < i ==> after[k] == before[k];
    assert after[i] == ops[i];
  }

  lemma {:induction false} PassesIsClosed(ops: seq<TraceOp>, i: nat)
    requires i <= |ops| && Passes(ops)
    ensures Passes(ops[..i])
  {
    if i == |ops| {
      assert ops[..i] == ops;
    } else {
      var n := |ops| - 1;
      assert ops[..n + 1] == ops;
      PassesStep(ops, n);
      PassesIsClosed(ops[..n], i);
      assert ops[..n][..i] == ops[..i];
    }
  }

  lemma PassesFits(ops: seq<TraceOp>)
    requires Passes(ops)
    ensures Total(Served(ops)) <= MAX_HEAP
  {
  }

  /** What a realloc of `id` finds preserved: old bytes as far as old and new payload go. */
  ghost function Overlap(base: int, done: seq<TraceOp>, id: nat, size: nat): int
    requires id in Named(done)
  {
    var was := Extents(base, done)[id].size;
    if size < was then size else was
  }

  lemma AlignedSum(base: int, before: seq<TraceOp>)
    requires base % ALIGNMENT == 0
    ensures (base + Total(Served(before)) + SIZE_T_SIZE) % ALIGNMENT == 0
  {
    hide Served, Total, Offset;
    WholeHeap(Served(before));
    OffsetIsAligned(Served(before), |Served(before)|);
  }

  lemma OverlapIsPositive(base: int, before: seq<TraceOp>, id: nat, size: nat)
    requires id in Named(before) && 0 < size && 0 < Extents(base, before)[id].size
    ensures 0 < Overlap(base, before, id, size)
  {
  }

  lemma {:induction false} ExtentsAreInts(base: int, ops: seq<TraceOp>, numIds: nat)
    requires base % ALIGNMENT == 0 && WellFormed(ops, numIds)
    ensures forall id :: id in Extents(base, ops) ==> 0 < Extents(base, ops)[id].size <= INT_MAX
  {
    if ops != [] {
      var n := |ops| - 1;
      assert ops == ops[..n] + [ops[n]];
      assert OpFits(ops[..n], ops[n], numIds);
      forall k | 0 <= k < n ensures OpFits(ops[..n][..k], ops[..n][k], numIds) {
        assert ops[..n][..k] == ops[..k];
      }
      ExtentsAreInts(base, ops[..n], numIds);
      ExtentsStep(base, ops[..n], ops[n]);
    }
  }

  lemma RoomStep(done: seq<TraceOp>, op: TraceOp)
    requires Total(Served(done)) <= MAX_HEAP
    ensures Total(Served(done + [op])) <= MAX_HEAP <==> op.Free? || Room(Served(done), op.size)
  {
    TraceStep(0, done, op);
    hide Total, Served, Align;
    if !op.Free? {
      TotalOfMore(Served(done), op.size);
    }
  }

  lemma {:induction false} RoomIsClosed(ops: seq<TraceOp>, i: nat)
    requires i <= |ops|
    ensures Total(Served(ops[..i])) <= Total(Served(ops))
  {
    if i == |ops| {
      assert ops[..i] == ops;
    } else {
      var n := |ops| - 1;
      RoomIsClosed(ops[..n], i);
      assert ops[..n][..i] == ops[..i];
      if !ops[n].Free? {
        TotalOfMore(Served(ops[..n]), ops[n].size);
      }
    }
  }

  lemma NothingLaid(base: int)
    ensures Extents(base, []) == map[] && Served([]) == [] && Owner([]) == map[] && Addresses(base, []) == []
    ensures Total([]) == 0 && Stacked([], base) && Passes([])
  {
  }

  /** The largest block that passes alone. */
  lemma LargestBlock(id: nat, size: nat)
    ensures Passes([Alloc(id, size)]) <==> size <= 52428784
  {
    hide Served, Total, Align;
    var op := TraceOp.Alloc(id, size);
    NothingLaid(0);
    TraceStep(0, [], op);
    assert [] + [op] == [op];
    TotalOfMore([], size);
    assert 52428800 % 16 == 0;
    RoundedFits(size);
  }

  lemma RoundedFits(size: nat)
    ensures Align(size + SIZE_T_SIZE) <= MAX_HEAP <==> size <= 52428784
  {
  }

  // ------------------------------------------------------------ where the blocks lie

  lemma {:induction false} AddressIs(base: int, ops: seq<TraceOp>, k: nat)
    requires k < |ops|
    ensures Addresses(base, ops)[k] == if ops[k].Free? then NULL else base + Total(Served(ops[..k])) + SIZE_T_SIZE
  {
    hide Total, Served;
    if k < |ops| - 1 {
      AddressIs(base, ops[..|ops| - 1], k);
      assert ops[..|ops| - 1][..k] == ops[..k];
    }
  }

  lemma {:induction false} FreesServeNothing(ops: seq<TraceOp>, i: nat, k: nat)
    requires i <= k <= |ops| && forall h :: i <= h < k ==> ops[h].Free?
    ensures Served(ops[..k]) == Served(ops[..i])
  {
    if i < k {
      FreesServeNothing(ops, i, k - 1);
      assert ops[..k][..k - 1] == ops[..k - 1];
    }
  }

  /** The first payload starts 16 bytes into the heap, and each further one as far behind the last
      as that one's size and 16 bytes take, rounded up to a multiple of 16. */
  lemma AddressesFollow(base: int, ops: seq<TraceOp>, k: nat)
    requires k < |ops| && !ops[k].Free?
    ensures (forall h :: 0 <= h < k ==> ops[h].Free?) ==> Addresses(base, ops)[k] == base + 16
    ensures forall j :: (0 <= j < k && !ops[j].Free? && forall h :: j < h < k ==> ops[h].Free?) ==>
              var step := Addresses(base, ops)[k] - Addresses(base, ops)[j];
              ops[j].size + 16 <= step < ops[j].size + 32 && step % 16 == 0
  {
    hide Total, Served, Addresses;
    AddressIs(base, ops, k);
    NothingLaid(base);
    if forall h :: 0 <= h < k ==> ops[h].Free? {
      FreesServeNothing(ops, 0, k);
      assert ops[..0] == [];
    }
    forall j | 0 <= j < k && !ops[j].Free? && forall h :: j < h < k ==> ops[h].Free?
      ensures var step := Addresses(base, ops)[k] - Addresses(base, ops)[j];
              ops[j].size + 16 <= step < ops[j].size + 32 && step % 16 == 0
    {
      NextAddress(base, ops, j, k);
    }
  }

  lemma NextAddress(base: int, ops: seq<TraceOp>, j: nat, k: nat)
    requires j < k < |ops| && !ops[j].Free? && !ops[k].Free? && forall h :: j < h < k ==> ops[h].Free?
    ensures var step := Addresses(base, ops)[k] - Addresses(base, ops)[j];
            ops[j].size + 16 <= step < ops[j].size + 32 && step % 16 == 0
  {
    hide Total, Served, Addresses, Owner, Named, LiveIds, LiveStep, Align;
    AddressIs(base, ops, j);
    AddressIs(base, ops, k);
    FreesServeNothing(ops, j + 1, k);
    assert ops[..j + 1] == ops[..j] + [ops[j]];
    TraceStep(base, ops[..j], ops[j]);
    BlockTakes(Served(ops[..j]), ops[j].size);
  }

  /** The arrays hold for an id the pointer and the size of the last operation that placed it. */
  lemma {:induction false} ExtentIs(base: int, ops: seq<TraceOp>, k: nat)
    requires base % ALIGNMENT == 0 && k < |ops| && !ops[k].Free?
    requires forall h :: k < h < |ops| ==> ops[h].Free? || ops[h].index != ops[k].index
    ensures ops[k].index in Extents(base, ops)
    ensures Extents(base, ops)[ops[k].index] == Extent(Addresses(base, ops)[k], ops[k].size)
  {
    hide Total, Served, Extents, Named;
    var n := |ops| - 1;
    assert ops == ops[..n] + [ops[n]];
    ExtentsStep(base, ops[..n], ops[n]);
    TraceStep(base, ops[..n], ops[n]);
    if k < n {
      ExtentIs(base, ops[..n], k);
    }
  }
}
