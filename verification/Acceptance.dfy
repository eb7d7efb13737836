/** The verdict of malloclab/mdriver.c on an arbitrary allocator, told from the trace and the
    answers alone: which blocks are in use, and what an answer must be to pass. */
module Acceptance {
  import opened Pointers
  import opened Ranges
  import opened Checker

  // ------------------------------------------------------------ blocks in use

  /** The block of operation `j` is in use before operation `k`: no operation between the two
      names its id. */
  ghost predicate InUse(ops: seq<TraceOp>, j: int, k: int)
    requires k <= |ops|
  {
    0 <= j < k && !ops[j].Free? && forall i :: j < i < k ==> ops[i].index != ops[j].index
  }

  lemma InUseStep(ops: seq<TraceOp>, j: int)
    requires ops != []
    ensures var n := |ops| - 1;
            InUse(ops, j, n + 1) <==>
            (j == n && !ops[n].Free?) || (InUse(ops[..n], j, n) && ops[n].index != ops[j].index)
  {
    var n := |ops| - 1;
    assert forall i :: 0 <= i < n ==> ops[..n][i] == ops[i];
  }

  ghost predicate Once(live: seq<Live>) {
    forall i, j :: 0 <= i < j < |live| ==> live[i].id != live[j].id
  }

  lemma {:induction false} WithoutHas(live: seq<Live>, id: nat, x: Live)
    requires Once(live)
    ensures x in Without(live, id) <==> x in live && x.id != id
  {
    if live != [] {
      assert live == [live[0]] + live[1..];
      WithoutHas(live[1..], id, x);
    }
  }

  lemma {:induction false} WithoutIsOnce(live: seq<Live>, id: nat)
    requires Once(live)
    ensures Once(Without(live, id))
  {
    if live != [] && live[0].id != id {
      var rest, w := live[1..], Without(live[1..], id);
      WithoutIsOnce(rest, id);
      forall i | 0 <= i < |w| ensures w[i].id != live[0].id {
        WithoutHas(rest, id, w[i]);
      }
    }
  }

  lemma LiveStepHas(live: seq<Live>, op: TraceOp, x: Live)
    requires Once(live) && (op.Alloc? ==> !IsLive(live, op.index))
    ensures Once(LiveStep(live, op))
    ensures x in LiveStep(live, op) <==>
            (!op.Free? && x == Live(op.index, op.size)) || (x in live && x.id != op.index)
  {
    hide Without;
    WithoutHas(live, op.index, x);
    WithoutIsOnce(live, op.index);
    if op.Realloc? {
      var w := Without(live, op.index);
      forall i | 0 <= i < |w| ensures w[i].id != op.index {
        WithoutHas(live, op.index, w[i]);
      }
    }
  }

  /** Operation `j` gave the id of `x` a block of its size, which is still in use. */
  ghost predicate HeldAt(ops: seq<TraceOp>, j: int, x: Live) {
    InUse(ops, j, |ops|) && ops[j].index == x.id && ops[j].size == x.size
  }

  ghost predicate Held(ops: seq<TraceOp>, x: Live) {
    exists j :: HeldAt(ops, j, x)
  }

  lemma HeldAtStep(ops: seq<TraceOp>, j: int, x: Live)
    requires ops != []
    ensures var n := |ops| - 1;
            HeldAt(ops, j, x) <==>
            (j == n && !ops[n].Free? && x == Live(ops[n].index, ops[n].size))
            || (HeldAt(ops[..n], j, x) && x.id != ops[n].index)
  {
    InUseStep(ops, j);
  }

  lemma HeldStep(ops: seq<TraceOp>, x: Live)
    requires ops != []
    ensures var n := |ops| - 1;
            Held(ops, x) <==>
            (!ops[n].Free? && x == Live(ops[n].index, ops[n].size)) || (Held(ops[..n], x) && x.id != ops[n].index)
  {
    hide HeldAt;
    var n := |ops| - 1;
    if j :| HeldAt(ops, j, x) {
      HeldAtStep(ops, j, x);
    }
    if j :| HeldAt(ops[..n], j, x) {
      HeldAtStep(ops, j, x);
    }
    HeldAtStep(ops, n, x);
  }

  /** The ids in use and their sizes, told from the operations alone. */
  lemma {:induction false} LiveMeans(ops: seq<TraceOp>, x: Live)
    requires Disciplined(ops)
    ensures Once(LiveIds(ops))
    ensures x in LiveIds(ops) <==>
            exists j :: InUse(ops, j, |ops|) && ops[j].index == x.id && ops[j].size == x.size
  {
    hide Disciplined, LiveStep, IsLive, Held;
    if ops != [] {
      var n := |ops| - 1;
      LastIsDisciplined(ops);
      LiveMeans(ops[..n], x);
      LiveStepHas(LiveIds(ops[..n]), ops[n], x);
      HeldMeans(ops[..n], x);
      HeldStep(ops, x);
    } else {
      NothingHeld(x);
    }
    HeldMeans(ops, x);
  }

  lemma HeldMeans(ops: seq<TraceOp>, x: Live)
    ensures Held(ops, x) <==>
            exists j :: InUse(ops, j, |ops|) && ops[j].index == x.id && ops[j].size == x.size
  {
    if j :| InUse(ops, j, |ops|) && ops[j].index == x.id && ops[j].size == x.size {
      assert HeldAt(ops, j, x);
    }
  }

  lemma NothingHeld(x: Live)
    ensures !Held([], x)
  {
  }

  lemma InUseInPrefix(ops: seq<TraceOp>, j: int, k: nat)
    requires k <= |ops|
    ensures InUse(ops[..k], j, k) <==> InUse(ops, j, k)
  {
    assert forall i :: 0 <= i < k ==> ops[..k][i] == ops[i];
  }

  lemma LiveInPrefix(ops: seq<TraceOp>, k: nat, id: nat)
    requires k <= |ops| && Disciplined(ops[..k])
    ensures IsLive(LiveIds(ops[..k]), id) <==> exists j :: InUse(ops, j, k) && ops[j].index == id
  {
    hide Disciplined, LiveIds;
    var live := LiveIds(ops[..k]);
    if m :| 0 <= m < |live| && live[m].id == id {
      LiveMeans(ops[..k], live[m]);
      var j :| InUse(ops[..k], j, k) && ops[..k][j].index == id;
      InUseInPrefix(ops, j, k);
    }
    if j :| InUse(ops, j, k) && ops[j].index == id {
      InUseInPrefix(ops, j, k);
      LiveMeans(ops[..k], Live(id, ops[j].size));
      assert ops[..k][j] == ops[j];
      var m :| 0 <= m < |live| && live[m] == Live(id, ops[j].size);
    }
  }

  /** Discipline, told from the operations alone: only ids not in use are allocated, only ids in use
      reallocated or freed. */
  lemma {:induction false} DisciplinedMeans(ops: seq<TraceOp>)
    ensures Disciplined(ops) <==>
            forall k :: 0 <= k < |ops| ==>
              (ops[k].Alloc? <==> !exists j :: InUse(ops, j, k) && ops[j].index == ops[k].index)
              && (!ops[k].Free? ==> 0 < ops[k].size)
  {
    hide LiveIds, IsLive;
    if Disciplined(ops) {
      forall k | 0 <= k < |ops|
        ensures ops[k].Alloc? <==> !exists j :: InUse(ops, j, k) && ops[j].index == ops[k].index
        ensures !ops[k].Free? ==> 0 < ops[k].size
      {
        PrefixIsDisciplined(ops, k);
        LiveInPrefix(ops, k, ops[k].index);
      }
    }
    if forall k :: 0 <= k < |ops| ==>
         (ops[k].Alloc? <==> !exists j :: InUse(ops, j, k) && ops[j].index == ops[k].index)
         && (!ops[k].Free? ==> 0 < ops[k].size) {
      ThenDisciplined(ops, |ops|);
      assert ops[..|ops|] == ops;
    }
  }

  lemma PrefixIsDisciplined(ops: seq<TraceOp>, k: nat)
    requires Disciplined(ops) && k <= |ops|
    ensures Disciplined(ops[..k])
  {
    assert forall i :: 0 <= i < k ==> ops[..k][..i] == ops[..i];
  }

  lemma {:induction false} ThenDisciplined(ops: seq<TraceOp>, n: nat)
    requires n <= |ops|
    requires forall k :: 0 <= k < |ops| ==>
               (ops[k].Alloc? <==> !exists j :: InUse(ops, j, k) && ops[j].index == ops[k].index)
               && (!ops[k].Free? ==> 0 < ops[k].size)
    ensures Disciplined(ops[..n])
  {
    hide InUse, LiveIds, IsLive;
    if n > 0 {
      ThenDisciplined(ops, n - 1);
      LiveInPrefix(ops, n - 1, ops[n - 1].index);
      forall k | 0 <= k < n
        ensures ops[..n][..k] == ops[..k]
        ensures k < n - 1 ==> ops[..n - 1][k] == ops[..n][k] && ops[..n - 1][..k] == ops[..k]
      {
      }
    }
  }

  // ------------------------------------------------------------ what an answer must be

  /** Where the block of an operation is, if it is still in use. */
  lemma {:induction false} PlacedIs(ops: seq<TraceOp>, answers: seq<Answer>, j: int)
    requires |ops| == |answers| && InUse(ops, j, |ops|)
    ensures ops[j].index in PlacedAt(ops, answers)
    ensures PlacedAt(ops, answers)[ops[j].index] == Extent(answers[j].ptr, ops[j].size)
  {
    var n := |ops| - 1;
    InUseStep(ops, j);
    if j < n {
      PlacedIs(ops[..n], answers[..n], j);
    }
  }

  lemma PlacedBefore(ops: seq<TraceOp>, answers: seq<Answer>, j: int, k: nat)
    requires |ops| == |answers| && k <= |ops| && InUse(ops, j, k)
    ensures ops[j].index in PlacedAt(ops[..k], answers[..k])
    ensures PlacedAt(ops[..k], answers[..k])[ops[j].index] == Extent(answers[j].ptr, ops[j].size)
  {
    hide PlacedAt;
    InUseInPrefix(ops, j, k);
    PlacedIs(ops[..k], answers[..k], j);
  }

  /** The live ids that a new range must stay clear of. */
  ghost function Others(ops: seq<TraceOp>, k: nat): seq<Live>
    requires k < |ops|
  {
    var live := LiveIds(ops[..k]);
    if ops[k].Realloc? then Without(live, ops[k].index) else live
  }

  /** Block `j` is in use before operation `k` and not the one that `k` moves. */
  ghost predicate IsOther(ops: seq<TraceOp>, j: int, k: nat)
    requires k < |ops|
  {
    InUse(ops, j, k) && !(ops[k].Realloc? && ops[j].index == ops[k].index)
  }

  lemma OtherIsLive(ops: seq<TraceOp>, j: int, k: nat)
    requires Disciplined(ops) && k < |ops| && IsOther(ops, j, k)
    ensures 0 <= j < k && !ops[j].Free? && Live(ops[j].index, ops[j].size) in Others(ops, k)
  {
    hide Disciplined, LiveIds, Without;
    PrefixIsDisciplined(ops, k);
    InUseInPrefix(ops, j, k);
    assert ops[..k][j] == ops[j];
    LiveMeans(ops[..k], Live(ops[j].index, ops[j].size));
    WithoutHas(LiveIds(ops[..k]), ops[k].index, Live(ops[j].index, ops[j].size));
  }

  lemma LiveIsOther(ops: seq<TraceOp>, x: Live, k: nat) returns (j: int)
    requires Disciplined(ops) && k < |ops| && x in Others(ops, k)
    ensures IsOther(ops, j, k) && 0 <= j < k && !ops[j].Free? && ops[j].index == x.id && ops[j].size == x.size
  {
    hide Disciplined, LiveIds, Without;
    PrefixIsDisciplined(ops, k);
    LiveMeans(ops[..k], x);
    WithoutHas(LiveIds(ops[..k]), ops[k].index, x);
    j :| InUse(ops[..k], j, k) && ops[..k][j].index == x.id && ops[..k][j].size == x.size;
    InUseInPrefix(ops, j, k);
  }

  lemma ClearMeans(ops: seq<TraceOp>, answers: seq<Answer>, k: nat, n: Range)
    requires |ops| == |answers| && Disciplined(ops) && k < |ops|
    ensures AllClear(n, Others(ops, k), PlacedAt(ops[..k], answers[..k])) <==>
            forall j :: InUse(ops, j, k) && !(ops[k].Realloc? && ops[j].index == ops[k].index) ==>
              var lo, hi := answers[j].ptr, answers[j].ptr + ops[j].size - 1;
              n.hi < lo || hi < n.lo || (n.lo < lo && hi < n.hi)
  {
    hide Disciplined, Others, PlacedAt;
    var others, at := Others(ops, k), PlacedAt(ops[..k], answers[..k]);
    if AllClear(n, others, at) {
      forall j | IsOther(ops, j, k)
        ensures ClearOf(n, Live(ops[j].index, ops[j].size), at)
        ensures at[ops[j].index] == Extent(answers[j].ptr, ops[j].size)
      {
        OtherIsLive(ops, j, k);
        PlacedBefore(ops, answers, j, k);
        var m :| 0 <= m < |others| && others[m] == Live(ops[j].index, ops[j].size);
      }
    } else {
      var m :| 0 <= m < |others| && !ClearOf(n, others[m], at);
      var j := LiveIsOther(ops, others[m], k);
      PlacedBefore(ops, answers, j, k);
      assert IsOther(ops, j, k);
    }
  }

  /** The answer to operation `k` passes, told from the trace and the answers alone. */
  ghost predicate Right(ops: seq<TraceOp>, answers: seq<Answer>, k: int)
    requires |ops| == |answers| && 0 <= k < |ops| && !ops[k].Free?
  {
    var lo, hi := answers[k].ptr, answers[k].ptr + ops[k].size - 1;
    lo != NULL && lo % 16 == 0 && answers[k].heapLo <= lo && hi <= answers[k].heapHi
    && (ops[k].Realloc? ==> ops[k].index % 256 < 128)
    && forall j :: InUse(ops, j, k) ==>
                     if ops[k].Realloc? && ops[j].index == ops[k].index then Kept(ops, answers, j, k)
                     else
                       var lo', hi' := answers[j].ptr, answers[j].ptr + ops[j].size - 1;
                       hi < lo' || hi' < lo || (lo < lo' && hi' < hi)
  }

  /** The bytes of block `j` arrive in the answer to `k`, as far as both blocks go. */
  ghost predicate Kept(ops: seq<TraceOp>, answers: seq<Answer>, j: int, k: int)
    requires |ops| == |answers| && 0 <= k < |ops| && 0 <= j < k && !ops[j].Free? && !ops[k].Free?
  {
    var n := if ops[k].size < ops[j].size then ops[k].size else ops[j].size;
    n <= |answers[k].data| && forall b :: 0 <= b < n ==> answers[k].data[b] as int == ops[k].index % 256
  }

  lemma KeptIs(ops: seq<TraceOp>, answers: seq<Answer>, j: int, k: int)
    requires |ops| == |answers| && 0 <= k < |ops| && 0 <= j < k && !ops[j].Free? && !ops[k].Free?
    ensures var n := if ops[k].size < ops[j].size then ops[k].size else ops[j].size;
            ops[k].index % 256 < 128 ==> (Preserved(answers[k].data, n, ops[k].index) <==> Kept(ops, answers, j, k))
  {
    hide Preserved;
    PreservedMeans(answers[k].data, if ops[k].size < ops[j].size then ops[k].size else ops[j].size, ops[k].index);
  }

  lemma KeptMeans(ops: seq<TraceOp>, answers: seq<Answer>, k: nat)
    requires |ops| == |answers| && Disciplined(ops) && k < |ops| && ops[k].Realloc?
    ensures var at, op := PlacedAt(ops[..k], answers[..k]), ops[k];
            op.index in at
            && (Preserved(answers[k].data, if op.size < at[op.index].size then op.size else at[op.index].size, op.index)
                <==> op.index % 256 < 128
                     && forall j :: InUse(ops, j, k) && ops[j].index == op.index ==> Kept(ops, answers, j, k))
  {
    hide Disciplined, PlacedAt, Preserved, Kept;
    var at, op := PlacedAt(ops[..k], answers[..k]), ops[k];
    var j := MovedBlock(ops, k);
    PlacedBefore(ops, answers, j, k);
    var n := if op.size < at[op.index].size then op.size else at[op.index].size;
    SizeIsPositive(ops, k);
    SizeIsPositive(ops, j);
    PreservedMeans(answers[k].data, n, op.index);
    forall i | InUse(ops, i, k) && ops[i].index == op.index ensures n > 0 && i == j {
      SameBlock(ops, i, j, k);
    }
    KeptIs(ops, answers, j, k);
  }

  lemma SameBlock(ops: seq<TraceOp>, i: int, j: int, k: nat)
    requires k <= |ops| && InUse(ops, i, k) && InUse(ops, j, k) && ops[i].index == ops[j].index
    ensures i == j
  {
  }

  lemma MovedBlock(ops: seq<TraceOp>, k: nat) returns (j: int)
    requires Disciplined(ops) && k < |ops| && ops[k].Realloc?
    ensures InUse(ops, j, k) && 0 <= j < k && !ops[j].Free? && ops[j].index == ops[k].index
  {
    hide Disciplined;
    DisciplinedMeans(ops);
    j :| InUse(ops, j, k) && ops[j].index == ops[k].index;
  }

  lemma SizeIsPositive(ops: seq<TraceOp>, k: nat)
    requires Disciplined(ops) && k < |ops|
    ensures !ops[k].Free? ==> 0 < ops[k].size
  {
    hide LiveIds, IsLive;
  }

  lemma AnswerMeans(ops: seq<TraceOp>, answers: seq<Answer>, k: nat)
    requires |ops| == |answers| && Disciplined(ops) && k < |ops| && !ops[k].Free?
    ensures AnswerOk(LiveIds(ops[..k]), PlacedAt(ops[..k], answers[..k]), ops[k], answers[k]) <==>
            Right(ops, answers, k)
  {
    hide Disciplined, LiveIds, PlacedAt, AllClear, Preserved, Kept, InUse, Without;
    SizeIsPositive(ops, k);
    ClearMeans(ops, answers, k, Range(answers[k].ptr, answers[k].ptr + ops[k].size - 1));
    if ops[k].Realloc? {
      KeptMeans(ops, answers, k);
    }
  }

  /** Any allocator, any disciplined trace: the checker accepts if and only if every block is at an
      aligned place inside the heap, misses all blocks in use or goes around them, and every realloc
      is of an id of low byte below 128 and finds that byte in all of the old block that the new one
      has room for. */
  lemma AcceptedMeans(ops: seq<TraceOp>, answers: seq<Answer>)
    requires |ops| == |answers| && Disciplined(ops)
    ensures Run(ops, answers).Accepted? <==>
            forall k :: 0 <= k < |ops| && !ops[k].Free? ==>
              var lo, hi := answers[k].ptr, answers[k].ptr + ops[k].size - 1;
              lo != NULL && lo % 16 == 0 && answers[k].heapLo <= lo && hi <= answers[k].heapHi
              && (ops[k].Realloc? ==> ops[k].index % 256 < 128)
              && forall j ::
                   (0 <= j < k && !ops[j].Free? && forall i :: j < i < k ==> ops[i].index != ops[j].index) ==>
                   if ops[k].Realloc? && ops[j].index == ops[k].index then
                     var n := if ops[k].size < ops[j].size then ops[k].size else ops[j].size;
                     n <= |answers[k].data|
                     && forall b :: 0 <= b < n ==> answers[k].data[b] as int == ops[k].index % 256
                   else
                     var lo', hi' := answers[j].ptr, answers[j].ptr + ops[j].size - 1;
                     hi < lo' || hi' < lo || (lo < lo' && hi' < hi)
  {
    hide Disciplined, Run;
    AcceptedIfRight(ops, answers);
    if Run(ops, answers).Accepted? {
      assert forall k :: 0 <= k < |ops| && !ops[k].Free? ==> Right(ops, answers, k);
    }
  }

  lemma AcceptedIfRight(ops: seq<TraceOp>, answers: seq<Answer>)
    requires |ops| == |answers| && Disciplined(ops)
    ensures Run(ops, answers).Accepted? <==> forall k :: 0 <= k < |ops| && !ops[k].Free? ==> Right(ops, answers, k)
  {
    hide Disciplined, Run, AnswerOk, LiveIds, PlacedAt, Right;
    AcceptedIffAllOk(ops, answers);
    forall k | 0 <= k < |ops|
      ensures AnswerOk(LiveIds(ops[..k]), PlacedAt(ops[..k], answers[..k]), ops[k], answers[k]) <==>
              (!ops[k].Free? ==> Right(ops, answers, k))
    {
      if ops[k].Free? {
        FreeIsOk(LiveIds(ops[..k]), PlacedAt(ops[..k], answers[..k]), ops[k], answers[k]);
      } else {
        AnswerMeans(ops, answers, k);
      }
    }
  }

  lemma FreeIsOk(live: seq<Live>, at: map<nat, Extent>, op: TraceOp, a: Answer)
    requires op.Free?
    ensures AnswerOk(live, at, op, a)
  {
  }
}
