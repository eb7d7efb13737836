/** Whole runs of the hash table against the finite map it is to implement. */
module Dictionary {
  import opened Arithmetic
  import opened HashCode
  import opened Primes
  import opened Pointers
  import opened Chains
  import opened HashTable

  datatype Op = Put(key: Key, val: Ptr) | Get(key: Key)

  /** What an operation makes of the map: the first value put for a key stays. */
  ghost function Step(m: map<Key, Ptr>, op: Op): map<Key, Ptr> {
    match op
    case Put(k, v) => if k in m then m else m[k := v]
    case Get(_) => m
  }

  /** The map after a run that started empty. */
  ghost function After(ops: seq<Op>): map<Key, Ptr> {
    if ops == [] then map[] else Step(After(ops[..|ops| - 1]), ops[|ops| - 1])
  }

  /** What an operation returns on a given map: 1 for a refused put, NULL for a missed get. */
  ghost function Answer(m: map<Key, Ptr>, op: Op): int {
    match op
    case Put(k, _) => if k in m then 1 else 0
    case Get(k) => if k in m then m[k] else NULL
  }

  ghost predicate IsFirstPut(ops: seq<Op>, k: Key, i: int) {
    0 <= i < |ops| && ops[i].Put? && ops[i].key == k
    && forall j :: 0 <= j < i ==> !(ops[j].Put? && ops[j].key == k)
  }

  /** The map in terms of the run itself: a key's value is the one of its first put. */
  lemma {:induction false} FirstPutWins(ops: seq<Op>, k: Key)
    ensures k in After(ops) <==> exists i :: IsFirstPut(ops, k, i)
    ensures forall i :: IsFirstPut(ops, k, i) ==> k in After(ops) && After(ops)[k] == ops[i].val
  {
    hide HashOf;
    if ops != [] {
      var init, last := ops[..|ops| - 1], |ops| - 1;
      FirstPutWins(init, k);
      forall i | 0 <= i < last ensures IsFirstPut(ops, k, i) <==> IsFirstPut(init, k, i) {
        assert forall j :: 0 <= j <= i ==> ops[j] == init[j];
      }
      if k in After(init) {
        var i :| IsFirstPut(init, k, i);
        assert IsFirstPut(ops, k, i);
      } else if ops[last].Put? && ops[last].key == k {
        FirstPutOrNone(init, k);
        assert IsFirstPut(ops, k, last);
      }
    }
  }

  /** Where a key was put at all, it was put a first time. */
  lemma {:induction false} FirstPutOrNone(ops: seq<Op>, k: Key)
    ensures (exists i :: IsFirstPut(ops, k, i)) || forall i :: 0 <= i < |ops| ==> !(ops[i].Put? && ops[i].key == k)
  {
    hide HashOf;
    if ops != [] {
      var init, last := ops[..|ops| - 1], |ops| - 1;
      FirstPutOrNone(init, k);
      if i :| IsFirstPut(init, k, i) {
        assert forall j :: 0 <= j <= i ==> ops[j] == init[j];
        assert IsFirstPut(ops, k, i);
      } else if ops[last].Put? && ops[last].key == k {
        assert forall j :: 0 <= j < last ==> ops[j] == init[j];
        assert IsFirstPut(ops, k, last);
      } else {
        assert forall j :: 0 <= j < last ==> ops[j] == init[j];
      }
    }
  }

  /** What the answers are, from the operations alone: the value of the first put of the key for a
      get, and for a put whether there was one before. */
  lemma AnswerMeans(ops: seq<Op>, i: nat)
    requires i < |ops|
    ensures forall j ::
              (0 <= j < i && ops[i].Get? && ops[j].Put? && ops[j].key == ops[i].key
               && forall h :: 0 <= h < j ==> !(ops[h].Put? && ops[h].key == ops[i].key)) ==>
              Answer(After(ops[..i]), ops[i]) == ops[j].val
    ensures (forall j :: 0 <= j < i ==> !(ops[j].Put? && ops[j].key == ops[i].key)) ==>
              Answer(After(ops[..i]), ops[i]) == if ops[i].Get? then NULL else 0
    ensures ops[i].Put? && (exists j :: 0 <= j < i && ops[j].Put? && ops[j].key == ops[i].key) ==>
              Answer(After(ops[..i]), ops[i]) == 1
  {
    hide HashOf, After;
    var before, k := ops[..i], ops[i].key;
    FirstPutWins(before, k);
    FirstPutOrNone(before, k);
    forall j | 0 <= j < i && ops[j].Put? && ops[j].key == k
               && (forall h :: 0 <= h < j ==> !(ops[h].Put? && ops[h].key == k))
      ensures IsFirstPut(before, k, j)
    {
    }
    if j :| 0 <= j < i && ops[j].Put? && ops[j].key == k {
      assert before[j] == ops[j];
    }
  }

  method Do(ht: HTable, op: Op) returns (out: int)
    requires ht.Valid()
    modifies ht, ht.store, ht.nodes
    ensures ht.Valid() && ht.contents == Step(old(ht.contents), op)
    ensures out == Answer(old(ht.contents), op)
    ensures fresh(ht.nodes - old(ht.nodes)) && (ht.store == old(ht.store) || fresh(ht.store))
  {
    hide HTable.Valid, HTable.Unchanged, WithNode, Rehash, IsNextPrime, HashOf;
    match op {
      case Put(k, v) =>
        ghost var n;
        out, n := ht.Insert(k, v);
      case Get(k) =>
        out := ht.Lookup(k);
    }
  }

  lemma NothingAfter(ops: seq<Op>)
    ensures After(ops[..0]) == map[]
  {
  }

  lemma AfterStep(ops: seq<Op>, i: nat)
    requires i < |ops|
    ensures After(ops[..i + 1]) == Step(After(ops[..i]), ops[i])
  {
    assert ops[..i + 1][..i] == ops[..i];
  }

  /** Any run, through any number of resizes, answers as the map does. */
  method Run(ht: HTable, ops: seq<Op>) returns (outs: seq<int>)
    requires ht.Valid() && ht.contents == map[]
    modifies ht, ht.store, ht.nodes
    ensures ht.Valid() && ht.contents == After(ops)
    ensures fresh(ht.nodes - old(ht.nodes)) && (ht.store == old(ht.store) || fresh(ht.store))
    ensures |outs| == |ops| && forall i :: 0 <= i < |ops| ==> outs[i] == Answer(After(ops[..i]), ops[i])
    ensures forall i, j ::
              (0 <= j < i < |ops| && ops[i].Get? && ops[j].Put? && ops[j].key == ops[i].key
               && forall h :: 0 <= h < j ==> !(ops[h].Put? && ops[h].key == ops[i].key)) ==>
              outs[i] == ops[j].val
    ensures forall i :: 0 <= i < |ops| && (forall j :: 0 <= j < i ==> !(ops[j].Put? && ops[j].key == ops[i].key)) ==>
              outs[i] == if ops[i].Get? then NULL else 0
    ensures forall i ::
              (0 <= i < |ops| && ops[i].Put? && exists j :: 0 <= j < i && ops[j].Put? && ops[j].key == ops[i].key) ==>
              outs[i] == 1
  {
    hide HTable.Valid, Step, Answer, HashOf, After, IsFirstPut;
    outs := [];
    NothingAfter(ops);
    var i := 0;
    while i < |ops|
      invariant 0 <= i <= |ops|
      invariant ht.Valid() && ht.contents == After(ops[..i])
      invariant fresh(ht.nodes - old(ht.nodes)) && (ht.store == old(ht.store) || fresh(ht.store))
      invariant |outs| == i && forall j :: 0 <= j < i ==> outs[j] == Answer(After(ops[..j]), ops[j])
    {
      AfterStep(ops, i);
      var out := Do(ht, ops[i]);
      outs := outs + [out];
      i := i + 1;
    }
    assert ops[..i] == ops;
    forall k | 0 <= k < |ops| {
      AnswerMeans(ops, k);
    }
  }

  /** A table's whole life: it answers as the map does, its size is prime (but for the first size
      of a table made with sz 0) and grows past doubling with every resize, and at the end nothing
      it got from malloc is left. */
  method Lifetime(sz: int, allowResize: bool, ops: seq<Op>) returns (outs: seq<int>, ht: HTable)
    requires 0 <= sz
    ensures |outs| == |ops| && forall i :: 0 <= i < |ops| ==> outs[i] == Answer(After(ops[..i]), ops[i])
    ensures forall i, j ::
              (0 <= j < i < |ops| && ops[i].Get? && ops[j].Put? && ops[j].key == ops[i].key
               && forall h :: 0 <= h < j ==> !(ops[h].Put? && ops[h].key == ops[i].key)) ==>
              outs[i] == ops[j].val
    ensures forall i :: 0 <= i < |ops| && (forall j :: 0 <= j < i ==> !(ops[j].Put? && ops[j].key == ops[i].key)) ==>
              outs[i] == if ops[i].Get? then NULL else 0
    ensures forall i ::
              (0 <= i < |ops| && ops[i].Put? && exists j :: 0 <= j < i && ops[j].Put? && ops[j].key == ops[i].key) ==>
              outs[i] == 1
    ensures fresh(ht) && IsNextPrime(sz + 1, ht.initSize)
    ensures Pow2(ht.resizes) * ht.initSize <= ht.size
    ensures 1 <= sz || 1 <= ht.resizes ==> Prime(ht.size)
    ensures !allowResize ==> ht.size == ht.initSize
    ensures allowResize && ht.resizes == 0 ==> Short(ht.chains)
    ensures allowResize ==>
              (0 < ht.resizes <==>
               exists s :: 0 <= s < ht.initSize && 10 < |KeysInSlot(After(ops), ht.initSize, s)|)
    ensures NoDuplicates(ht.freed) && ht.malloced == Elements(ht.freed)
    ensures (forall i, j :: 0 <= i < j < |ht.freed| ==> ht.freed[i] != ht.freed[j])
            && (forall o :: o in ht.malloced ==> o in ht.freed)
            && |ht.freed| == |After(ops)| + ht.resizes + 1
  {
    hide HTable.Valid, HashOf, After, Answer, IsNextPrime, KeysInSlot, Pow2, Short, IsFirstPut;
    ht := new HTable.Init(sz, allowResize);
    outs := Run(ht, ops);
    ht.Sizes();
    ht.Destroy();
  }
}
