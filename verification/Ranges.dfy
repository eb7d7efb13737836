/** The range list of malloclab/mdriver.c:363-458: the checker's record of the payloads in use. */
module Ranges {
  import opened Layout
  import opened Pointers

  /** An inclusive range of addresses. */
  datatype Range = Range(lo: int, hi: int)

  // ------------------------------------------------------------ what the checker tests

  /** The overlap test: does an end of the new range lie in an old one? */
  predicate Hit(n: Range, r: Range) {
    (r.lo <= n.lo <= r.hi) || (r.lo <= n.hi <= r.hi)
  }

  predicate Disjoint(a: Range, b: Range) {
    a.hi < b.lo || b.hi < a.lo
  }

  /** `a` goes beyond `b` at both ends. */
  predicate Encloses(a: Range, b: Range) {
    a.lo < b.lo && b.hi < a.hi
  }

  predicate NoHit(n: Range, rs: seq<Range>) {
    forall i :: 0 <= i < |rs| ==> !Hit(n, rs[i])
  }

  /** The tests of add_range on a payload of `size` bytes at `lo`. */
  predicate Accepts(rs: seq<Range>, lo: int, size: nat, heapLo: int, heapHi: int) {
    var hi := lo + size - 1;
    lo % ALIGNMENT == 0
    && heapLo <= lo <= heapHi && heapLo <= hi <= heapHi
    && NoHit(Range(lo, hi), rs)
  }

  /** The overlap test decides overlap exactly for the pairs in which the new range does not
      enclose the old one. */
  lemma HitIsOverlap(n: Range, r: Range)
    requires n.lo <= n.hi && r.lo <= r.hi
    ensures !Hit(n, r) <==> Disjoint(n, r) || Encloses(n, r)
    ensures (Hit(n, r) <==> !Disjoint(n, r)) <==> !Encloses(n, r)
  {
  }

  /** A range that passes is disjoint from all recorded ones if and only if it encloses none. */
  lemma PassingIsDisjoint(n: Range, rs: seq<Range>)
    requires n.lo <= n.hi && (forall i :: 0 <= i < |rs| ==> rs[i].lo <= rs[i].hi)
    requires NoHit(n, rs)
    ensures (forall i :: 0 <= i < |rs| ==> Disjoint(n, rs[i])) <==> forall i :: 0 <= i < |rs| ==> !Encloses(n, rs[i])
  {
    forall i | 0 <= i < |rs| ensures Disjoint(n, rs[i]) <==> !Encloses(n, rs[i]) {
      HitIsOverlap(n, rs[i]);
    }
  }

  /** Of two recorded ranges the newer is disjoint from the older or encloses it. */
  ghost predicate Laminar(rs: seq<Range>) {
    (forall i :: 0 <= i < |rs| ==> rs[i].lo <= rs[i].hi)
    && forall i, j :: 0 <= i < j < |rs| ==> Disjoint(rs[i], rs[j]) || Encloses(rs[i], rs[j])
  }

  /** Whatever add_range accepts keeps the list laminar, and only that does. */
  lemma AddKeepsLaminar(n: Range, rs: seq<Range>)
    requires Laminar(rs) && n.lo <= n.hi
    ensures NoHit(n, rs) <==> Laminar([n] + rs)
  {
    var more := [n] + rs;
    forall i | 0 <= i < |rs| ensures more[i + 1] == rs[i] {
      HitIsOverlap(n, rs[i]);
    }
    if Laminar(more) {
      forall i | 0 <= i < |rs| ensures !Hit(n, rs[i]) {
        HitIsOverlap(n, rs[i]);
        assert Disjoint(more[0], more[i + 1]) || Encloses(more[0], more[i + 1]);
      }
    } else if NoHit(n, rs) {
      forall i, j | 0 <= i < j < |more| ensures Disjoint(more[i], more[j]) || Encloses(more[i], more[j]) {
        if i == 0 {
          HitIsOverlap(n, rs[j - 1]);
        } else {
          assert more[i] == rs[i - 1] && more[j] == rs[j - 1];
        }
      }
    }
  }

  lemma LaminarStartsDiffer(rs: seq<Range>, i: nat, j: nat)
    requires Laminar(rs) && i < |rs| && j < |rs| && i != j
    ensures rs[i].lo != rs[j].lo
  {
  }

  /** The list without the first record that starts at `lo`. */
  function Remove(rs: seq<Range>, lo: int): seq<Range> {
    if rs == [] then []
    else if rs[0].lo == lo then rs[1..]
    else [rs[0]] + Remove(rs[1..], lo)
  }

  lemma {:induction false} RemoveNothing(rs: seq<Range>, lo: int)
    requires forall i :: 0 <= i < |rs| ==> rs[i].lo != lo
    ensures Remove(rs, lo) == rs
  {
    if rs != [] {
      RemoveNothing(rs[1..], lo);
    }
  }

  lemma {:induction false} RemoveFirst(rs: seq<Range>, lo: int, k: nat)
    requires k < |rs| && rs[k].lo == lo
    requires forall i :: 0 <= i < k ==> rs[i].lo != lo
    ensures Remove(rs, lo) == rs[..k] + rs[k + 1..]
  {
    if k > 0 {
      RemoveFirst(rs[1..], lo, k - 1);
      assert rs[1..][..k - 1] == rs[1..k] && rs[1..][k..] == rs[k + 1..];
      assert rs[..k] == [rs[0]] + rs[1..k];
    }
  }

  /** At most one record goes, the others keep their order; in a laminar list none that
      starts at `lo` is left. */
  lemma RemoveDropsOne(rs: seq<Range>, lo: int)
    ensures (Remove(rs, lo) == rs && forall i :: 0 <= i < |rs| ==> rs[i].lo != lo)
            || exists k :: 0 <= k < |rs| && rs[k].lo == lo && Remove(rs, lo) == rs[..k] + rs[k + 1..]
    ensures Laminar(rs) ==> Laminar(Remove(rs, lo))
    ensures Laminar(rs) ==> forall i :: 0 <= i < |Remove(rs, lo)| ==> Remove(rs, lo)[i].lo != lo
  {
    if i :| 0 <= i < |rs| && rs[i].lo == lo {
      var k := FirstAt(rs, lo, i);
      RemoveFirst(rs, lo, k);
      if Laminar(rs) {
        DropKeepsLaminar(rs, k);
      }
    } else {
      RemoveNothing(rs, lo);
    }
  }

  lemma FirstAt(rs: seq<Range>, lo: int, i: nat) returns (k: nat)
    requires i < |rs| && rs[i].lo == lo
    ensures k < |rs| && rs[k].lo == lo && forall j :: 0 <= j < k ==> rs[j].lo != lo
  {
    k := 0;
    while rs[k].lo != lo
      invariant k <= i && forall j :: 0 <= j < k ==> rs[j].lo != lo
      decreases i - k
    {
      k := k + 1;
    }
  }

  lemma DropKeepsLaminar(rs: seq<Range>, k: nat)
    requires Laminar(rs) && k < |rs|
    ensures var rest := rs[..k] + rs[k + 1..];
            Laminar(rest) && forall i :: 0 <= i < |rest| ==> rest[i].lo != rs[k].lo
  {
  }

  // ------------------------------------------------------------ the list in memory

  class RangeNode {
    const lo: int
    const hi: int
    var next: RangeNode?

    constructor (lo: int, hi: int, next: RangeNode?)
      ensures this.lo == lo && this.hi == hi && this.next == next
    {
      this.lo, this.hi, this.next := lo, hi, next;
    }
  }

  ghost function RangesOf(nodes: seq<RangeNode>): (rs: seq<Range>)
    ensures |rs| == |nodes|
    ensures forall i :: 0 <= i < |nodes| ==> rs[i] == Range(nodes[i].lo, nodes[i].hi)
  {
    seq(|nodes|, i requires 0 <= i < |nodes| => Range(nodes[i].lo, nodes[i].hi))
  }

  /** Every record ever made is in the list, once, or was freed, once. */
  ghost predicate Balanced(repr: set<RangeNode>, nodes: seq<RangeNode>, freed: seq<RangeNode>) {
    NoDuplicates(nodes) && NoDuplicates(freed)
    && (forall n :: n in nodes ==> n !in freed)
    && (forall n :: n in repr ==> n in nodes || n in freed)
    && (forall n :: n in nodes ==> n in repr)
    && (forall n :: n in freed ==> n in repr)
  }

  lemma BalancedMake(repr: set<RangeNode>, nodes: seq<RangeNode>, freed: seq<RangeNode>, n: RangeNode)
    requires Balanced(repr, nodes, freed) && n !in repr
    ensures Balanced(repr + {n}, [n] + nodes, freed)
  {
    assert forall i :: 0 < i < |[n] + nodes| ==> ([n] + nodes)[i] == nodes[i - 1];
  }

  lemma NodesInRepr(repr: set<RangeNode>, nodes: seq<RangeNode>, freed: seq<RangeNode>)
    requires Balanced(repr, nodes, freed)
    ensures forall i :: 0 <= i < |nodes| ==> nodes[i] in repr
    ensures NoDuplicates(nodes)
  {
  }

  lemma BalancedFree(repr: set<RangeNode>, nodes: seq<RangeNode>, freed: seq<RangeNode>, i: nat)
    requires Balanced(repr, nodes, freed) && i < |nodes|
    ensures Balanced(repr, nodes[..i] + nodes[i + 1..], freed + [nodes[i]])
  {
    var rest := nodes[..i] + nodes[i + 1..];
    assert nodes[i] in nodes && (freed + [nodes[i]])[|freed|] == nodes[i];
    forall j | 0 <= j < |rest|
      ensures rest[j] == nodes[if j < i then j else j + 1] && rest[j] != nodes[i] && rest[j] in nodes
    {
    }
    forall n | n in nodes && n != nodes[i] ensures n in rest {
      var j :| 0 <= j < |nodes| && nodes[j] == n;
      assert rest[if j < i then j else j - 1] == n;
    }
  }

  lemma BalancedClear(repr: set<RangeNode>, nodes: seq<RangeNode>, freed: seq<RangeNode>)
    requires Balanced(repr, nodes, freed)
    ensures Balanced(repr, [], freed + nodes)
  {
    var all := freed + nodes;
    forall i, j | 0 <= i < j < |all| ensures all[i] != all[j] {
      if i < |freed| <= j {
        assert all[j] in nodes && all[i] in freed;
      }
    }
  }

  class RangeList {
    var head: RangeNode?
    ghost var nodes: seq<RangeNode>
    /** All records ever made, and the arguments of free in order. */
    ghost var repr: set<RangeNode>
    ghost var freed: seq<RangeNode>

    ghost predicate Valid()
      reads this, repr
    {
      head == At(nodes, 0)
      && Balanced(repr, nodes, freed)
      && (forall i, j :: 0 <= i < j < |nodes| && j == i + 1 ==> nodes[i].next == nodes[j])
      && (nodes != [] ==> nodes[|nodes| - 1].next == null)
    }

    /** The recorded ranges, most recent first. */
    ghost function View(): seq<Range>
      reads this
    {
      RangesOf(nodes)
    }

    constructor ()
      ensures Valid() && View() == [] && repr == {} && freed == []
    {
      head, nodes, repr, freed := null, [], {}, [];
    }

    method AddFront(lo: int, hi: int)
      requires Valid()
      modifies this`head, this`nodes, this`repr
      ensures Valid() && fresh(repr - old(repr)) && View() == [Range(lo, hi)] + old(View())
    {
      hide Balanced;
      var p := new RangeNode(lo, hi, head);
      BalancedMake(repr, nodes, freed, p);
      head := p;
      nodes, repr := [p] + nodes, repr + {p};
    }

    /** Records a payload that passes the tests; otherwise leaves the list alone. */
    method AddRange(lo: int, size: nat, heapLo: int, heapHi: int) returns (ok: bool)
      requires Valid() && 0 < size
      modifies this`head, this`nodes, this`repr
      ensures Valid() && fresh(repr - old(repr))
      ensures ok <==> Accepts(old(View()), lo, size, heapLo, heapHi)
      ensures View() == if ok then [Range(lo, lo + size - 1)] + old(View()) else old(View())
    {
      hide Balanced;
      var hi := lo + size - 1;
      if lo % ALIGNMENT != 0 {
        return false;
      }
      if lo < heapLo || lo > heapHi || hi < heapLo || hi > heapHi {
        return false;
      }
      var p := head;
      ghost var i := 0;
      while p != null
        invariant 0 <= i <= |nodes| && p == At(nodes, i)
        invariant NoHit(Range(lo, hi), View()[..i])
        decreases |nodes| - i
      {
        assert View()[i] == Range(p.lo, p.hi);
        if (lo >= p.lo && lo <= p.hi) || (hi >= p.lo && hi <= p.hi) {
          assert Hit(Range(lo, hi), View()[i]);
          return false;
        }
        p := p.next;
        i := i + 1;
      }
      assert View()[..i] == View();
      AddFront(lo, hi);
      return true;
    }

    /** Takes node `i`, `p`, out of the list; `prev` is the node before it. */
    method Unlink(prev: RangeNode?, p: RangeNode, ghost i: nat)
      requires Valid() && i < |nodes| && p == nodes[i]
      requires prev == if i == 0 then null else nodes[i - 1]
      modifies this`head, this`nodes, this`freed, repr
      ensures Valid() && nodes == old(nodes[..i] + nodes[i + 1..]) && freed == old(freed) + [p]
    {
      hide Balanced;
      NodesInRepr(repr, nodes, freed);
      BalancedFree(repr, nodes, freed, i);
      if prev == null {
        head := p.next;
      } else {
        prev.next := p.next;
      }
      nodes, freed := nodes[..i] + nodes[i + 1..], freed + [p];
    }

    /** Unlinks the first record that starts at `lo`, if there is one. */
    method RemoveRange(lo: int)
      requires Valid()
      modifies this`head, this`nodes, this`freed, repr
      ensures Valid()
      ensures View() == Remove(old(View()), lo)
      ensures if exists i :: 0 <= i < |old(View())| && old(View())[i].lo == lo
              then |freed| == |old(freed)| + 1 && old(freed) <= freed
              else freed == old(freed)
    {
      var p := head;
      var prev: RangeNode? := null;
      ghost var i := 0;
      while p != null
        invariant 0 <= i <= |nodes| && p == At(nodes, i)
        invariant prev == if i == 0 then null else nodes[i - 1]
        invariant forall k :: 0 <= k < i ==> View()[k].lo != lo
        invariant unchanged(this) && unchanged(repr)
        decreases |nodes| - i
      {
        if p.lo == lo {
          RemoveFirst(View(), lo, i);
          assert View()[..i] + View()[i + 1..] == RangesOf(nodes[..i] + nodes[i + 1..]);
          Unlink(prev, p, i);
          return;
        }
        prev := p;
        p := p.next;
        i := i + 1;
      }
      RemoveNothing(View(), lo);
    }

    /** Frees the records from the head on, reading each link before its node is freed. */
    method ClearRanges()
      requires Valid()
      modifies this`head, this`nodes, this`freed
      ensures Valid() && View() == []
      ensures freed == old(freed) + old(nodes)
    {
      ghost var was := freed;
      var p := head;
      ghost var i := 0;
      while p != null
        invariant 0 <= i <= |nodes| && p == At(nodes, i)
        invariant freed == was + nodes[..i]
        invariant unchanged(`head) && unchanged(`nodes)
        decreases |nodes| - i
      {
        var pnext := p.next;
        freed := freed + [p];
        p := pnext;
        i := i + 1;
      }
      assert nodes[..i] == nodes;
      BalancedClear(repr, nodes, was);
      head, nodes := null, [];
    }
  }
}
