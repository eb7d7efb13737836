/** The nodes of the hash table and, on sequences of them, what rehashing means. */
module Chains {
  import opened Pointers
  import opened HashCode

  /** Values are pointers; only NULL is told apart from the others. */
  type Ptr = int

  /** A table entry. Only `next` is written after the entry is made. */
  class Node {
    const hashcode: int
    const key: Key
    const val: Ptr
    var next: Node?

    constructor (hashcode: int, key: Key, val: Ptr)
      ensures this.hashcode == hashcode && this.key == key && this.val == val
      ensures next == null
    {
      this.hashcode, this.key, this.val := hashcode, key, val;
      next := null;
    }
  }

  /** The `next` fields of a set of nodes. */
  type Links = map<Node, Node?>

  ghost function LinksOf(ns: set<Node>): Links
    reads ns
  {
    map n | n in ns :: n.next
  }

  /** Following the links from `head` visits exactly `chain` and then reaches null. */
  ghost predicate Linked(links: Links, head: Node?, chain: seq<Node>) {
    head == At(chain, 0)
    && (forall i :: 0 <= i < |chain| ==> chain[i] in links)
    && (forall i, j :: 0 <= i < j < |chain| && j == i + 1 ==> links[chain[i]] == chain[j])
    && (chain != [] ==> links[chain[|chain| - 1]] == null)
  }

  lemma ConcatenateDistinct(a: seq<object>, b: seq<object>)
    requires NoDuplicates(a) && NoDuplicates(b) && Elements(a) !! Elements(b)
    ensures NoDuplicates(a + b) && Elements(a + b) == Elements(a) + Elements(b)
  {
    var ab := a + b;
    forall i, j | 0 <= i < j < |ab| ensures ab[i] != ab[j] {
      if i < |a| <= j {
        assert ab[i] in Elements(a) && ab[j] in Elements(b);
      }
    }
    forall o ensures o in Elements(ab) <==> o in Elements(a) || o in Elements(b) {
    }
  }

  /** Slot `s` of `m` heads a chain of distinct nodes that all hash to it. */
  ghost predicate SlotValid(links: Links, head: Node?, chain: seq<Node>, m: int, s: int)
    requires 0 < m
  {
    (forall i :: 0 <= i < |chain| ==> chain[i].hashcode % m == s)
    && NoDuplicates(chain)
    && Linked(links, head, chain)
  }

  ghost predicate SlotsValid(links: Links, heads: seq<Node?>, chains: seq<seq<Node>>) {
    0 < |heads| == |chains|
    && forall s :: 0 <= s < |heads| ==> SlotValid(links, heads[s], chains[s], |heads|, s)
  }

  /** The slots hold exactly the linked nodes, each where its hash code says. */
  ghost predicate TableHolds(links: Links, heads: seq<Node?>, chains: seq<seq<Node>>) {
    SlotsValid(links, heads, chains)
    && forall n :: n in links ==> n in chains[n.hashcode % |heads|]
  }

  ghost function Reverse(s: seq<Node>): (r: seq<Node>)
    ensures |r| == |s|
  {
    if s == [] then [] else [s[|s| - 1]] + Reverse(s[..|s| - 1])
  }

  ghost function Flatten(cs: seq<seq<Node>>): seq<Node> {
    if cs == [] then [] else Flatten(cs[..|cs| - 1]) + cs[|cs| - 1]
  }

  /** The nodes of `ns` that hash to slot `s` of a table of `m` slots, in order. */
  ghost function InSlot(ns: seq<Node>, m: int, s: int): seq<Node>
    requires 0 < m
  {
    if ns == [] then []
    else
      var n := ns[|ns| - 1];
      InSlot(ns[..|ns| - 1], m, s) + if n.hashcode % m == s then [n] else []
  }

  /** The new chain of slot `s` once the nodes `moved` have been pushed onto the slots. */
  ghost function NewChain(moved: seq<Node>, m: int, s: int): seq<Node>
    requires 0 < m
  {
    Reverse(InSlot(moved, m, s))
  }

  ghost function NewChains(moved: seq<Node>, m: int): (r: seq<seq<Node>>)
    requires 0 < m
    ensures |r| == m
  {
    seq(m, s => NewChain(moved, m, s))
  }

  /** The chains of a table resized to `m` slots: every new chain is the reverse of the
      old nodes of its slot, taken in old slot order. */
  ghost function Rehash(chains: seq<seq<Node>>, m: int): (r: seq<seq<Node>>)
    requires 0 < m
    ensures |r| == m
  {
    NewChains(Flatten(chains), m)
  }

  // ------------------------------------------------------------ pointer surgery

  /** A chain does not notice a change to a node that is not in it. */
  lemma SlotKept(links: Links, head: Node?, chain: seq<Node>, m: int, s: int, n: Node, next: Node?)
    requires 0 < m && SlotValid(links, head, chain, m, s)
    requires n !in chain
    ensures SlotValid(links[n := next], head, chain, m, s)
  {
  }

  lemma SlotPushed(links: Links, head: Node?, chain: seq<Node>, m: int, s: int, n: Node)
    requires 0 < m && SlotValid(links, head, chain, m, s)
    requires n !in chain && n.hashcode % m == s
    ensures SlotValid(links[n := head], n, [n] + chain, m, s)
  {
  }

  /** A fresh node hung onto the last one of a chain (or onto its empty slot). */
  lemma SlotAppended(links: Links, head: Node?, chain: seq<Node>, m: int, s: int, n: Node)
    requires 0 < m && SlotValid(links, head, chain, m, s)
    requires n !in chain && n.hashcode % m == s
    ensures chain == [] ==> SlotValid(links[n := null], n, [n], m, s)
    ensures chain != [] ==>
              SlotValid(links[n := null][chain[|chain| - 1] := n], head, chain + [n], m, s)
  {
  }

  /** The chains with one more node at the tail of its slot. */
  ghost function WithNode(chains: seq<seq<Node>>, n: Node): (r: seq<seq<Node>>)
    requires chains != []
    ensures |r| == |chains|
    ensures forall s :: 0 <= s < |r| ==> r[s] == if s == n.hashcode % |chains| then chains[s] + [n] else chains[s]
  {
    var slot := n.hashcode % |chains|;
    chains[slot := chains[slot] + [n]]
  }

  /** The links once `n` hangs off the last node of `chain`, or off its empty slot. */
  ghost function LinksWithNode(links: Links, chain: seq<Node>, n: Node): Links {
    var step: Links := links[n := null];
    if chain == [] then step else step[chain[|chain| - 1] := n]
  }

  /** What the nodes of a valid slot have in common. */
  lemma SlotHas(links: Links, head: Node?, chain: seq<Node>, m: int, s: int)
    requires 0 < m && SlotValid(links, head, chain, m, s)
    ensures forall n :: n in chain ==> n in links && n.hashcode % m == s
  {
  }

  lemma OwnSlotGrows(links: Links, head: Node?, chain: seq<Node>, m: int, s: int, n: Node)
    requires 0 < m && SlotValid(links, head, chain, m, s) && n !in links && n.hashcode % m == s
    ensures SlotValid(LinksWithNode(links, chain, n), if chain == [] then n else head, chain + [n], m, s)
  {
    hide SlotValid;
    SlotHas(links, head, chain, m, s);
    SlotAppended(links, head, chain, m, s, n);
    assert chain == [] ==> chain + [n] == [n];
  }

  lemma OtherSlotKept(links: Links, head: Node?, chain: seq<Node>, m: int, s: int, own: seq<Node>, n: Node)
    requires 0 < m && SlotValid(links, head, chain, m, s) && n !in links
    requires forall x :: x in own ==> x !in chain
    ensures SlotValid(LinksWithNode(links, own, n), head, chain, m, s)
  {
    hide SlotValid;
    SlotHas(links, head, chain, m, s);
    SlotKept(links, head, chain, m, s, n, null);
    if own != [] {
      SlotKept(links[n := null], head, chain, m, s, own[|own| - 1], n);
    }
  }

  lemma AppendStep(links: Links, heads: seq<Node?>, chains: seq<seq<Node>>, n: Node)
    requires TableHolds(links, heads, chains) && n !in links
    ensures var slot := n.hashcode % |heads|;
            TableHolds(LinksWithNode(links, chains[slot], n),
                       if chains[slot] == [] then heads[slot := n] else heads,
                       WithNode(chains, n))
  {
    hide WithNode, SlotValid;
    var m := |heads|;
    var slot := n.hashcode % m;
    var own := chains[slot];
    SlotHas(links, heads[slot], own, m, slot);
    forall s | 0 <= s < m
      ensures SlotValid(LinksWithNode(links, own, n), if s == slot && own == [] then n else heads[s],
                        WithNode(chains, n)[s], m, s)
    {
      if s == slot {
        OwnSlotGrows(links, heads[s], own, m, s, n);
      } else {
        SlotHas(links, heads[s], chains[s], m, s);
        OtherSlotKept(links, heads[s], chains[s], m, s, own, n);
      }
    }
  }

  /** One step of a resize keeps all the new slots right. */
  lemma MoveStep(links: Links, heads: seq<Node?>, moved: seq<Node>, m: int, n: Node)
    requires 0 < m && SlotsValid(links, heads, NewChains(moved, m))
    requires n !in moved
    ensures var slot := n.hashcode % m;
            SlotsValid(links[n := heads[slot]], heads[slot := n], NewChains(moved + [n], m))
  {
    var slot := n.hashcode % m;
    forall s | 0 <= s < m
      ensures SlotValid(links[n := heads[slot]], heads[slot := n][s], NewChain(moved + [n], m, s), m, s)
    {
      var chain := NewChain(moved, m, s);
      assert chain == NewChains(moved, m)[s];
      NewChainHas(moved, m, s, n);
      NewChainStep(moved, n, m, s);
      if s == slot {
        SlotPushed(links, heads[s], chain, m, s, n);
      } else {
        SlotKept(links, heads[s], chain, m, s, n, heads[slot]);
      }
    }
  }

  // ------------------------------------------------------------ what these keep

  lemma {:induction false} ReverseAt(s: seq<Node>, k: nat)
    requires k < |s|
    ensures Reverse(s)[k] == s[|s| - 1 - k]
  {
    if k > 0 {
      ReverseAt(s[..|s| - 1], k - 1);
    }
  }

  lemma ReverseOfCons(x: Node, s: seq<Node>)
    ensures Reverse([x] + s) == Reverse(s) + [x]
  {
    if s != [] {
      ReverseOfCons(x, s[..|s| - 1]);
      assert ([x] + s)[..|s|] == [x] + s[..|s| - 1];
    }
  }

  lemma {:induction false} ReverseHas(s: seq<Node>, x: Node)
    ensures x in Reverse(s) <==> x in s
  {
    if s != [] {
      ReverseHas(s[..|s| - 1], x);
      assert s == s[..|s| - 1] + [s[|s| - 1]];
    }
  }

  lemma {:induction false} FlattenHas(cs: seq<seq<Node>>, x: Node)
    ensures x in Flatten(cs) <==> exists i :: 0 <= i < |cs| && x in cs[i]
  {
    if cs != [] {
      var init := cs[..|cs| - 1];
      FlattenHas(init, x);
      if x in Flatten(init) {
        var i :| 0 <= i < |init| && x in init[i];
        assert x in cs[i];
      }
      if i :| 0 <= i < |cs| && x in cs[i] {
        if i < |init| {
          assert x in init[i];
        }
      }
    }
  }

  lemma {:induction false} InSlotHas(ns: seq<Node>, m: int, s: int, n: Node)
    requires 0 < m
    ensures n in InSlot(ns, m, s) <==> n in ns && n.hashcode % m == s
  {
    if ns != [] {
      InSlotHas(ns[..|ns| - 1], m, s, n);
      assert ns == ns[..|ns| - 1] + [ns[|ns| - 1]];
    }
  }

  lemma NewChainHas(moved: seq<Node>, m: int, s: int, n: Node)
    requires 0 < m
    ensures n in NewChain(moved, m, s) <==> n in moved && n.hashcode % m == s
  {
    ReverseHas(InSlot(moved, m, s), n);
    InSlotHas(moved, m, s, n);
  }

  /** One more node moved is one more node at the head of its new chain. */
  lemma NewChainStep(moved: seq<Node>, n: Node, m: int, s: int)
    requires 0 < m
    ensures NewChain(moved + [n], m, s) ==
            if n.hashcode % m == s then [n] + NewChain(moved, m, s) else NewChain(moved, m, s)
  {
    var moved', f := moved + [n], InSlot(moved, m, s);
    assert moved'[..|moved|] == moved;
    assert (f + [n])[..|f|] == f;
    assert f + [] == f;
  }

  lemma {:induction false} InSlotIsOnce(ns: seq<Node>, m: int, s: int)
    requires 0 < m && NoDuplicates(ns)
    ensures NoDuplicates(InSlot(ns, m, s))
  {
    if ns != [] {
      var init, last := ns[..|ns| - 1], ns[|ns| - 1];
      InSlotIsOnce(init, m, s);
      InSlotHas(init, m, s, last);
    }
  }

  /** A comment in the resize promises to insert at the end of a slot, which would keep the
      nodes in order. They are kept in order exactly where at most one hashes to the slot. */
  lemma ResizeKeepsOrder(ns: seq<Node>, m: int, s: int)
    requires 0 < m && NoDuplicates(ns)
    ensures NewChain(ns, m, s) == InSlot(ns, m, s) <==> |InSlot(ns, m, s)| <= 1
  {
    var slot := InSlot(ns, m, s);
    InSlotIsOnce(ns, m, s);
    if slot != [] {
      ReverseAt(slot, 0);
    }
  }

  /** Two nodes that share a slot change places. */
  lemma ResizeSwapsTwo(a: Node, b: Node, m: int)
    requires 0 < m && a != b && a.hashcode % m == b.hashcode % m
    ensures InSlot([a, b], m, a.hashcode % m) == [a, b]
    ensures NewChain([a, b], m, a.hashcode % m) == [b, a]
  {
    var s := a.hashcode % m;
    assert [a, b][..1] == [a] && [a][..0] == [];
    NewChainStep([], a, m, s);
    NewChainStep([a], b, m, s);
    assert [] + [a] == [a] && [a] + [b] == [a, b];
  }

  /** Rehashing loses no node and puts each where its hash code says. */
  lemma RehashHas(chains: seq<seq<Node>>, m: int, s: int, n: Node)
    requires 0 < m && 0 <= s < m
    ensures n in Rehash(chains, m)[s] <==>
            n.hashcode % m == s && exists i :: 0 <= i < |chains| && n in chains[i]
  {
    NewChainHas(Flatten(chains), m, s, n);
    FlattenHas(chains, n);
  }

  /** Two nodes of a new chain were moved in the opposite order. */
  lemma {:induction false} NewChainOrder(moved: seq<Node>, m: int, s: int, p: nat, q: nat) returns (x: nat, y: nat)
    requires 0 < m && p < q < |NewChain(moved, m, s)|
    ensures y < x < |moved| && NewChain(moved, m, s)[p] == moved[x] && NewChain(moved, m, s)[q] == moved[y]
  {
    hide NewChain;
    if moved == [] {
      NothingInChain(m, s);
    } else {
      var init, n := moved[..|moved| - 1], moved[|moved| - 1];
      assert moved == init + [n];
      NewChainStep(init, n, m, s);
      if n.hashcode % m != s {
        x, y := NewChainOrder(init, m, s, p, q);
      } else if p > 0 {
        x, y := NewChainOrder(init, m, s, p - 1, q - 1);
      } else {
        NewChainHas(init, m, s, NewChain(init, m, s)[q - 1]);
        x := |init|;
        y :| 0 <= y < |init| && init[y] == NewChain(init, m, s)[q - 1];
      }
    }
  }

  lemma NothingInChain(m: int, s: int)
    requires 0 < m
    ensures NewChain([], m, s) == []
  {
  }

  /** Two nodes of a table, slot by slot and each chain from its head: the first is in an earlier
      slot, or earlier in the same chain. */
  lemma {:induction false} FlattenOrder(cs: seq<seq<Node>>, y: nat, x: nat)
    returns (t: nat, i: nat, u: nat, j: nat)
    requires y < x < |Flatten(cs)|
    ensures t <= u < |cs| && i < |cs[t]| && j < |cs[u]| && (t == u ==> i < j)
    ensures Flatten(cs)[y] == cs[t][i] && Flatten(cs)[x] == cs[u][j]
  {
    var n := |cs| - 1;
    var init := cs[..n];
    if x < |Flatten(init)| {
      t, i, u, j := FlattenOrder(init, y, x);
    } else if y < |Flatten(init)| {
      FlattenHas(init, Flatten(init)[y]);
      t :| 0 <= t < n && Flatten(init)[y] in init[t];
      i :| 0 <= i < |init[t]| && init[t][i] == Flatten(init)[y];
      u, j := n, x - |Flatten(init)|;
    } else {
      t, i, u, j := n, y - |Flatten(init)|, n, x - |Flatten(init)|;
    }
  }

  /** What a resize does to the order: of two nodes of a new chain, the first comes from a later
      slot, or from a later place in the same old chain. */
  lemma RehashOrder(links: Links, heads: seq<Node?>, chains: seq<seq<Node>>, m: int, s: int, p: nat, q: nat)
    requires SlotsValid(links, heads, chains)
    requires 0 < m && 0 <= s < m && p < q < |Rehash(chains, m)[s]|
    ensures var a, b := Rehash(chains, m)[s][p], Rehash(chains, m)[s][q];
            var t, u := b.hashcode % |chains|, a.hashcode % |chains|;
            t < u || (t == u && exists i, j :: 0 <= i < j < |chains[t]| && chains[t][i] == b && chains[t][j] == a)
  {
    hide NewChain, Flatten, Linked, NoDuplicates;
    var x, y := NewChainOrder(Flatten(chains), m, s, p, q);
    var t, i, u, j := FlattenOrder(chains, y, x);
    assert SlotValid(links, heads[t], chains[t], |heads|, t) && SlotValid(links, heads[u], chains[u], |heads|, u);
  }

  lemma RehashOrders(links: Links, heads: seq<Node?>, chains: seq<seq<Node>>, m: int)
    requires 0 < m && TableHolds(links, heads, chains)
    ensures forall s, p, q :: 0 <= s < m && 0 <= p < q < |Rehash(chains, m)[s]| ==>
              var a, b := Rehash(chains, m)[s][p], Rehash(chains, m)[s][q];
              var t, u := b.hashcode % |chains|, a.hashcode % |chains|;
              t < u || (t == u && exists i, j :: 0 <= i < j < |chains[t]| && chains[t][i] == b && chains[t][j] == a)
  {
    hide SlotsValid, Rehash;
    HoldsInSlots(links, heads, chains);
    forall s, p, q | 0 <= s < m && 0 <= p < q < |Rehash(chains, m)[s]|
      ensures var a, b := Rehash(chains, m)[s][p], Rehash(chains, m)[s][q];
              var t, u := b.hashcode % |chains|, a.hashcode % |chains|;
              t < u || (t == u && exists i, j :: 0 <= i < j < |chains[t]| && chains[t][i] == b && chains[t][j] == a)
    {
      RehashOrder(links, heads, chains, m, s, p, q);
    }
  }

  lemma RehashHolds(links: Links, heads: seq<Node?>, chains: seq<seq<Node>>, links': Links, heads': seq<Node?>)
    requires TableHolds(links, heads, chains) && heads' != []
    requires SlotsValid(links', heads', Rehash(chains, |heads'|)) && links'.Keys == links.Keys
    ensures TableHolds(links', heads', Rehash(chains, |heads'|))
  {
    forall n | n in links'
      ensures n in Rehash(chains, |heads'|)[n.hashcode % |heads'|]
    {
      assert n in chains[n.hashcode % |heads|];
      RehashHas(chains, |heads'|, n.hashcode % |heads'|, n);
    }
  }

  /** Before slot `i` is moved, none of its nodes has been: they hash elsewhere in the old table. */
  lemma ChainNotYetMoved(links: Links, heads: seq<Node?>, chains: seq<seq<Node>>, i: nat, n: Node)
    requires SlotsValid(links, heads, chains) && i < |chains|
    requires n in chains[i]
    ensures n !in Flatten(chains[..i])
  {
    FlattenHas(chains[..i], n);
  }

  ghost function ReverseEach(chains: seq<seq<Node>>): (r: seq<seq<Node>>)
    ensures |r| == |chains|
  {
    seq(|chains|, s requires 0 <= s < |chains| => Reverse(chains[s]))
  }

  /** Freeing chain after chain, each from its tail, meets no node twice. */
  lemma {:induction false} ReverseEachIsOnce(links: Links, heads: seq<Node?>, chains: seq<seq<Node>>, i: nat)
    requires SlotsValid(links, heads, chains) && i <= |chains|
    ensures NoDuplicates(Flatten(ReverseEach(chains)[..i]))
  {
    hide Linked, Reverse;
    var rs := ReverseEach(chains);
    if i > 0 {
      ReverseEachIsOnce(links, heads, chains, i - 1);
      assert rs[..i][..i - 1] == rs[..i - 1];
      var last := chains[i - 1];
      assert SlotValid(links, heads[i - 1], last, |heads|, i - 1);
      forall k | 0 <= k < |last|
        ensures Reverse(last)[k] == last[|last| - 1 - k] && Reverse(last)[k] !in Flatten(rs[..i - 1])
      {
        ReverseAt(last, k);
        ReversedSlotsHave(chains, i - 1, Reverse(last)[k]);
      }
    }
  }

  /** The order in which all chains are freed: slot by slot, each chain from its tail. */
  lemma FreedInOrder(links: Links, heads: seq<Node?>, chains: seq<seq<Node>>, y: nat, x: nat)
    requires SlotsValid(links, heads, chains) && y < x < |Flatten(ReverseEach(chains))|
    ensures var b, a := Flatten(ReverseEach(chains))[y], Flatten(ReverseEach(chains))[x];
            var t, u := b.hashcode % |chains|, a.hashcode % |chains|;
            t < u || (t == u && exists i, j :: 0 <= i < j < |chains[t]| && chains[t][i] == a && chains[t][j] == b)
  {
    hide Reverse, Flatten, Linked, NoDuplicates;
    var t, i, u, j := FlattenOrder(ReverseEach(chains), y, x);
    ReverseAt(chains[t], i);
    ReverseAt(chains[u], j);
    assert SlotValid(links, heads[t], chains[t], |heads|, t) && SlotValid(links, heads[u], chains[u], |heads|, u);
  }

  lemma ReversedSlotsHave(chains: seq<seq<Node>>, i: nat, n: Node)
    requires i <= |chains|
    ensures n in Flatten(ReverseEach(chains)[..i]) <==> exists s :: 0 <= s < i && n in chains[s]
  {
    var rs: seq<seq<Node>> := ReverseEach(chains)[..i];
    FlattenHas(rs, n);
    forall s | 0 <= s < i ensures n in rs[s] <==> n in chains[s] {
      ReverseHas(chains[s], n);
    }
  }

  lemma NothingMoved(links: Links, heads: seq<Node?>, m: int)
    requires 0 < m == |heads| && forall s :: 0 <= s < m ==> heads[s] == null
    ensures SlotsValid(links, heads, NewChains(Flatten([]), m))
  {
  }

  /** Slot `i` is as it was in the old table as long as only nodes of earlier slots moved. */
  lemma UnmovedChain(links: Links, links': Links, heads: seq<Node?>, chains: seq<seq<Node>>, i: nat)
    requires SlotsValid(links, heads, chains) && i < |chains|
    requires links'.Keys == links.Keys
    requires forall n :: n in links && n !in Flatten(chains[..i]) ==> links'[n] == links[n]
    ensures Linked(links', heads[i], chains[i]) && NoDuplicates(chains[i])
    ensures forall n :: n in chains[i] ==> n !in Flatten(chains[..i])
  {
    assert SlotValid(links, heads[i], chains[i], |heads|, i);
    forall n | n in chains[i] ensures n !in Flatten(chains[..i]) {
      ChainNotYetMoved(links, heads, chains, i, n);
    }
  }

  lemma HoldsInSlots(links: Links, heads: seq<Node?>, chains: seq<seq<Node>>)
    requires TableHolds(links, heads, chains)
    ensures SlotsValid(links, heads, chains) && 0 < |heads| == |chains|
  {
  }

  lemma HoldsInSlot(links: Links, heads: seq<Node?>, chains: seq<seq<Node>>, s: nat)
    requires TableHolds(links, heads, chains) && s < |heads|
    ensures |heads| == |chains|
    ensures Linked(links, heads[s], chains[s])
    ensures chains[s] != [] ==> chains[s][|chains[s]| - 1] in links
  {
  }

  lemma NodeIsInItsSlot(links: Links, heads: seq<Node?>, chains: seq<seq<Node>>, n: Node)
    requires TableHolds(links, heads, chains)
    ensures n in links <==> n in Flatten(ReverseEach(chains))
  {
    assert ReverseEach(chains)[..|chains|] == ReverseEach(chains);
    ReversedSlotsHave(chains, |chains|, n);
    if s :| 0 <= s < |chains| && n in chains[s] {
      assert SlotValid(links, heads[s], chains[s], |heads|, s);
    }
  }

  lemma AllNodesOnce(links: Links, heads: seq<Node?>, chains: seq<seq<Node>>)
    requires TableHolds(links, heads, chains)
    ensures NoDuplicates(Flatten(ReverseEach(chains))) && Elements(Flatten(ReverseEach(chains))) == links.Keys
  {
    hide TableHolds, SlotsValid, Flatten, ReverseEach, NoDuplicates;
    HoldsInSlots(links, heads, chains);
    ReverseEachIsOnce(links, heads, chains, |chains|);
    assert ReverseEach(chains)[..|chains|] == ReverseEach(chains);
    var live := Flatten(ReverseEach(chains));
    forall o | o in Elements(live) ensures o in links.Keys {
      var i :| 0 <= i < |live| && live[i] == o;
      NodeIsInItsSlot(links, heads, chains, live[i]);
    }
    forall n | n in links ensures n in Elements(live) {
      NodeIsInItsSlot(links, heads, chains, n);
    }
  }
}
