/** The resizable chained hash table of threadlab/htable.c. */
module HashTable {
  import opened Arithmetic
  import opened HashCode
  import opened Primes
  import opened Pointers
  import opened Chains

  const MAX_COLLISION := 10

  // ------------------------------------------------------------ the table's invariants

  /** The nodes spell out the map, one node a key. */
  ghost predicate Spells(nodes: set<Node>, contents: map<Key, Ptr>) {
    (forall n :: n in nodes ==>
       n.hashcode == HashOf(n.key) as int && n.key in contents && contents[n.key] == n.val)
    && (forall k :: k in contents ==> exists n :: n in nodes && n.key == k)
    && (forall n, n' :: n in nodes && n' in nodes && n.key == n'.key ==> n == n')
  }

  /** What malloc gave out is what was freed, without repeats, and what is in use. */
  ghost predicate Accounted(malloced: set<object>, freed: seq<object>, live: set<object>) {
    NoDuplicates(freed)
    && Elements(freed) !! live
    && malloced == Elements(freed) + live
  }

  ghost predicate Sized(allowResize: bool, initSize: int, resizes: nat, size: int) {
    1 <= initSize <= size
    && (initSize == 1 || Prime(initSize))
    && (size == 1 || Prime(size))
    && (resizes == 0 <==> size == initSize)
    && (!allowResize ==> resizes == 0)
    && Pow2(resizes) * initSize <= size
  }

  /** No chain is longer than MAX_COLLISION. */
  ghost predicate Short(chains: seq<seq<Node>>) {
    forall s :: 0 <= s < |chains| ==> |chains[s]| <= MAX_COLLISION
  }

  /** The keys of the map that hash to slot `s` of a table of `m` slots. */
  ghost function KeysInSlot(contents: map<Key, Ptr>, m: int, s: int): (keys: set<Key>)
    requires 0 < m
    ensures forall k :: k in keys <==> k in contents && HashOf(k) as int % m == s
  {
    set k | k in contents && HashOf(k) as int % m == s
  }

  /** In a table of `m` slots, more than ten keys share a slot. */
  ghost predicate Crowded(contents: map<Key, Ptr>, m: int)
    requires 0 < m
  {
    exists s :: 0 <= s < m && 10 < |KeysInSlot(contents, m, s)|
  }

  /** There is a node a key, a freed array a resize, and a resize only of a crowded table. */
  ghost predicate Counted(nodes: set<Node>, contents: map<Key, Ptr>, freed: seq<object>, initSize: int, resizes: nat) {
    |nodes| == |contents| && |freed| == resizes
    && (resizes > 0 ==> 0 < initSize && Crowded(contents, initSize))
  }

  // ------------------------------------------------------------ the invariants' steps

  lemma SpellsInsert(nodes: set<Node>, contents: map<Key, Ptr>, n: Node)
    requires Spells(nodes, contents)
    requires n.key !in contents && n.hashcode == HashOf(n.key) as int
    ensures Spells(nodes + {n}, contents[n.key := n.val])
  {
    hide HashOf;
  }

  lemma AccountedMalloc(malloced: set<object>, freed: seq<object>, live: set<object>, o: object)
    requires Accounted(malloced, freed, live) && o !in malloced
    ensures Accounted(malloced + {o}, freed, live + {o})
  {
  }

  lemma AccountedSwap(malloced: set<object>, freed: seq<object>, nodes: set<object>, o: object, o': object)
    requires Accounted(malloced, freed, nodes + {o})
    requires o !in nodes && o' !in malloced
    ensures Accounted(malloced + {o'}, freed + [o], nodes + {o'})
  {
  }

  lemma ShortKept(chains: seq<seq<Node>>, n: Node)
    requires chains != [] && Short(chains)
    requires |chains[n.hashcode % |chains|]| < MAX_COLLISION
    ensures Short(WithNode(chains, n))
  {
  }

  lemma FirstSize(allowResize: bool, initSize: int, resizes: nat, size: int)
    requires Sized(allowResize, initSize, resizes, size)
    ensures 1 <= initSize <= size && (resizes == 0 <==> size == initSize)
  {
    hide Prime;
  }

  lemma DoubledAgain(resizes: nat, initSize: int)
    ensures Pow2(resizes + 1) * initSize == 2 * (Pow2(resizes) * initSize)
  {
  }

  lemma SizedResize(allowResize: bool, initSize: int, resizes: nat, size: int, size': int)
    requires Sized(allowResize, initSize, resizes, size) && allowResize
    requires IsNextPrime(2 * size, size')
    ensures Sized(allowResize, initSize, resizes + 1, size')
  {
    hide Pow2;
    DoubledAgain(resizes, initSize);
  }

  lemma NodeOf(nodes: set<Node>, contents: map<Key, Ptr>, key: Key) returns (n: Node)
    requires Spells(nodes, contents) && key in contents
    ensures n in nodes && n.key == key && n.hashcode == HashOf(key) as int
  {
    hide HashOf;
    n :| n in nodes && n.key == key;
  }

  lemma KeyIsMapped(nodes: set<Node>, contents: map<Key, Ptr>)
    requires Spells(nodes, contents)
    ensures forall n :: n in nodes ==> n.key in contents && contents[n.key] == n.val
  {
    hide HashOf;
  }

  lemma KeyIsPresent(nodes: set<Node>, contents: map<Key, Ptr>, n: Node)
    requires Spells(nodes, contents) && n in nodes
    ensures n.key in contents && n.hashcode == HashOf(n.key) as int
  {
    hide HashOf;
  }

  lemma SlotKeysMore(contents: map<Key, Ptr>, key: Key, val: Ptr, m: int, s: int)
    requires 0 < m && key !in contents
    ensures KeysInSlot(contents[key := val], m, s) ==
            KeysInSlot(contents, m, s) + if HashOf(key) as int % m == s then {key} else {}
    ensures |KeysInSlot(contents[key := val], m, s)| ==
            |KeysInSlot(contents, m, s)| + if HashOf(key) as int % m == s then 1 else 0
  {
    hide HashOf;
  }

  lemma StillCrowded(contents: map<Key, Ptr>, key: Key, val: Ptr, m: int)
    requires 0 < m && key !in contents && Crowded(contents, m)
    ensures Crowded(contents[key := val], m)
  {
    hide HashOf, KeysInSlot;
    var s :| 0 <= s < m && 10 < |KeysInSlot(contents, m, s)|;
    SlotKeysMore(contents, key, val, m, s);
  }

  /** An eleventh key makes a slot crowded. */
  lemma EleventhKey(contents: map<Key, Ptr>, key: Key, val: Ptr, m: int)
    requires 0 < m && key !in contents && 10 <= |KeysInSlot(contents, m, HashOf(key) as int % m)|
    ensures Crowded(contents[key := val], m)
  {
    hide HashOf, KeysInSlot;
    SlotKeysMore(contents, key, val, m, HashOf(key) as int % m);
  }

  lemma CountedInsert(nodes: set<Node>, contents: map<Key, Ptr>, freed: seq<object>, initSize: int, resizes: nat,
                      n: Node)
    requires Counted(nodes, contents, freed, initSize, resizes) && n !in nodes && n.key !in contents
    ensures Counted(nodes + {n}, contents[n.key := n.val], freed, initSize, resizes)
  {
    hide HashOf, Crowded;
    if resizes > 0 {
      StillCrowded(contents, n.key, n.val, initSize);
    }
  }

  lemma CountedResize(nodes: set<Node>, contents: map<Key, Ptr>, key: Key, val: Ptr, freed: seq<object>, store: object,
                      initSize: int, resizes: nat, size: int)
    requires Counted(nodes, contents[key := val], freed, initSize, resizes) && key !in contents
    requires 0 < size && (resizes == 0 ==> size == initSize)
    requires 10 <= |KeysInSlot(contents, size, HashOf(key) as int % size)|
    ensures Counted(nodes, contents[key := val], freed + [store], initSize, resizes + 1)
  {
    hide HashOf, Crowded, KeysInSlot;
    if resizes == 0 {
      EleventhKey(contents, key, val, size);
    }
  }

  ghost function KeysOf(chain: seq<Node>): set<Key> {
    set i | 0 <= i < |chain| :: chain[i].key
  }

  lemma {:induction false} KeysAreCounted(chain: seq<Node>)
    requires forall i, j :: 0 <= i < j < |chain| ==> chain[i].key != chain[j].key
    ensures |KeysOf(chain)| == |chain|
  {
    hide HashOf;
    if chain != [] {
      var init, last := chain[..|chain| - 1], chain[|chain| - 1];
      KeysAreCounted(init);
      assert KeysOf(chain) == KeysOf(init) + {last.key};
      assert last.key !in KeysOf(init);
    }
  }

  /** A chain is as long as its slot has keys. */
  lemma ChainIsCounted(links: Links, heads: seq<Node?>, chains: seq<seq<Node>>, contents: map<Key, Ptr>, s: int)
    requires TableHolds(links, heads, chains) && Spells(links.Keys, contents) && 0 <= s < |heads|
    ensures |chains[s]| == |KeysInSlot(contents, |heads|, s)|
  {
    hide HashOf, Spells;
    var chain := chains[s];
    assert SlotValid(links, heads[s], chain, |heads|, s);
    forall i, j | 0 <= i < j < |chain| ensures chain[i].key != chain[j].key {
      KeysDiffer(links.Keys, contents, chain[i], chain[j]);
    }
    KeysAreCounted(chain);
    forall k | k in KeysInSlot(contents, |heads|, s) ensures k in KeysOf(chain) {
      var n := NodeOf(links.Keys, contents, k);
      assert n in chain;
    }
    forall k | k in KeysOf(chain) ensures k in KeysInSlot(contents, |heads|, s) {
      var i :| 0 <= i < |chain| && chain[i].key == k;
      KeyIsPresent(links.Keys, contents, chain[i]);
    }
    assert KeysOf(chain) == KeysInSlot(contents, |heads|, s);
  }

  lemma KeysDiffer(nodes: set<Node>, contents: map<Key, Ptr>, n: Node, n': Node)
    requires Spells(nodes, contents) && n in nodes && n' in nodes && n != n'
    ensures n.key != n'.key
  {
    hide HashOf;
  }

  /** While chains are short no slot is crowded. */
  lemma ShortIsNotCrowded(links: Links, heads: seq<Node?>, chains: seq<seq<Node>>, contents: map<Key, Ptr>)
    requires TableHolds(links, heads, chains) && Spells(links.Keys, contents) && Short(chains)
    ensures !Crowded(contents, |heads|)
  {
    hide HashOf, Spells, KeysInSlot;
    forall s | 0 <= s < |heads| ensures |KeysInSlot(contents, |heads|, s)| <= 10 {
      ChainIsCounted(links, heads, chains, contents, s);
    }
  }

  /** Walking the one chain a key hashes to decides whether the key is in the map. */
  lemma KeyIsInItsChain(links: Links, heads: seq<Node?>, chains: seq<seq<Node>>, contents: map<Key, Ptr>, key: Key)
    requires TableHolds(links, heads, chains) && Spells(links.Keys, contents)
    ensures var chain := chains[HashOf(key) as int % |heads|];
            key in contents <==> exists i :: 0 <= i < |chain| && chain[i].key == key
  {
    hide HashOf, Spells;
    var s := HashOf(key) as int % |heads|;
    var chain := chains[s];
    if key in contents {
      var n := NodeOf(links.Keys, contents, key);
      assert n in chain;
    }
    if i :| 0 <= i < |chain| && chain[i].key == key {
      assert SlotValid(links, heads[s], chain, |heads|, s);
      KeyIsPresent(links.Keys, contents, chain[i]);
    }
  }

  lemma CountedMeans(nodes: set<Node>, contents: map<Key, Ptr>, freed: seq<object>, initSize: int, resizes: nat)
    requires Counted(nodes, contents, freed, initSize, resizes)
    ensures |nodes| == |contents| && |freed| == resizes
  {
    hide HashOf, Crowded;
  }

  lemma NodesAreCounted(links: Links, heads: seq<Node?>, chains: seq<seq<Node>>)
    requires TableHolds(links, heads, chains)
    ensures |Flatten(ReverseEach(chains))| == |links.Keys|
  {
    hide TableHolds, Flatten, ReverseEach;
    AllNodesOnce(links, heads, chains);
    ElementsAreCounted(Flatten(ReverseEach(chains)));
    SameSize(Elements(Flatten(ReverseEach(chains))), links.Keys);
  }

  lemma {:induction false} SameSize(os: set<object>, ns: set<Node>)
    requires os == ns
    ensures |os| == |ns|
    decreases |ns|
  {
    if n :| n in ns {
      SameSize(os - {n}, ns - {n});
    }
  }

  lemma EmptyTable(heads: seq<Node?>, chains: seq<seq<Node>>)
    requires 0 < |heads| == |chains|
    requires forall s :: 0 <= s < |heads| ==> heads[s] == null && chains[s] == []
    ensures TableHolds(map[], heads, chains) && Short(chains)
  {
  }

  lemma NothingStored(allowResize: bool, sz: nat, size: int, store: object)
    requires IsNextPrime(sz + 1, size)
    ensures Spells({}, map[]) && Accounted({store}, [], {} + {store}) && Counted({}, map[], [], size, 0)
    ensures Sized(allowResize, size, 0, size)
  {
    hide HashOf, Prime;
  }

  class HTable {
    const allowResize: bool
    var store: array<Node?>
    var size: int

    /** The chain hanging off each slot. */
    ghost var chains: seq<seq<Node>>
    ghost var nodes: set<Node>
    /** The finite map the table stands for. */
    ghost var contents: map<Key, Ptr>
    /** Everything obtained from malloc, and the arguments of free in order. */
    ghost var malloced: set<object>
    ghost var freed: seq<object>
    ghost var resizes: nat
    ghost const initSize: int

    ghost predicate Valid()
      reads this, store, nodes
    {
      size == store.Length
      && TableHolds(LinksOf(nodes), store[..], chains)
      && Spells(nodes, contents)
      && Accounted(malloced, freed, nodes + {store})
      && Sized(allowResize, initSize, resizes, size)
      && Counted(nodes, contents, freed, initSize, resizes)
      && (allowResize && resizes == 0 ==> Short(chains))
    }

    /** What the invariant says about sizes. */
    lemma Sizes()
      requires Valid()
      ensures 1 <= initSize <= size && Pow2(resizes) * initSize <= size
      ensures size == 1 || Prime(size)
      ensures (!allowResize ==> size == initSize) && (resizes == 0 <==> size == initSize)
      ensures allowResize && resizes == 0 ==> Short(chains)
      ensures allowResize ==> (0 < resizes <==> Crowded(contents, initSize))
    {
      hide HashOf, Crowded, TableHolds, Spells, Accounted, Short, Prime, Pow2;
      assert LinksOf(nodes).Keys == nodes;
      if allowResize && resizes == 0 {
        HoldsInSlots(LinksOf(nodes), store[..], chains);
        ShortIsNotCrowded(LinksOf(nodes), store[..], chains, contents);
      }
    }

    /** Starts from a prime above `sz`; only `sz == 0` gives the size 1, which is not one. */
    constructor Init(sz: int, allowResize: bool)
      requires 0 <= sz
      ensures Valid() && fresh(store)
      ensures this.allowResize == allowResize
      ensures IsNextPrime(sz + 1, size) && initSize == size
      ensures 1 <= sz ==> Prime(size)
      ensures contents == map[] && nodes == {} && freed == [] && resizes == 0
    {
      hide HashOf, Spells, Accounted, Sized, Counted, TableHolds, Short;
      var n := GetPrime(sz + 1);
      this.allowResize := allowResize;
      size := n;
      store := new Node?[n](_ => null);
      chains := seq(n, _ => []);
      nodes, contents, resizes, initSize := {}, map[], 0, n;
      new;
      freed, malloced := [], {store};
      assert LinksOf(nodes) == map[];
      EmptyTable(store[..], chains);
      NothingStored(allowResize, sz, size, store);
    }

    /** Walks a chain for a key: the node found, if any, the one before it, and how many
        nodes were passed. */
    method Scan(head: Node?, key: Key, hcode: int, ghost chain: seq<Node>)
      returns (found: Node?, prev: Node?, collision: int)
      requires Linked(LinksOf(nodes), head, chain)
      requires hcode == HashOf(key) as int && Spells(nodes, contents)
      ensures 0 <= collision <= |chain| && found == At(chain, collision)
      ensures forall j :: 0 <= j < collision ==> chain[j].key != key
      ensures found != null ==> found.key == key
      ensures prev == if collision == 0 then null else chain[collision - 1]
    {
      hide HashOf;
      prev, found, collision := null, head, 0;
      while found != null
        invariant 0 <= collision <= |chain| && found == At(chain, collision)
        invariant forall j :: 0 <= j < collision ==> chain[j].key != key
        invariant prev == if collision == 0 then null else chain[collision - 1]
        decreases |chain| - collision
      {
        if found.hashcode == hcode && found.key == key {
          return;
        }
        prev := found;
        found := found.next;
        collision := collision + 1;
      }
    }

    method Lookup(key: Key) returns (v: Ptr)
      requires Valid()
      ensures v == if key in contents then contents[key] else NULL
    {
      hide HashOf, Spells, Sized, Accounted, Counted, Short;
      assert LinksOf(nodes).Keys == nodes;
      KeyIsMapped(nodes, contents);
      var hcode := Hashcode(key);
      var slot := hcode as int % size;
      KeyIsInItsChain(LinksOf(nodes), store[..], chains, contents, key);
      assert SlotValid(LinksOf(nodes), store[..][slot], chains[slot], size, slot);
      var curr, _, _ := Scan(store[slot], key, hcode as int, chains[slot]);
      if curr != null {
        return curr.val;
      }
      return NULL;
    }

    /** Moves one node: it becomes the head of its new chain. */
    method MoveNode(n: Node, newStore: array<Node?>, ghost moved: seq<Node>, m: int)
      requires 0 < m == newStore.Length && n in nodes && n !in moved
      requires SlotsValid(LinksOf(nodes), newStore[..], NewChains(moved, m))
      modifies newStore, n`next
      ensures SlotsValid(LinksOf(nodes), newStore[..], NewChains(moved + [n], m))
    {
      hide SlotsValid, NewChain;
      MoveStep(LinksOf(nodes), newStore[..], moved, m, n);
      var slot := n.hashcode % m;
      if newStore[slot] != null {
        n.next := newStore[slot];
      } else {
        n.next := null;
      }
      newStore[slot] := n;
      assert newStore[..] == old(newStore[..])[slot := n];
      assert LinksOf(nodes) == old(LinksOf(nodes)[n := newStore[slot]]);
    }

    /** Moves a whole old chain, from its head on. */
    method MoveChain(head: Node?, newStore: array<Node?>, ghost chain: seq<Node>, ghost moved: seq<Node>, m: int)
      requires 0 < m == newStore.Length
      requires Linked(LinksOf(nodes), head, chain) && NoDuplicates(chain)
      requires forall n :: n in chain ==> n !in moved
      requires SlotsValid(LinksOf(nodes), newStore[..], NewChains(moved, m))
      modifies newStore, nodes
      ensures SlotsValid(LinksOf(nodes), newStore[..], NewChains(moved + chain, m))
      ensures forall n :: n in nodes && n !in chain ==> n.next == old(n.next)
    {
      hide SlotsValid;
      var curr := head;
      ghost var j := 0;
      assert moved + chain[..0] == moved;
      while curr != null
        invariant 0 <= j <= |chain| && curr == At(chain, j)
        invariant SlotsValid(LinksOf(nodes), newStore[..], NewChains(moved + chain[..j], m))
        invariant forall n :: n in nodes && n !in chain[..j] ==> n.next == old(n.next)
        decreases |chain| - j
      {
        var n := curr;
        curr := curr.next;
        assert n in chain && n !in chain[..j];
        MoveNode(n, newStore, moved + chain[..j], m);
        assert moved + chain[..j] + [n] == moved + chain[..j + 1];
        j := j + 1;
      }
      assert chain[..j] == chain;
    }

    /** Moves all chains, slot by slot, into the empty slots of `newStore`. */
    method MoveAll(newStore: array<Node?>, m: int)
      requires 0 < m == newStore.Length && newStore != store && size == store.Length
      requires forall s :: 0 <= s < m ==> newStore[s] == null
      requires SlotsValid(LinksOf(nodes), store[..], chains)
      modifies newStore, nodes
      ensures SlotsValid(LinksOf(nodes), newStore[..], Rehash(chains, m))
    {
      hide Linked, NoDuplicates, NewChain;
      ghost var links, heads := LinksOf(nodes), store[..];
      NothingMoved(links, newStore[..], m);
      assert chains[..0] == [];
      var i := 0;
      while i < size
        invariant 0 <= i <= size
        invariant SlotsValid(LinksOf(nodes), newStore[..], NewChains(Flatten(chains[..i]), m))
        invariant forall n :: n in nodes && n !in Flatten(chains[..i]) ==> n.next == links[n]
      {
        ghost var moved, chain := Flatten(chains[..i]), chains[i];
        UnmovedChain(links, LinksOf(nodes), heads, chains, i);
        MoveChain(store[i], newStore, chain, moved, m);
        assert chains[..i + 1][..i] == chains[..i];
        i := i + 1;
      }
      assert chains[..i] == chains;
    }

    /** Relinks the very same nodes into a new, larger array of slots. */
    method Relink() returns (newStore: array<Node?>)
      requires size == store.Length && TableHolds(LinksOf(nodes), store[..], chains)
      modifies nodes
      ensures fresh(newStore) && 0 < newStore.Length && IsNextPrime(2 * size, newStore.Length)
      ensures Prime(newStore.Length) && (2 * size < newStore.Length <==> 2 <= size)
      ensures TableHolds(LinksOf(nodes), newStore[..], Rehash(chains, newStore.Length))
    {
      hide TableHolds, SlotsValid, IsNextPrime, Prime, Rehash;
      ghost var links, heads := LinksOf(nodes), store[..];
      HoldsInSlots(links, heads, chains);
      var newSize := GetPrime(2 * size);
      NextPrimeOverDouble(size, newSize);
      newStore := new Node?[newSize](_ => null);
      MoveAll(newStore, newSize);
      RehashHolds(links, heads, chains, LinksOf(nodes), newStore[..]);
    }

    method Resize()
      requires allowResize && size == store.Length
      requires TableHolds(LinksOf(nodes), store[..], chains)
      requires Accounted(malloced, freed, nodes + {store})
      requires Sized(allowResize, initSize, resizes, size)
      modifies this`store, this`size, this`chains, this`malloced, this`freed, this`resizes, nodes
      ensures size == store.Length && TableHolds(LinksOf(nodes), store[..], chains)
      ensures Accounted(malloced, freed, nodes + {store})
      ensures Sized(allowResize, initSize, resizes, size)
      ensures IsNextPrime(2 * old(size), size) && resizes == old(resizes) + 1
      ensures Prime(size) && (2 * old(size) < size <==> 2 <= old(size))
      ensures chains == Rehash(old(chains), size)
      ensures forall s, p, q :: 0 <= s < size && 0 <= p < q < |chains[s]| ==>
                var a, b := chains[s][p], chains[s][q];
                var t, u := b.hashcode % old(size), a.hashcode % old(size);
                t < u
                || (t == u && exists i, j ::
                      0 <= i < j < |old(chains)[t]| && old(chains)[t][i] == b && old(chains)[t][j] == a)
      ensures fresh(store) && freed == old(freed) + [old(store)]
    {
      hide TableHolds, SlotsValid, Sized, Accounted, IsNextPrime, Prime, Rehash, LinksOf;
      ghost var was, hadHeads := LinksOf(nodes), store[..];
      HoldsInSlots(was, hadHeads, chains);
      var newStore := Relink();
      RehashOrders(was, hadHeads, chains, newStore.Length);
      SizedResize(allowResize, initSize, resizes, size, newStore.Length);
      AccountedSwap(malloced, freed, nodes, store, newStore);
      HoldsInSlots(LinksOf(nodes), newStore[..], Rehash(chains, newStore.Length));
      ghost var links, heads := LinksOf(nodes), newStore[..];
      chains := Rehash(chains, newStore.Length);
      resizes := resizes + 1;
      freed, malloced := freed + [store], malloced + {newStore};
      size := newStore.Length;
      store := newStore;
      assert LinksOf(nodes) == links && store[..] == heads;
    }

    /** Hangs a new node onto the tail of its chain, or onto its empty slot. */
    method Append(n: Node, prev: Node?, slot: int)
      requires size == store.Length && TableHolds(LinksOf(nodes), store[..], chains)
      requires n !in nodes && n.next == null && slot == n.hashcode % size
      requires prev == if chains[slot] == [] then null else chains[slot][|chains[slot]| - 1]
      modifies this`chains, this`nodes, store, nodes
      ensures TableHolds(LinksOf(nodes), store[..], chains)
      ensures chains == WithNode(old(chains), n) && nodes == old(nodes) + {n}
    {
      hide TableHolds, SlotsValid, SlotValid, Linked, NoDuplicates, WithNode;
      HoldsInSlots(LinksOf(nodes), store[..], chains);
      ghost var links, heads, chain := LinksOf(nodes), store[..], chains[slot];
      AppendStep(links, heads, chains, n);
      HoldsInSlot(links, heads, chains, slot);
      if prev == null {
        store[slot] := n;
      } else {
        prev.next := n;
      }
      chains := WithNode(chains, n);
      nodes := nodes + {n};
      assert LinksOf(nodes) == LinksWithNode(links, chain, n);
      assert store[..] == if chain == [] then heads[slot := n] else heads;
    }

    /** Allocates the node of a new pair and appends it; the table may now be due a resize. */
    method AddNode(key: Key, val: Ptr, hcode: int, prev: Node?, slot: int) returns (n: Node)
      requires size == store.Length && TableHolds(LinksOf(nodes), store[..], chains)
      requires Spells(nodes, contents) && key !in contents
      requires Accounted(malloced, freed, nodes + {store})
      requires hcode == HashOf(key) as int && slot == hcode % size
      requires prev == if chains[slot] == [] then null else chains[slot][|chains[slot]| - 1]
      modifies this`chains, this`nodes, this`contents, this`malloced, store, nodes
      ensures TableHolds(LinksOf(nodes), store[..], chains)
      ensures Spells(nodes, contents) && contents == old(contents)[key := val]
      ensures Accounted(malloced, freed, nodes + {store})
      ensures fresh(n) && n.hashcode == hcode && n.key == key && n.val == val
      ensures chains == WithNode(old(chains), n) && nodes == old(nodes) + {n}
    {
      hide TableHolds, SlotsValid, Spells, Accounted, WithNode, HashOf;
      HoldsInSlots(LinksOf(nodes), store[..], chains);
      n := new Node(hcode, key, val);
      SpellsInsert(nodes, contents, n);
      AccountedMalloc(malloced, freed, nodes + {store}, n);
      assert nodes + {store} + {n} == nodes + {n} + {store};
      Append(n, prev, slot);
      contents, malloced := contents[key := val], malloced + {n};
    }

    /** Everything is as it was. */
    twostate predicate Unchanged()
      reads this, store, nodes
    {
      unchanged(this) && unchanged(store) && forall n :: n in nodes ==> n.next == old(n.next)
    }

    /** Inserts unless the key is there (then 1, and nothing changes). A chain that was
        already MAX_COLLISION long makes the whole table resize. */
    method Insert(key: Key, val: Ptr) returns (r: int, ghost n: Node?)
      requires Valid()
      modifies this, store, nodes
      ensures Valid()
      ensures r == if key in old(contents) then 1 else 0
      ensures r == 1 ==> Unchanged() && contents == old(contents) && nodes == old(nodes) && store == old(store)
      ensures r == 0 ==> contents == old(contents)[key := val]
      ensures r == 0 ==> n != null && fresh(n) && n.hashcode == HashOf(key) as int && n.key == key && n.val == val
      ensures r == 0 ==> nodes == old(nodes) + {n}
      ensures r == 0 && resizes == old(resizes) ==>
                chains == WithNode(old(chains), n)
                && size == old(size) && store == old(store) && freed == old(freed)
      ensures r == 0 && resizes == old(resizes) ==>
                |chains| == |old(chains)|
                && forall s :: 0 <= s < |chains| ==>
                     chains[s] == old(chains)[s] + if s == HashOf(key) as int % old(size) then [n] else []
      ensures resizes != old(resizes) ==>
                chains == Rehash(WithNode(old(chains), n), size)
                && resizes == old(resizes) + 1 && IsNextPrime(2 * old(size), size)
                && fresh(store) && freed == old(freed) + [old(store)]
      ensures resizes != old(resizes) <==>
                r == 0 && allowResize && |old(chains)[HashOf(key) as int % old(size)]| >= MAX_COLLISION
      ensures resizes != old(resizes) <==>
                key !in old(contents) && allowResize
                && 10 <= |KeysInSlot(old(contents), old(size), HashOf(key) as int % old(size))|
    {
      hide TableHolds, Linked, Spells, Sized, Accounted, IsNextPrime, Rehash, WithNode, Short, HashOf, Counted,
        KeysInSlot, Crowded;
      assert LinksOf(nodes).Keys == nodes;
      FirstSize(allowResize, initSize, resizes, size);
      HoldsInSlots(LinksOf(nodes), store[..], chains);
      KeyIsInItsChain(LinksOf(nodes), store[..], chains, contents, key);
      var hcode := Hashcode(key);
      var slot := hcode as int % size;
      HoldsInSlot(LinksOf(nodes), store[..], chains, slot);
      ghost var chain := chains[slot];
      ChainIsCounted(LinksOf(nodes), store[..], chains, contents, slot);
      var curr, prev, collision := Scan(store[slot], key, hcode as int, chain);
      if curr != null {
        return 1, null;
      }
      var node := AddNode(key, val, hcode as int, prev, slot);
      n := node;
      CountedInsert(old(nodes), old(contents), freed, initSize, resizes, node);
      if allowResize && collision >= MAX_COLLISION {
        CountedResize(nodes, old(contents), key, val, freed, store, initSize, resizes, size);
        Resize();
      } else if allowResize && resizes == 0 {
        ShortKept(old(chains), node);
      }
      r := 0;
    }

    method FreeLinkedList(n: Node?, ghost chain: seq<Node>)
      requires Linked(LinksOf(nodes), n, chain)
      modifies `freed
      ensures freed == old(freed) + Reverse(chain)
      decreases |chain|
    {
      if n == null {
        assert chain == [];
      } else {
        assert chain == [n] + chain[1..];
        FreeLinkedList(n.next, chain[1..]);
        freed := freed + [n];
        ReverseOfCons(n, chain[1..]);
      }
    }

    /** Frees chain after chain, then the slots: with what was freed before, exactly
        everything that came from malloc, each once. */
    method Destroy()
      requires Valid()
      modifies `freed
      ensures freed == old(freed) + Flatten(ReverseEach(chains)) + [store]
      ensures NoDuplicates(freed) && malloced == Elements(freed)
      ensures nodes <= malloced && store in malloced && |freed| == |contents| + resizes + 1
    {
      hide TableHolds, SlotsValid, Spells, Sized, Counted, Short, HashOf, Flatten, ReverseEach;
      HoldsInSlots(LinksOf(nodes), store[..], chains);
      EverythingOnce(LinksOf(nodes), store[..], chains, malloced, freed, store);
      NodesAreCounted(LinksOf(nodes), store[..], chains);
      CountedMeans(nodes, contents, freed, initSize, resizes);
      assert LinksOf(nodes).Keys == nodes;
      FreeChains();
      freed := freed + [store];
    }

    method FreeChains()
      requires size == store.Length && SlotsValid(LinksOf(nodes), store[..], chains)
      modifies `freed
      ensures freed == old(freed) + Flatten(ReverseEach(chains))
    {
      hide Linked, NoDuplicates, At;
      var i := 0;
      while i < size
        invariant 0 <= i <= size
        invariant freed == old(freed) + Flatten(ReverseEach(chains)[..i])
      {
        assert SlotValid(LinksOf(nodes), store[..][i], chains[i], size, i);
        FreeLinkedList(store[i], chains[i]);
        assert ReverseEach(chains)[..i + 1][..i] == ReverseEach(chains)[..i];
        i := i + 1;
      }
      assert ReverseEach(chains)[..i] == ReverseEach(chains);
    }
  }

  lemma EverythingOnce(links: Links, heads: seq<Node?>, chains: seq<seq<Node>>,
                       malloced: set<object>, freed: seq<object>, store: object)
    requires TableHolds(links, heads, chains)
    requires Accounted(malloced, freed, links.Keys + {store}) && store !in links.Keys
    ensures var all := freed + Flatten(ReverseEach(chains)) + [store];
            NoDuplicates(all) && malloced == Elements(all)
  {
    var live := Flatten(ReverseEach(chains));
    AllNodesOnce(links, heads, chains);
    hide TableHolds;
    ConcatenateDistinct(freed, live);
    ConcatenateDistinct(freed + live, [store]);
    assert Elements([store]) == {store};
  }
}
