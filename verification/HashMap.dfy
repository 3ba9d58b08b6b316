/** map.c: a chained hash table that doubles by re-linking its nodes.

    The nodes are heap objects linked through `next`, as in the C code.  The ghost field `chains`
    lists the nodes of every bucket in order, the ghost field `M` is the finite map that the table
    stands for, and `Valid` ties them together. */
module HashMap {
  import opened Basics
  import opened Bits

  /** map_hash: 32-bit arithmetic over the characters up to the terminating zero. */
  function HashFrom(key: string, i: nat, hash: nat): nat
    requires i <= |key|
    decreases |key| - i
  {
    if i == |key| then hash
    else HashFrom(key, i + 1, Xor((hash * 32 + hash) % 0x1_0000_0000, key[i] as int))
  }

  function Hash(key: string): nat {
    HashFrom(key, 0, 5381)
  }

  lemma {:induction false} HashOfMore(key: string, c: char, i: nat, hash: nat)
    requires i <= |key|
    ensures HashFrom(key + [c], i, hash) == Xor(HashFrom(key, i, hash) * 33 % 0x1_0000_0000, c as int)
    decreases |key| - i
  {
    var more := key + [c];
    if i < |key| {
      assert more[i] == key[i];
      HashOfMore(key, c, i + 1, Xor((hash * 32 + hash) % 0x1_0000_0000, key[i] as int));
    } else {
      assert more[i] == c && HashFrom(more, i + 1, Xor((hash * 32 + hash) % 0x1_0000_0000, c as int)) ==
        Xor((hash * 32 + hash) % 0x1_0000_0000, c as int);
    }
  }

  /** Appending a character multiplies the hash by 33, in 32 bits, and combines it with the character. */
  lemma HashIs(key: string, c: char)
    ensures Hash("") == 5381
    ensures Hash(key + [c]) == Xor(Hash(key) * 33 % 0x1_0000_0000, c as int)
  {
    HashOfMore(key, c, 0, 5381);
  }

  /** map_bucketidx: the hash masked with the number of buckets less one. */
  function BucketIdx(hash: nat, nbuckets: nat): (b: nat)
    requires nbuckets > 0
    ensures b < nbuckets
  {
    AndAtMost(hash, nbuckets - 1);
    And(hash, nbuckets - 1)
  }

  ghost predicate PowerOfTwo(n: nat) {
    exists k: nat :: n == Pow2(k)
  }

  /** For a power of two the mask is the remainder. */
  lemma BucketIsMod(hash: nat, nbuckets: nat)
    requires nbuckets > 0 && PowerOfTwo(nbuckets)
    ensures BucketIdx(hash, nbuckets) == hash % nbuckets
  {
    var k: nat :| nbuckets == Pow2(k);
    AndIsMod(hash, k);
  }

  lemma DoublePower(n: nat)
    requires PowerOfTwo(n)
    ensures PowerOfTwo(2 * n)
  {
    var k: nat :| n == Pow2(k);
    assert 2 * n == Pow2(k + 1);
  }

  /** memcpy of a new value over the storage of an old one. */
  function Overwrite(storage: string, value: string): (r: string)
    requires |value| <= |storage|
    ensures |r| == |storage| && r[..|value|] == value && r[|value|..] == storage[|value|..]
  {
    value + storage[|value|..]
  }

  /** map_node_t; `hash` and the key never change. */
  class Node {
    const hash: nat
    const key: string
    var value: string
    var next: Node?

    /** map_newnode */
    constructor (key: string, value: string)
      ensures this.key == key && hash == Hash(key) && this.value == value && next == null
    {
      this.key := key;
      this.hash := Hash(key);
      this.value := value;
      this.next := null;
    }
  }

  // ----- chains -----

  /** The node after position `i` of a chain. */
  function After(c: seq<Node>, i: nat): Node?
  {
    if i + 1 < |c| then c[i + 1] else null
  }

  /** `c` lists the nodes from `first` on. */
  ghost predicate IsChain(first: Node?, c: seq<Node>)
    reads c`next
  {
    && first == (if c == [] then null else c[0])
    && forall i {:trigger After(c, i)} :: 0 <= i < |c| ==> c[i].next == After(c, i)
  }

  /** Different positions hold different keys, hence different nodes. */
  ghost predicate DistinctKeys(c: seq<Node>) {
    forall i, j :: 0 <= i < j < |c| ==> c[i].key != c[j].key
  }

  ghost predicate HasKey(c: seq<Node>, key: string) {
    exists i :: 0 <= i < |c| && c[i].key == key
  }

  function Total(chains: seq<seq<Node>>): nat {
    if chains == [] then 0 else Total(chains[..|chains| - 1]) + |chains[|chains| - 1]|
  }

  predicate InPlace(n: Node, b: nat, nbuckets: nat)
    requires nbuckets > 0
  {
    n.hash == Hash(n.key) && BucketIdx(n.hash, nbuckets) == b
  }

  /** Every node is in the bucket of its hash, and no key occurs twice. */
  ghost predicate Placed(chains: seq<seq<Node>>) {
    && (forall b :: 0 <= b < |chains| ==> DistinctKeys(chains[b]))
    && (forall b, i {:trigger InPlace(chains[b][i], b, |chains|)} ::
      0 <= b < |chains| && 0 <= i < |chains[b]| ==> InPlace(chains[b][i], b, |chains|))
  }

  // ----- draining and refilling, on lists of nodes -----

  /** The first `k` nodes of `c`, backwards. */
  function Rev(c: seq<Node>, k: nat): (r: seq<Node>)
    requires k <= |c|
    ensures |r| == k && forall j :: 0 <= j < k ==> r[j] == c[k - 1 - j]
  {
    seq(k, j requires 0 <= j < k => c[k - 1 - j])
  }

  /** The single chain of all nodes once the buckets from `i` on have been emptied into it. */
  function Drained(chains: seq<seq<Node>>, i: nat): seq<Node>
    requires i <= |chains|
    decreases |chains| - i
  {
    if i == |chains| then [] else Rev(chains[i], |chains[i]|) + Drained(chains, i + 1)
  }

  function Empty(n: nat): (r: seq<seq<Node>>)
    ensures |r| == n && forall b :: 0 <= b < n ==> r[b] == []
  {
    seq(n, _ => [])
  }

  /** `n` buckets after the nodes of `list` have been added to them one by one. */
  function Refilled(n: nat, list: seq<Node>): (r: seq<seq<Node>>)
    requires n > 0
    ensures |r| == n
  {
    if list == [] then Empty(n)
    else
      var r := Refilled(n, list[..|list| - 1]);
      var x := list[|list| - 1];
      var b := BucketIdx(x.hash, n);
      r[b := [x] + r[b]]
  }

  lemma RevHolds(c: seq<Node>, n: Node)
    requires n in c
    ensures n in Rev(c, |c|)
  {
    var i :| 0 <= i < |c| && c[i] == n;
    assert Rev(c, |c|)[|c| - 1 - i] == n;
  }

  lemma RevStep(c: seq<Node>, k: nat, l: seq<Node>)
    requires k < |c| && DistinctKeys(c) && forall n <- c :: n !in l
    ensures Rev(c, k + 1) + l == [c[k]] + (Rev(c, k) + l)
    ensures c[k] !in Rev(c, k) + l
    ensures forall i :: k < i < |c| ==> c[i] != c[k]
  {
    assert c[k] in c;
  }

  /** Draining keeps exactly the nodes that were in the buckets, each of them once. */
  lemma {:induction false} DrainedHolds(chains: seq<seq<Node>>, i: nat)
    requires i <= |chains| && Placed(chains)
    ensures forall b, n :: i <= b < |chains| && n in chains[b] ==> n in Drained(chains, i)
    ensures forall n <- Drained(chains, i) ::
      n.hash == Hash(n.key) && i <= BucketIdx(n.hash, |chains|) && n in chains[BucketIdx(n.hash, |chains|)]
    ensures DistinctKeys(Drained(chains, i))
    decreases |chains| - i
  {
    if i < |chains| {
      var c := chains[i];
      var r, d := Rev(c, |c|), Drained(chains, i + 1);
      DrainedHolds(chains, i + 1);
      forall b, n | i <= b < |chains| && n in chains[b]
        ensures n in r + d
      {
        if b == i {
          RevHolds(c, n);
        }
      }
      forall x | 0 <= x < |r|
        ensures r[x] in c && InPlace(r[x], i, |chains|)
      {
        assert c[|c| - 1 - x] in c && InPlace(c[|c| - 1 - x], i, |chains|);
      }
      forall x, y | 0 <= x < |r| && 0 <= y < |d|
        ensures r[x].key != d[y].key
      {
        assert d[y] in d && InPlace(r[x], i, |chains|);
      }
    }
  }

  lemma {:induction false} DrainedLength(chains: seq<seq<Node>>, i: nat)
    requires i <= |chains|
    ensures |Drained(chains, i)| + Total(chains[..i]) == Total(chains)
    decreases |chains| - i
  {
    if i == |chains| {
      assert chains[..i] == chains;
    } else {
      DrainedLength(chains, i + 1);
      assert chains[..i + 1][..i] == chains[..i];
    }
  }

  /** Refilling puts every node of the list into the bucket of its hash, and nothing else. */
  lemma {:induction false} RefilledHolds(n: nat, list: seq<Node>)
    requires n > 0 && DistinctKeys(list) && forall x <- list :: x.hash == Hash(x.key)
    ensures forall b, x :: 0 <= b < n && x in Refilled(n, list)[b] ==> x in list
    ensures forall x <- list :: x in Refilled(n, list)[BucketIdx(x.hash, n)]
    ensures Placed(Refilled(n, list))
  {
    if list != [] {
      var init, x := list[..|list| - 1], list[|list| - 1];
      RefilledHolds(n, init);
      var b := BucketIdx(x.hash, n);
      var r: seq<seq<Node>> := Refilled(n, init);
      forall i | 0 <= i < |r[b]|
        ensures r[b][i].key != x.key
      {
        assert r[b][i] in init;
      }
      assert list == init + [x];
    }
  }

  lemma {:induction false} RefilledTotal(n: nat, list: seq<Node>)
    requires n > 0
    ensures Total(Refilled(n, list)) == |list|
  {
    if list == [] {
      EmptyTotal(n);
    } else {
      var x := list[|list| - 1];
      var r := Refilled(n, list[..|list| - 1]);
      RefilledTotal(n, list[..|list| - 1]);
      TotalUpdate(r, BucketIdx(x.hash, n), [x] + r[BucketIdx(x.hash, n)]);
    }
  }

  lemma {:induction false} EmptyTotal(n: nat)
    ensures Total(Empty(n)) == 0
  {
    if n > 0 {
      EmptyTotal(n - 1);
      assert Empty(n)[..n - 1] == Empty(n - 1);
    }
  }

  lemma {:induction false} TotalUpdate(chains: seq<seq<Node>>, b: nat, c: seq<Node>)
    requires b < |chains|
    ensures Total(chains[b := c]) == Total(chains) - |chains[b]| + |c|
  {
    var init := chains[..|chains| - 1];
    if b < |init| {
      TotalUpdate(init, b, c);
      assert chains[b := c][..|chains| - 1] == init[b := c];
    } else {
      assert chains[b := c][..|chains| - 1] == init;
    }
  }

  /** No key is lost. */
  lemma RefilledHasKey(chains: seq<seq<Node>>, n: nat, key: string)
    requires n > 0 && Placed(chains) && Somewhere(chains, key)
    ensures Somewhere(Refilled(n, Drained(chains, 0)), key)
  {
    var b, i :| 0 <= b < |chains| && 0 <= i < |chains[b]| && chains[b][i].key == key;
    DrainedHolds(chains, 0);
    RefilledHolds(n, Drained(chains, 0));
    assert chains[b][i] in chains[b] && chains[b][i] in Drained(chains, 0);
    var c := BucketIdx(chains[b][i].hash, n);
    var r: seq<Node> := Refilled(n, Drained(chains, 0))[c];
    var j :| 0 <= j < |r| && r[j] == chains[b][i];
    assert Refilled(n, Drained(chains, 0))[c][j].key == key;
  }

  /** Some node has this key. */
  ghost predicate Somewhere(chains: seq<seq<Node>>, key: string) {
    exists b, i :: 0 <= b < |chains| && 0 <= i < |chains[b]| && chains[b][i].key == key
  }

  /** A key is in the bucket of its hash or nowhere. */
  lemma WhereKeyIs(chains: seq<seq<Node>>, key: string)
    requires Placed(chains)
    ensures Somewhere(chains, key) <==> |chains| > 0 && HasKey(chains[BucketIdx(Hash(key), |chains|)], key)
  {
    if Somewhere(chains, key) {
      var b, i :| 0 <= b < |chains| && 0 <= i < |chains[b]| && chains[b][i].key == key;
      assert InPlace(chains[b][i], b, |chains|);
    }
  }

  ghost predicate Within(chains: seq<seq<Node>>, nodes: set<Node>) {
    forall b, i :: 0 <= b < |chains| && 0 <= i < |chains[b]| ==> chains[b][i] in nodes
  }

  ghost predicate Holds(m: map<string, string>, n: Node)
    reads n`value
  {
    n.key in m && m[n.key] == n.value
  }

  /** The nodes in the buckets hold exactly the entries of `m`. */
  ghost predicate StandsFor(chains: seq<seq<Node>>, nodes: set<Node>, m: map<string, string>)
    reads nodes`value
  {
    && Within(chains, nodes)
    && (forall b, i {:trigger Holds(m, chains[b][i])} ::
      0 <= b < |chains| && 0 <= i < |chains[b]| ==> Holds(m, chains[b][i]))
    && (forall k {:trigger Somewhere(chains, k)} :: k in m ==> Somewhere(chains, k))
  }

  /** A drained node is one of the table's nodes. */
  lemma DrainedIsFit(chains: seq<seq<Node>>, nodes: set<Node>, m: map<string, string>, x: Node)
    requires Placed(chains) && StandsFor(chains, nodes, m) && x in Drained(chains, 0)
    ensures x in nodes && Holds(m, x)
  {
    DrainedHolds(chains, 0);
    var b := BucketIdx(x.hash, |chains|);
    var i :| 0 <= i < |chains[b]| && chains[b][i] == x;
  }

  /** Redistributing the nodes keeps the map that they stand for. */
  lemma RefilledStandsFor(chains: seq<seq<Node>>, n: nat, nodes: set<Node>, m: map<string, string>)
    requires n > 0 && Placed(chains) && StandsFor(chains, nodes, m)
    ensures StandsFor(Refilled(n, Drained(chains, 0)), nodes, m)
    ensures Total(Refilled(n, Drained(chains, 0))) == Total(chains)
  {
    ResizeKeeps(chains, n);
    var after := Refilled(n, Drained(chains, 0));
    forall b, i | 0 <= b < n && 0 <= i < |after[b]|
      ensures after[b][i] in nodes && Holds(m, after[b][i])
    {
      assert after[b][i] in after[b];
      DrainedIsFit(chains, nodes, m, after[b][i]);
    }
    forall k | k in m
      ensures Somewhere(after, k)
    {
      RefilledHasKey(chains, n, k);
    }
  }

  class Map {
    var buckets: array<Node?>
    var nbuckets: nat
    var nnodes: nat
    ghost var chains: seq<seq<Node>>
    ghost var nodes: set<Node>
    ghost var M: map<string, string>

    /** The nodes are linked as `chains` says. */
    ghost predicate Linked()
      reads this`buckets, this`nbuckets, this`chains, this`nodes, buckets, nodes`next
    {
      && buckets.Length == nbuckets == |chains|
      && Within(chains, nodes)
      && (forall b :: 0 <= b < |chains| ==> IsChain(buckets[b], chains[b]))
      && Placed(chains)
    }

    ghost predicate Valid()
      reads this, buckets, nodes
    {
      && Linked()
      && StandsFor(chains, nodes, M)
      && (nbuckets == 0 || PowerOfTwo(nbuckets))
      && nnodes == Total(chains) <= nbuckets
    }

    /** map_init */
    constructor ()
      ensures Valid() && M == map[] && nbuckets == 0
      ensures fresh(buckets) && nodes == {}
    {
      buckets := new Node?[0];
      nbuckets, nnodes := 0, 0;
      chains, nodes, M := [], {}, map[];
    }

    /** map_getref: the node with the key and the one before it in its bucket. */
    method GetRef(key: string) returns (prev: Node?, node: Node?, ghost b: nat, ghost i: nat)
      requires Linked()
      ensures node == null ==> nbuckets == 0 || !HasKey(chains[BucketIdx(Hash(key), nbuckets)], key)
      ensures node != null ==> b < |chains| && i < |chains[b]| && chains[b][i] == node && node.key == key
      ensures node != null ==> prev == if i == 0 then null else chains[b][i - 1]
      ensures node != null ==> b == BucketIdx(Hash(key), nbuckets)
    {
      var hash := Hash(key);
      prev, node, b, i := null, null, 0, 0;
      if nbuckets > 0 {
        var n := BucketIdx(hash, nbuckets);
        node := buckets[n];
        b := n;
        ghost var c := chains[b];
        assert IsChain(node, c);
        while node != null
          invariant i <= |c| && node == (if i < |c| then c[i] else null)
          invariant prev == if i == 0 then null else c[i - 1]
          invariant forall j :: 0 <= j < i ==> c[j].key != key
          decreases |c| - i
        {
          assert c[i].next == After(c, i) && InPlace(c[i], b, nbuckets);
          if node.hash == hash && node.key == key {
            return;
          }
          prev := node;
          node := node.next;
          i := i + 1;
        }
      }
    }

    /** What map_getref finds is the entry of the map. */
    lemma FoundIsEntry(key: string, node: Node?, b: nat, i: nat)
      requires Placed(chains) && StandsFor(chains, nodes, M) && nbuckets == |chains|
      requires node == null ==> nbuckets == 0 || !HasKey(chains[BucketIdx(Hash(key), nbuckets)], key)
      requires node != null ==> b < |chains| && i < |chains[b]| && chains[b][i] == node && node.key == key
      ensures node == null ==> key !in M
      ensures node != null ==> key in M && M[key] == node.value && node in nodes
    {
      if node != null {
        assert Holds(M, chains[b][i]);
      } else {
        WhereKeyIs(chains, key);
      }
    }

    /** map_get_ */
    method Get(key: string) returns (found: bool, value: string)
      requires Valid()
      ensures found <==> key in M
      ensures found ==> value == M[key]
    {
      var prev, node, b, i := GetRef(key);
      FoundIsEntry(key, node, b, i);
      found := node != null;
      value := if node != null then node.value else "";
    }

    /** One node onto the front of a chain. */
    static method Push(node: Node, list: Node?, ghost l: seq<Node>)
      requires IsChain(list, l) && node !in l
      modifies node`next
      ensures IsChain(node, [node] + l)
    {
      ghost var c := [node] + l;
      node.next := list;
      forall i | 0 <= i < |c|
        ensures c[i].next == After(c, i)
      {
        if i > 0 {
          assert c[i] == l[i - 1] && old(l[i - 1].next) == After(l, i - 1);
        }
      }
    }

    /** map_addnode */
    method AddNode(node: Node)
      requires Linked() && nbuckets > 0 && node in nodes && node.hash == Hash(node.key)
      requires !HasKey(chains[BucketIdx(node.hash, nbuckets)], node.key)
      modifies buckets, node`next, this`chains
      ensures Linked()
      ensures var b := BucketIdx(node.hash, nbuckets); chains == old(chains)[b := [node] + old(chains)[b]]
    {
      var n := BucketIdx(node.hash, nbuckets);
      NotThere(chains, node);
      Push(node, buckets[n], chains[n]);
      AddedIsPlaced(chains, node);
      buckets[n] := node;
      chains := chains[n := [node] + chains[n]];
    }

    /** The inner loop of map_resize's first phase: one bucket's nodes onto the front of a chain. */
    static method Unchain(first: Node?, ghost c: seq<Node>, list: Node?, ghost l: seq<Node>) returns (r: Node?)
      requires IsChain(first, c) && IsChain(list, l) && DistinctKeys(c)
      requires forall n <- c :: n !in l
      modifies c`next
      ensures IsChain(r, Rev(c, |c|) + l)
    {
      var node := first;
      r := list;
      ghost var k := 0;
      assert Rev(c, 0) + l == l;
      while node != null
        invariant k <= |c| && node == (if k < |c| then c[k] else null)
        invariant forall i {:trigger After(c, i)} :: k <= i < |c| ==> c[i].next == After(c, i)
        invariant IsChain(r, Rev(c, k) + l)
        decreases |c| - k
      {
        assert c[k].next == After(c, k);
        var next := node.next;
        RevStep(c, k, l);
        Push(node, r, Rev(c, k) + l);
        r := node;
        k := k + 1;
        node := next;
      }
    }

    /** The buckets before `i` are still linked, the others are in the single chain. */
    ghost predicate Draining(i: nat, list: Node?)
      requires i <= |chains|
      reads this, buckets, nodes, Drained(chains, i)
    {
      && buckets.Length == nbuckets == |chains| && Placed(chains)
      && Within(chains, nodes)
      && IsChain(list, Drained(chains, i))
      && forall b :: 0 <= b < i ==> IsChain(buckets[b], chains[b])
    }

    method DrainBucket(i: nat, list: Node?) returns (r: Node?)
      requires i < |chains| && Draining(i + 1, list)
      modifies nodes`next
      ensures Draining(i, r)
    {
      Apart(chains, i);
      ghost var c := chains[i];
      assert forall n <- c :: n in nodes;
      r := Unchain(buckets[i], c, list, Drained(chains, i + 1));
      forall b | 0 <= b < i
        ensures IsChain(buckets[b], chains[b])
      {
        assert old(IsChain(buckets[b], chains[b]));
        assert forall j :: 0 <= j < |chains[b]| ==> chains[b][j].next == old(chains[b][j].next);
      }
    }

    /** map_resize, first phase: all nodes into a single chain. */
    method Drain() returns (list: Node?)
      requires Linked()
      modifies nodes`next
      ensures IsChain(list, Drained(chains, 0))
    {
      list := null;
      var i := nbuckets;
      while i > 0
        invariant 0 <= i <= |chains| && Draining(i, list)
        modifies nodes`next
      {
        i := i - 1;
        list := DrainBucket(i, list);
      }
    }

    /** map_resize, second phase: every node of the chain into its bucket. */
    method Refill(list: Node?, ghost l: seq<Node>)
      requires Linked() && nbuckets > 0 && IsChain(list, l) && DistinctKeys(l)
      requires chains == Empty(nbuckets) && forall n <- l :: n in nodes && n.hash == Hash(n.key)
      modifies buckets, nodes`next, this`chains
      ensures Linked() && chains == Refilled(nbuckets, l)
    {
      var node := list;
      ghost var p := 0;
      while node != null
        invariant p <= |l| && node == (if p < |l| then l[p] else null)
        invariant forall i {:trigger After(l, i)} :: p <= i < |l| ==> l[i].next == After(l, i)
        invariant Linked() && chains == Refilled(nbuckets, l[..p])
        decreases |l| - p
      {
        assert l[p].next == After(l, p);
        var next := node.next;
        RefillStep(nbuckets, l, p);
        AddNode(node);
        p := p + 1;
        node := next;
      }
      assert l[..p] == l;
    }

    /** map_resize; `memory` says whether realloc can give the new array.  Either way every node is
        linked again, so the map that the table stands for stays what it was. */
    method Resize(n: nat, memory: bool) returns (ok: bool)
      requires Valid() && PowerOfTwo(n) && nnodes <= n && n > 0
      modifies this`buckets, this`nbuckets, this`chains, buckets, nodes`next
      ensures Valid() && ok == memory && nbuckets == if ok then n else old(nbuckets)
      ensures buckets == old(buckets) || fresh(buckets)
    {
      ghost var before := chains;
      var list := Drain();
      if memory {
        buckets := new Node?[n];
        nbuckets := n;
      }
      if nbuckets > 0 {
        Rebuild(list, before);
      }
      ok := memory;
    }

    /** memset on the bucket array. */
    method Clear()
      requires buckets.Length == nbuckets
      modifies buckets, this`chains
      ensures Linked() && chains == Empty(nbuckets)
    {
      forall b | 0 <= b < buckets.Length {
        buckets[b] := null;
      }
      chains := Empty(nbuckets);
    }

    /** map_resize after realloc: the buckets are cleared and the chain of all nodes is put back. */
    method Rebuild(list: Node?, ghost before: seq<seq<Node>>)
      requires buckets.Length == nbuckets > 0 && Placed(before) && StandsFor(before, nodes, M)
      requires IsChain(list, Drained(before, 0))
      modifies buckets, nodes`next, this`chains
      ensures Linked() && StandsFor(chains, nodes, M) && Total(chains) == Total(before)
    {
      ghost var l := Drained(before, 0);
      DrainedHolds(before, 0);
      forall x | x in l
        ensures x in nodes
      {
        DrainedIsFit(before, nodes, M, x);
      }
      Clear();
      Refill(list, l);
      RefilledStandsFor(before, nbuckets, nodes, M);
    }

    /** map_set_; `nodeMemory` and `growMemory` say whether malloc can give the node and realloc the
        larger bucket array.  Replacing a value copies over its old storage, which the caller must
        not overrun. */
    method Set(key: string, value: string, nodeMemory: bool, growMemory: bool) returns (ok: bool)
      requires Valid()
      requires key in M ==> |value| <= |M[key]|
      modifies this, buckets, nodes
      ensures Valid() && fresh(nodes - old(nodes)) && (buckets == old(buckets) || fresh(buckets))
      ensures key in old(M) ==> ok && nnodes == old(nnodes) && M == old(M)[key := Overwrite(old(M[key]), value)]
      ensures key in old(M) ==>
        |M[key]| == |old(M)[key]| && M[key][..|value|] == value && M[key][|value|..] == old(M)[key][|value|..]
      ensures ok && value != "" && value[|value| - 1] == '\0' && '\0' !in value[..|value| - 1] ==>
        key in M && CString(M[key]) == value[..|value| - 1]
      ensures key in old(M) || !ok || old(nnodes < nbuckets) ==> nbuckets == old(nbuckets)
      ensures key !in old(M) && ok && old(nnodes >= nbuckets) ==>
        nbuckets == if old(nbuckets) > 0 then 2 * old(nbuckets) else 1
      ensures key !in old(M) ==> ok == (nodeMemory && (growMemory || old(nnodes < nbuckets)))
      ensures key !in old(M) && ok ==> nnodes == old(nnodes) + 1 && M == old(M)[key := value]
      ensures key !in old(M) && !ok ==> nnodes == old(nnodes) && M == old(M)
    {
      var prev, node, b, i := GetRef(key);
      FoundIsEntry(key, node, b, i);
      if node != null {
        SetOld(node, value, b, i);
        ok := true;
      } else {
        ok := SetNew(key, value, nodeMemory, growMemory);
      }
      if ok && value != "" && value[|value| - 1] == '\0' && '\0' !in value[..|value| - 1] {
        assert value[..|value| - 1] + "\0" == value == M[key][..|value|];
        CStringOf(value[..|value| - 1], M[key]);
      }
    }

    /** map_set_ on a key that is there. */
    method SetOld(node: Node, value: string, ghost b: nat, ghost i: nat)
      requires Valid() && b < |chains| && i < |chains[b]| && chains[b][i] == node && |value| <= |node.value|
      modifies this`M, node`value
      ensures Valid() && M == old(M)[node.key := Overwrite(old(node.value), value)]
    {
      Replace(node, value, b, i);
    }

    /** map_set_ on a key that is not there. */
    method SetNew(key: string, value: string, nodeMemory: bool, growMemory: bool) returns (ok: bool)
      requires Valid() && key !in M
      modifies this, buckets, nodes
      ensures Valid() && fresh(nodes - old(nodes)) && (buckets == old(buckets) || fresh(buckets))
      ensures ok == (nodeMemory && (growMemory || old(nnodes < nbuckets)))
      ensures !ok || old(nnodes < nbuckets) ==> nbuckets == old(nbuckets)
      ensures ok && old(nnodes >= nbuckets) ==> nbuckets == if old(nbuckets) > 0 then 2 * old(nbuckets) else 1
      ensures ok ==> nnodes == old(nnodes) + 1 && M == old(M)[key := value]
      ensures !ok ==> nnodes == old(nnodes) && M == old(M)
    {
      if !nodeMemory {
        return false;
      }
      var added := new Node(key, value);
      ok := MakeRoom(growMemory);
      if ok {
        Insert(added);
      }
    }

    /** The resizing branch of map_set_. */
    method MakeRoom(memory: bool) returns (ok: bool)
      requires Valid()
      modifies this`buckets, this`nbuckets, this`chains, buckets, nodes`next
      ensures Valid() && ok == (memory || old(nnodes < nbuckets)) && (ok ==> nnodes < nbuckets)
      ensures !memory || old(nnodes < nbuckets) ==> nbuckets == old(nbuckets)
      ensures memory && old(nnodes >= nbuckets) ==> nbuckets == if old(nbuckets) > 0 then 2 * old(nbuckets) else 1
      ensures buckets == old(buckets) || fresh(buckets)
    {
      ok := true;
      if nnodes >= nbuckets {
        if nbuckets > 0 {
          DoublePower(nbuckets);
        } else {
          assert Pow2(0) == 1;
        }
        ok := Resize(if nbuckets > 0 then 2 * nbuckets else 1, memory);
      }
    }

    /** The memcpy of map_set_. */
    method Replace(node: Node, value: string, ghost b: nat, ghost i: nat)
      requires Placed(chains) && StandsFor(chains, nodes, M)
      requires b < |chains| && i < |chains[b]| && chains[b][i] == node && |value| <= |node.value|
      modifies this`M, node`value
      ensures StandsFor(chains, nodes, M) && M == old(M)[node.key := Overwrite(old(node.value), value)]
    {
      ghost var m := M;
      assert Holds(m, node);
      node.value := Overwrite(node.value, value);
      M := M[node.key := node.value];
      forall c, j | 0 <= c < |chains| && 0 <= j < |chains[c]| && chains[c][j] != node
        ensures Holds(m, chains[c][j])
      {
        assert old(Holds(m, chains[c][j]));
      }
      ReplacedStandsFor(chains, nodes, m, b, i);
    }

    /** map_set_ on a key that is not there, once there is a node and room for it. */
    method Insert(node: Node)
      requires Valid() && node !in nodes && node.key !in M && node.hash == Hash(node.key) && nnodes < nbuckets
      modifies this`nodes, this`chains, this`M, this`nnodes, buckets, nodes`next, node`next
      ensures Valid() && nodes == old(nodes) + {node} && nnodes == old(nnodes) + 1
      ensures M == old(M)[node.key := node.value]
    {
      hide HasKey, Holds, Placed, StandsFor;
      ghost var n, before, m, ns := BucketIdx(node.hash, nbuckets), chains, M, nodes;
      NewKey(before, ns, m, node.key, n);
      nodes := nodes + {node};
      AddNode(node);
      nnodes := nnodes + 1;
      M := M[node.key := node.value];
      TotalUpdate(before, n, [node] + before[n]);
      InsertStandsFor(before, ns, m, node);
    }

    /** map_remove_ */
    method Remove(key: string)
      requires Valid()
      modifies this`M, this`chains, this`nodes, this`nnodes, buckets, nodes`next
      ensures Valid() && nodes <= old(nodes)
      ensures M == old(M) - {key} && nnodes == old(nnodes) - if key in old(M) then 1 else 0
    {
      var prev, node, b, i := GetRef(key);
      FoundIsEntry(key, node, b, i);
      if node != null {
        Drop(prev, node, BucketIdx(Hash(key), nbuckets), i);
      }
    }

    /** map_remove_ on a key that is there. */
    method Drop(prev: Node?, node: Node, n: nat, ghost i: nat)
      requires Valid() && n < |chains| && i < |chains[n]| && chains[n][i] == node
      requires prev == if i == 0 then null else chains[n][i - 1]
      modifies this`M, this`chains, this`nodes, this`nnodes, buckets, nodes`next
      ensures Valid() && nodes == old(nodes) - {node}
      ensures M == old(M) - {node.key} && nnodes == old(nnodes) - 1
    {
      ghost var before, ns, m := chains, nodes, M;
      TotalUpdate(before, n, Without(before[n], i));
      Unlink(prev, node, n, i);
      DropIsPlaced(before, ns, n, i);
      DropStandsFor(before, ns, m, n, i);
      nodes := nodes - {node};
      M := M - {node.key};
      nnodes := nnodes - 1;
    }

    /** The link before `node` now leads past it. */
    method Unlink(prev: Node?, node: Node, n: nat, ghost i: nat)
      requires Linked() && n < |chains| && i < |chains[n]| && chains[n][i] == node
      requires prev == if i == 0 then null else chains[n][i - 1]
      modifies this`chains, buckets, nodes`next
      ensures chains == old(chains)[n := Without(old(chains)[n], i)]
      ensures buckets.Length == |chains| && forall b :: 0 <= b < |chains| ==> IsChain(buckets[b], chains[b])
    {
      ghost var c := chains[n];
      assert IsChain(buckets[n], c) && node.next == After(c, i);
      if prev == null {
        buckets[n] := node.next;
      } else {
        prev.next := node.next;
      }
      chains := chains[n := Without(c, i)];
      forall b | 0 <= b < |chains|
        ensures IsChain(buckets[b], chains[b])
      {
        assert old(IsChain(buckets[b], chains[b]));
        if b == n {
          UnlinkedChain(c, i);
          assert forall j {:trigger After(c, j)} ::
            0 <= j < |c| && j != i - 1 ==> c[j].next == old(c[j].next) == After(c, j);
        } else {
          OtherBucket(old(chains), n, i, b);
        }
      }
    }
  }

  function Without(c: seq<Node>, i: nat): (r: seq<Node>)
    requires i < |c|
    ensures |r| == |c| - 1 && forall j :: 0 <= j < |r| ==> r[j] == c[if j < i then j else j + 1]
  {
    c[..i] + c[i + 1..]
  }

  /** Leaving out position `i` shifts the later ones. */
  lemma UnlinkedChain(c: seq<Node>, i: nat)
    requires i < |c| && DistinctKeys(c)
    ensures forall j {:trigger After(Without(c, i), j)} :: 0 <= j < |c| - 1 ==>
      After(Without(c, i), j) == if j == i - 1 then After(c, i) else After(c, if j < i then j else j + 1)
    ensures i > 0 ==> forall j :: 0 <= j < |c| && j != i - 1 ==> c[j] != c[i - 1]
  {
  }

  lemma OtherBucket(chains: seq<seq<Node>>, n: nat, i: nat, b: nat)
    requires Placed(chains) && n < |chains| && i < |chains[n]| && b < |chains| && b != n
    ensures i > 0 ==> forall j :: 0 <= j < |chains[b]| ==> chains[b][j] != chains[n][i - 1]
  {
    forall j | i > 0 && 0 <= j < |chains[b]|
      ensures chains[b][j] != chains[n][i - 1]
    {
      assert InPlace(chains[b][j], b, |chains|) && InPlace(chains[n][i - 1], n, |chains|);
    }
  }

  lemma DropIsPlaced(chains: seq<seq<Node>>, nodes: set<Node>, n: nat, i: nat)
    requires Placed(chains) && Within(chains, nodes) && n < |chains| && i < |chains[n]|
    ensures Placed(chains[n := Without(chains[n], i)])
    ensures Within(chains[n := Without(chains[n], i)], nodes - {chains[n][i]})
  {
    var after := chains[n := Without(chains[n], i)];
    forall b, j | 0 <= b < |after| && 0 <= j < |after[b]|
      ensures InPlace(after[b][j], b, |after|) && after[b][j] in nodes && after[b][j] != chains[n][i]
    {
      var j' := if b == n && j >= i then j + 1 else j;
      assert after[b][j] == chains[b][j'];
      assert InPlace(chains[b][j'], b, |chains|) && InPlace(chains[n][i], n, |chains|);
    }
  }

  lemma DropStandsFor(chains: seq<seq<Node>>, nodes: set<Node>, m: map<string, string>, n: nat, i: nat)
    requires Placed(chains) && StandsFor(chains, nodes, m) && n < |chains| && i < |chains[n]|
    ensures StandsFor(chains[n := Without(chains[n], i)], nodes - {chains[n][i]}, m - {chains[n][i].key})
  {
    var after := chains[n := Without(chains[n], i)];
    DropIsPlaced(chains, nodes, n, i);
    forall b, j | 0 <= b < |after| && 0 <= j < |after[b]|
      ensures Holds(m - {chains[n][i].key}, after[b][j])
    {
      var j' := if b == n && j >= i then j + 1 else j;
      assert after[b][j] == chains[b][j'] && Holds(m, chains[b][j']);
      if chains[b][j'].key == chains[n][i].key {
        OneNode(chains, b, j', n, i);
      }
    }
    forall k | k in m && k != chains[n][i].key
      ensures Somewhere(after, k)
    {
      assert Somewhere(chains, k);
      var c, j :| 0 <= c < |chains| && 0 <= j < |chains[c]| && chains[c][j].key == k;
      assert after[c][if c == n && j > i then j - 1 else j].key == k;
    }
  }

  /** A node whose key is not in its bucket is in no bucket. */
  lemma NotThere(chains: seq<seq<Node>>, node: Node)
    requires |chains| > 0 && Placed(chains) && !HasKey(chains[BucketIdx(node.hash, |chains|)], node.key)
    ensures forall b :: 0 <= b < |chains| ==> node !in chains[b]
  {
    forall b, i | 0 <= b < |chains| && 0 <= i < |chains[b]|
      ensures chains[b][i] != node
    {
      assert InPlace(chains[b][i], b, |chains|);
    }
  }

  lemma AddedIsPlaced(chains: seq<seq<Node>>, node: Node)
    requires |chains| > 0 && Placed(chains) && node.hash == Hash(node.key)
    requires !HasKey(chains[BucketIdx(node.hash, |chains|)], node.key)
    ensures var b := BucketIdx(node.hash, |chains|); Placed(chains[b := [node] + chains[b]])
  {
    var n := BucketIdx(node.hash, |chains|);
    var after := chains[n := [node] + chains[n]];
    forall b, i | 0 <= b < |after| && 0 <= i < |after[b]|
      ensures InPlace(after[b][i], b, |after|)
    {
      if b != n {
        assert InPlace(chains[b][i], b, |chains|);
      } else if i > 0 {
        assert InPlace(chains[b][i - 1], b, |chains|);
      }
    }
  }

  /** A key is in one node only. */
  lemma OneNode(chains: seq<seq<Node>>, b: nat, i: nat, c: nat, j: nat)
    requires Placed(chains) && b < |chains| && c < |chains| && i < |chains[b]| && j < |chains[c]|
    requires chains[b][i].key == chains[c][j].key
    ensures b == c && i == j
  {
    assert InPlace(chains[b][i], b, |chains|) && InPlace(chains[c][j], c, |chains|);
  }

  lemma ReplacedStandsFor(chains: seq<seq<Node>>, nodes: set<Node>, m: map<string, string>, b: nat, i: nat)
    requires Placed(chains) && Within(chains, nodes) && b < |chains| && i < |chains[b]| && chains[b][i].key in m
    requires forall c, j ::
      0 <= c < |chains| && 0 <= j < |chains[c]| && chains[c][j] != chains[b][i] ==> Holds(m, chains[c][j])
    requires forall k <- m :: Somewhere(chains, k)
    ensures StandsFor(chains, nodes, m[chains[b][i].key := chains[b][i].value])
  {
    var m' := m[chains[b][i].key := chains[b][i].value];
    forall c, j | 0 <= c < |chains| && 0 <= j < |chains[c]|
      ensures Holds(m', chains[c][j])
    {
      if chains[c][j].key == chains[b][i].key {
        OneNode(chains, b, i, c, j);
      }
    }
  }

  lemma NewKey(chains: seq<seq<Node>>, nodes: set<Node>, m: map<string, string>, key: string, b: nat)
    requires StandsFor(chains, nodes, m) && key !in m && b < |chains|
    ensures !HasKey(chains[b], key)
  {
    assert forall i :: 0 <= i < |chains[b]| ==> Holds(m, chains[b][i]);
  }

  lemma InsertStandsFor(chains: seq<seq<Node>>, nodes: set<Node>, m: map<string, string>, node: Node)
    requires |chains| > 0 && StandsFor(chains, nodes, m) && node.key !in m && node.hash == Hash(node.key)
    ensures var b := BucketIdx(node.hash, |chains|);
      StandsFor(chains[b := [node] + chains[b]], nodes + {node}, m[node.key := node.value])
  {
    var b := BucketIdx(node.hash, |chains|);
    var after := chains[b := [node] + chains[b]];
    forall c, i | 0 <= c < |after| && 0 <= i < |after[c]|
      ensures after[c][i] in nodes + {node} && Holds(m[node.key := node.value], after[c][i])
    {
      if c != b {
        assert Holds(m, chains[c][i]);
      } else if i > 0 {
        assert Holds(m, chains[c][i - 1]);
      }
    }
    forall k | k in m[node.key := node.value]
      ensures Somewhere(after, k)
    {
      if k == node.key {
        assert after[b][0].key == k;
      } else {
        assert Somewhere(chains, k);
        var c, i :| 0 <= c < |chains| && 0 <= i < |chains[c]| && chains[c][i].key == k;
        assert after[c][if c == b then i + 1 else i].key == k;
      }
    }
  }

  /** What refilling `n` buckets from the drained chain keeps. */
  lemma ResizeKeeps(chains: seq<seq<Node>>, n: nat)
    requires n > 0 && Placed(chains)
    ensures var l := Drained(chains, 0); DistinctKeys(l) && Total(Refilled(n, l)) == Total(chains)
    ensures forall x <- Drained(chains, 0) ::
      x.hash == Hash(x.key) && |chains| > 0 && x in chains[BucketIdx(x.hash, |chains|)]
    ensures forall b, x :: 0 <= b < n && x in Refilled(n, Drained(chains, 0))[b] ==> x in Drained(chains, 0)
  {
    DrainedHolds(chains, 0);
    DrainedLength(chains, 0);
    RefilledTotal(n, Drained(chains, 0));
    RefilledHolds(n, Drained(chains, 0));
  }

  /** The nodes of bucket `i` are neither in an earlier bucket nor drained from a later one. */
  lemma Apart(chains: seq<seq<Node>>, i: nat)
    requires i < |chains| && Placed(chains)
    ensures forall n <- chains[i] :: n !in Drained(chains, i + 1)
    ensures forall b, j :: 0 <= b < i && 0 <= j < |chains[b]| ==> chains[b][j] !in chains[i]
  {
    DrainedHolds(chains, i + 1);
    forall b, j | 0 <= b <= i && 0 <= j < |chains[b]|
      ensures BucketIdx(chains[b][j].hash, |chains|) == b
    {
      assert InPlace(chains[b][j], b, |chains|);
    }
  }

  lemma RefillStep(n: nat, l: seq<Node>, p: nat)
    requires n > 0 && p < |l| && DistinctKeys(l) && forall x <- l :: x.hash == Hash(x.key)
    ensures !HasKey(Refilled(n, l[..p])[BucketIdx(l[p].hash, n)], l[p].key)
    ensures var r, b := Refilled(n, l[..p]), BucketIdx(l[p].hash, n); Refilled(n, l[..p + 1]) == r[b := [l[p]] + r[b]]
    ensures forall i :: p < i < |l| ==> l[i] != l[p]
  {
    RefilledHolds(n, l[..p]);
    assert l[..p + 1][..p] == l[..p];
    var c: seq<Node> := Refilled(n, l[..p])[BucketIdx(l[p].hash, n)];
    forall i | 0 <= i < |c|
      ensures c[i].key != l[p].key
    {
      assert c[i] in l[..p];
    }
  }

  // ----- iteration -----

  /** All nodes, bucket by bucket. */
  function Flat(chains: seq<seq<Node>>): (f: seq<Node>)
    ensures |f| == Total(chains)
  {
    if chains == [] then [] else Flat(chains[..|chains| - 1]) + chains[|chains| - 1]
  }

  lemma {:induction false} FlatAt(chains: seq<seq<Node>>, b: nat, i: nat)
    requires b < |chains| && i < |chains[b]|
    ensures Total(chains[..b]) + i < Total(chains) && Flat(chains)[Total(chains[..b]) + i] == chains[b][i]
  {
    var init := chains[..|chains| - 1];
    if b < |init| {
      FlatAt(init, b, i);
      assert init[..b] == chains[..b];
    } else {
      assert init == chains[..b];
    }
  }

  lemma {:induction false} FlatFrom(chains: seq<seq<Node>>, p: nat) returns (b: nat, i: nat)
    requires p < Total(chains)
    ensures b < |chains| && i < |chains[b]| && p == Total(chains[..b]) + i && Flat(chains)[p] == chains[b][i]
  {
    var init := chains[..|chains| - 1];
    if p < Total(init) {
      b, i := FlatFrom(init, p);
      assert init[..b] == chains[..b];
    } else {
      b, i := |init|, p - Total(init);
      assert init == chains[..b];
    }
  }

  lemma TotalNext(chains: seq<seq<Node>>, b: nat)
    requires b < |chains|
    ensures Total(chains[..b + 1]) == Total(chains[..b]) + |chains[b]|
  {
    assert chains[..b + 1][..b] == chains[..b];
  }

  function KeysOf(f: seq<Node>): (s: set<string>)
    ensures forall k :: k in s <==> exists i :: 0 <= i < |f| && f[i].key == k
  {
    if f == [] then {} else KeysOf(f[..|f| - 1]) + {f[|f| - 1].key}
  }

  lemma {:induction false} CountKeys(f: seq<Node>)
    requires DistinctKeys(f)
    ensures |KeysOf(f)| == |f|
  {
    if f != [] {
      CountKeys(f[..|f| - 1]);
    }
  }

  /** The listing of all nodes has every key of the map once, so `nnodes` is the number of keys. */
  lemma FlatIsMap(chains: seq<seq<Node>>, nodes: set<Node>, m: map<string, string>)
    requires Placed(chains) && StandsFor(chains, nodes, m)
    ensures DistinctKeys(Flat(chains)) && KeysOf(Flat(chains)) == m.Keys && |m| == Total(chains)
  {
    var f := Flat(chains);
    forall p, q | 0 <= p < q < |f|
      ensures f[p].key != f[q].key
    {
      var b, i := FlatFrom(chains, p);
      var c, j := FlatFrom(chains, q);
      if f[p].key == f[q].key {
        OneNode(chains, b, i, c, j);
      }
    }
    forall k
      ensures k in KeysOf(f) <==> k in m
    {
      if k in KeysOf(f) {
        var p :| 0 <= p < |f| && f[p].key == k;
        var b, i := FlatFrom(chains, p);
        assert Holds(m, chains[b][i]);
      } else if k in m {
        assert Somewhere(chains, k);
        var b, i :| 0 <= b < |chains| && 0 <= i < |chains[b]| && chains[b][i].key == k;
        FlatAt(chains, b, i);
      }
    }
    CountKeys(f);
  }

  /** ++ on a 32-bit unsigned number. */
  function Increment(x: nat): nat {
    if x == 0xFFFF_FFFF then 0 else x + 1
  }

  /** map_iter_t */
  class Iter {
    var bucketidx: nat
    var node: Node?
    ghost var i: nat

    /** map_iter_ */
    constructor ()
      ensures forall m: Map :: At(m, 0)
    {
      bucketidx, node := 0xFFFF_FFFF, null;
    }

    /** `p` keys have been returned so far. */
    ghost predicate At(m: Map, p: nat)
      reads this, m
    {
      if node == null then bucketidx == 0xFFFF_FFFF && p == 0
      else
        && bucketidx < |m.chains| && i < |m.chains[bucketidx]|
        && node == m.chains[bucketidx][i] && p == Total(m.chains[..bucketidx]) + i + 1
    }

    /** map_next_: the next key of the listing, or nothing after the last one. */
    method Next(m: Map, ghost p: nat) returns (found: bool, key: string)
      requires m.Valid() && m.nbuckets < 0x1_0000_0000 && At(m, p)
      modifies this
      ensures found <==> p < m.nnodes
      ensures found ==> key == Flat(m.chains)[p].key && At(m, p + 1)
    {
      Advance(m, p);
      if node == null {
        return false, "";
      }
      FlatAt(m.chains, bucketidx, i);
      found, key := true, node.key;
    }

    /** To the next node of the same bucket, or else to the first one of a later bucket. */
    method Advance(m: Map, ghost p: nat)
      requires m.Linked() && m.nbuckets < 0x1_0000_0000 && At(m, p)
      modifies this
      ensures node == null ==> p == Total(m.chains)
      ensures node != null ==> At(m, p + 1)
    {
      if node != null {
        ghost var c := m.chains[bucketidx];
        assert IsChain(m.buckets[bucketidx], c) && node.next == After(c, i);
        TotalNext(m.chains, bucketidx);
        node := node.next;
        i := i + 1;
      }
      if node == null {
        NextBucket(m, p);
        assert m.chains[..m.nbuckets] == m.chains;
      }
    }

    /** The do-loop of map_next_: the first node of the next bucket that has any. */
    method NextBucket(m: Map, ghost p: nat)
      requires m.Linked() && m.nbuckets < 0x1_0000_0000 && node == null && bucketidx <= 0xFFFF_FFFF
      requires Increment(bucketidx) <= m.nbuckets && p == Total(m.chains[..Increment(bucketidx)])
      modifies this
      ensures node == null ==> p == Total(m.chains[..m.nbuckets])
      ensures node != null ==> At(m, p + 1)
    {
      while node == null
        invariant bucketidx <= 0xFFFF_FFFF
        invariant node == null ==> Increment(bucketidx) <= m.nbuckets && p == Total(m.chains[..Increment(bucketidx)])
        invariant node != null ==> At(m, p + 1)
        decreases if node == null then m.nbuckets - Increment(bucketidx) + 1 else 0
      {
        bucketidx := Increment(bucketidx);
        if bucketidx >= m.nbuckets {
          return;
        }
        assert IsChain(m.buckets[bucketidx], m.chains[bucketidx]);
        TotalNext(m.chains, bucketidx);
        node := m.buckets[bucketidx];
        i := 0;
      }
    }
  }

  /** Going through an unchanged map with an iterator: every key comes exactly once. */
  method AllKeys(m: Map) returns (keys: seq<string>)
    requires m.Valid() && m.nbuckets < 0x1_0000_0000
    ensures |keys| == m.nnodes
    ensures forall p, q :: 0 <= p < q < |keys| ==> keys[p] != keys[q]
    ensures forall k :: k in keys <==> k in m.M
  {
    hide Map.Valid;
    FlatLength(m);
    keys := [];
    var iter := new Iter();
    var found, key := iter.Next(m, 0);
    ghost var f := Flat(m.chains);
    while found
      invariant found <==> |keys| < m.nnodes
      invariant found ==> |keys| < |f| && key == f[|keys|].key && iter.At(m, |keys| + 1)
      invariant |keys| <= |f| && forall p :: 0 <= p < |keys| ==> keys[p] == f[p].key
      decreases m.nnodes - |keys|
    {
      keys := keys + [key];
      found, key := iter.Next(m, |keys|);
    }
    AllKeysAre(m, keys);
  }

  lemma FlatLength(m: Map)
    requires m.Valid()
    ensures |Flat(m.chains)| == m.nnodes
  {
  }

  lemma AllKeysAre(m: Map, keys: seq<string>)
    requires m.Valid() && |keys| >= m.nnodes && |keys| <= |Flat(m.chains)|
    requires forall p :: 0 <= p < |keys| ==> keys[p] == Flat(m.chains)[p].key
    ensures |keys| == m.nnodes
    ensures forall p, q :: 0 <= p < q < |keys| ==> keys[p] != keys[q]
    ensures forall k :: k in keys <==> k in m.M
  {
    FlatIsMap(m.chains, m.nodes, m.M);
    assert |Flat(m.chains)| == m.nnodes;
    forall k
      ensures k in keys <==> k in m.M
    {
      assert k in m.M <==> k in KeysOf(Flat(m.chains));
      if k in KeysOf(Flat(m.chains)) {
        var p :| 0 <= p < |Flat(m.chains)| && Flat(m.chains)[p].key == k;
        assert keys[p] == k;
      }
    }
  }
}
