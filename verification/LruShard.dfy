/** The cache shard: a recency list, a hash index and an expiry multimap that refer to each other,
    and a running payload counter. A reference to a node or to an expiry entry plays the part of
    an iterator. */
module LruShards {
  import opened Basics
  import opened ShardModel

  class Node {
    const key: Bytes
    var value: Bytes
    var expireAt: Option<int>
    var expireIt: ExpireEntry?

    constructor (key: Bytes, value: Bytes, expireAt: Option<int>)
      ensures this.key == key && this.value == value && this.expireAt == expireAt && expireIt == null
    {
      this.key, this.value, this.expireAt, expireIt := key, value, expireAt, null;
    }

    ghost function AsEntry(): Entry
      reads this`value, this`expireAt
    {
      Entry(key, value, expireAt)
    }
  }

  /** An element of the expiry multimap. */
  class ExpireEntry {
    const at: int
    const node: Node

    constructor (at: int, node: Node)
      ensures this.at == at && this.node == node
    {
      this.at, this.node := at, node;
    }
  }

  datatype RemovalReason = Delete | Eviction | Expired

  // ---------------------------------------------------------------------------------------------
  // The containers
  // ---------------------------------------------------------------------------------------------

  ghost predicate NoDuplicates<T>(s: seq<T>) {
    s != [] ==> s[0] !in s[1..] && NoDuplicates(s[1..])
  }

  /** list::erase and multimap::erase: takes one element out of a sequence without duplicates. */
  function Erase<T(==)>(s: seq<T>, x: T): (r: seq<T>)
    ensures forall y <- r :: y in s && y != x
    ensures forall y <- s :: y == x || y in r
    ensures NoDuplicates(s) ==> NoDuplicates(r)
    ensures |r| <= |s| && (x in s ==> |r| < |s|)
  {
    if s == [] then [] else if s[0] == x then Erase(s[1..], x) else [s[0]] + Erase(s[1..], x)
  }

  ghost predicate SortedByTime(s: seq<ExpireEntry>) {
    s != [] ==> (forall e <- s[1..] :: s[0].at <= e.at) && SortedByTime(s[1..])
  }

  /** multimap::emplace: after every entry with the same time. */
  function Emplace(s: seq<ExpireEntry>, e: ExpireEntry): (r: seq<ExpireEntry>)
    ensures e in r && (forall x <- s :: x in r) && forall x <- r :: x in s || x == e
    ensures NoDuplicates(s) && e !in s ==> NoDuplicates(r)
    ensures SortedByTime(s) ==> SortedByTime(r)
  {
    if s == [] || e.at < s[0].at then [e] + s else [s[0]] + Emplace(s[1..], e)
  }

  lemma {:induction false} EraseKeepsOrder(s: seq<ExpireEntry>, x: ExpireEntry)
    requires SortedByTime(s)
    ensures SortedByTime(Erase(s, x))
  {
    if s != [] {
      EraseKeepsOrder(s[1..], x);
    }
  }

  function WithoutEntry(s: seq<ExpireEntry>, entry: ExpireEntry?): (r: seq<ExpireEntry>) {
    if entry == null then s else Erase<ExpireEntry>(s, entry)
  }

  lemma {:induction false} EraseLast(s: seq<Node>)
    requires s != [] && NoDuplicates(s)
    ensures Erase(s, s[|s| - 1]) == s[..|s| - 1]
  {
    if |s| > 1 {
      EraseLast(s[1..]);
      assert s[1..][|s| - 2] == s[|s| - 1];
    }
  }

  // ---------------------------------------------------------------------------------------------
  // How the containers refer to each other
  // ---------------------------------------------------------------------------------------------

  /** The index is exactly the key index of the list. */
  ghost predicate Indexed(index: map<Bytes, Node>, nodes: seq<Node>) {
    && NoDuplicates(nodes)
    && (forall n <- nodes :: n.key in index && index[n.key] == n)
    && (forall k <- index :: index[k] in nodes && index[k].key == k)
  }

  /** The node and its expiry entry refer to each other, or it has neither deadline nor entry. */
  ghost predicate Scheduled(expireMap: seq<ExpireEntry>, n: Node)
    reads n`expireAt, n`expireIt
  {
    if n.expireAt.None? then n.expireIt == null
    else n.expireIt != null && n.expireIt in expireMap && n.expireIt.node == n
  }

  /** Expiry entries are in bijection with the nodes that have a deadline, except that the node
      `loose`, if any, may have lost its entry. */
  ghost predicate Expiring(expireMap: seq<ExpireEntry>, nodes: seq<Node>, loose: Node?)
    reads nodes`expireAt, nodes`expireIt
  {
    && NoDuplicates(expireMap) && SortedByTime(expireMap)
    && (forall e <- expireMap :: e.node in nodes && e.node.expireIt == e && e.node.expireAt == Some(e.at))
    && (forall n <- nodes :: Scheduled(expireMap, n) || (n == loose && n.expireIt == null))
  }

  ghost predicate Owned(nodes: seq<Node>, repr: set<object>) {
    forall n <- nodes :: n in repr
  }

  ghost function Entries(nodes: seq<Node>): (es: seq<Entry>)
    reads nodes`value, nodes`expireAt
  {
    if nodes == [] then [] else [nodes[0].AsEntry()] + Entries(nodes[1..])
  }

  lemma {:induction false} EntriesErase(nodes: seq<Node>, n: Node)
    requires forall m <- nodes :: m.key == n.key ==> m == n
    ensures Entries(Erase(nodes, n)) == Without(Entries(nodes), n.key)
  {
    if nodes != [] {
      EntriesErase(nodes[1..], n);
    }
  }

  lemma {:induction false} EntriesFind(nodes: seq<Node>, n: Node)
    requires n in nodes && forall m <- nodes :: m.key == n.key ==> m == n
    ensures Find(Entries(nodes), n.key) == Some(n.AsEntry())
  {
    if nodes[0] != n {
      EntriesFind(nodes[1..], n);
    }
  }

  lemma {:induction false} EntriesKeys(nodes: seq<Node>)
    ensures Keys(Entries(nodes)) == set n <- nodes :: n.key
  {
    if nodes != [] {
      EntriesKeys(nodes[1..]);
      assert nodes == [nodes[0]] + nodes[1..];
      assert Keys(Entries(nodes)) == {nodes[0].key} + Keys(Entries(nodes[1..]));
    }
  }

  lemma {:induction false} EntriesDistinct(nodes: seq<Node>)
    requires NoDuplicates(nodes) && forall m <- nodes, n <- nodes :: m.key == n.key ==> m == n
    ensures Distinct(Entries(nodes))
  {
    if nodes != [] {
      EntriesDistinct(nodes[1..]);
      EntriesKeys(nodes[1..]);
    }
  }

  /** What the index knows about a resident node. */
  lemma ResidentNode(index: map<Bytes, Node>, nodes: seq<Node>, n: Node)
    requires Indexed(index, nodes) && n in nodes
    ensures Distinct(Entries(nodes)) && Find(Entries(nodes), n.key) == Some(n.AsEntry())
    ensures Entries(Erase(nodes, n)) == Without(Entries(nodes), n.key)
    ensures Payload(Entries(nodes)) == Payload(Entries(Erase(nodes, n))) + |n.key| + |n.value|
    ensures Indexed(index - {n.key}, Erase(nodes, n))
    ensures Indexed(index, [n] + Erase(nodes, n))
  {
    OneOfAKey(index, nodes);
    ErasedIndex(index, nodes, n);
    hide Entries, Indexed, Without, Distinct, NoDuplicates, Payload, Find;
    EntriesDistinct(nodes);
    EntriesFind(nodes, n);
    EntriesErase(nodes, n);
    WithoutPresent(Entries(nodes), n.key);
  }

  lemma OneOfAKey(index: map<Bytes, Node>, nodes: seq<Node>)
    requires Indexed(index, nodes)
    ensures forall m <- nodes, n <- nodes :: m.key == n.key ==> m == n
    ensures NoDuplicates(nodes)
  {
  }

  lemma ErasedIndex(index: map<Bytes, Node>, nodes: seq<Node>, n: Node)
    requires Indexed(index, nodes) && n in nodes
    ensures Indexed(index - {n.key}, Erase(nodes, n))
    ensures Indexed(index, [n] + Erase(nodes, n))
  {
  }

  lemma AbsentKey(index: map<Bytes, Node>, nodes: seq<Node>, key: Bytes)
    requires Indexed(index, nodes) && key !in index
    ensures key !in Keys(Entries(nodes)) && Without(Entries(nodes), key) == Entries(nodes)
    ensures Distinct(Entries(nodes))
  {
    EntriesKeys(nodes);
    EntriesDistinct(nodes);
    WithoutAbsent(Entries(nodes), key);
  }

  lemma {:induction false} EntriesMember(nodes: seq<Node>, e: Entry)
    ensures e in Entries(nodes) <==> exists n <- nodes :: n.AsEntry() == e
  {
    if nodes != [] {
      EntriesMember(nodes[1..], e);
      assert nodes == [nodes[0]] + nodes[1..];
    }
  }

  lemma {:induction false} EntriesButLast(nodes: seq<Node>)
    requires nodes != []
    ensures |Entries(nodes)| == |nodes|
    ensures Entries(nodes[..|nodes| - 1]) == Entries(nodes)[..|nodes| - 1]
  {
    if |nodes| > 1 {
      assert nodes[..|nodes| - 1][1..] == nodes[1..][..|nodes| - 2];
      EntriesButLast(nodes[1..]);
    }
  }

  lemma {:induction false} EntriesAppend(a: seq<Node>, b: seq<Node>)
    ensures Entries(a + b) == Entries(a) + Entries(b)
  {
    if a == [] {
      assert a + b == b;
    } else {
      assert (a + b)[1..] == a[1..] + b;
      EntriesAppend(a[1..], b);
    }
  }

  /** The entries before and after a node, which keep their meaning when the node changes. */
  lemma EntriesAround(index: map<Bytes, Node>, nodes: seq<Node>, i: nat)
    requires Indexed(index, nodes) && i < |nodes|
    ensures Entries(nodes) == Entries(nodes[..i]) + [nodes[i].AsEntry()] + Entries(nodes[i + 1..])
    ensures nodes[i] !in nodes[..i] && nodes[i] !in nodes[i + 1..]
    ensures nodes[i].key !in Keys(Entries(nodes[..i])) && nodes[i].key !in Keys(Entries(nodes[i + 1..]))
  {
    NodeOnce(nodes, i);
    EntriesKeys(nodes[..i]);
    EntriesKeys(nodes[i + 1..]);
    EntriesSplit(nodes, i);
  }

  lemma EntriesSplit(nodes: seq<Node>, i: nat)
    requires i < |nodes|
    ensures Entries(nodes) == Entries(nodes[..i]) + [nodes[i].AsEntry()] + Entries(nodes[i + 1..])
  {
    hide *;
    var rest := [nodes[i]] + nodes[i + 1..];
    SplitAt(nodes, i);
    EntriesAppend(nodes[..i], rest);
    EntriesCons(nodes[i], nodes[i + 1..]);
    Associates(Entries(nodes[..i]), [nodes[i].AsEntry()], Entries(nodes[i + 1..]));
  }

  lemma EntriesCons(n: Node, nodes: seq<Node>)
    ensures Entries([n] + nodes) == [n.AsEntry()] + Entries(nodes)
  {
  }

  lemma {:induction false} NodeOnce(nodes: seq<Node>, i: nat)
    requires NoDuplicates(nodes) && i < |nodes|
    ensures nodes[i] !in nodes[..i] && nodes[i] !in nodes[i + 1..]
  {
    if i > 0 {
      NodeOnce(nodes[1..], i - 1);
      assert nodes[..i] == [nodes[0]] + nodes[1..][..i - 1];
    }
  }

  /** Without a node and its entry, the others still refer to each other. */
  lemma NodeOut(expireMap: seq<ExpireEntry>, nodes: seq<Node>, n: Node)
    requires n in nodes && Expiring(expireMap, nodes, n)
    ensures Expiring(WithoutEntry(expireMap, n.expireIt), Erase(nodes, n), null)
  {
    if n.expireIt != null {
      var entry: ExpireEntry := n.expireIt;
      EraseKeepsOrder(expireMap, entry);
    }
    hide NoDuplicates, SortedByTime;
  }

  /** An unscheduled node comes back as the loose one. */
  lemma NodeBack(expireMap: seq<ExpireEntry>, nodes: seq<Node>, n: Node)
    requires n in nodes && Expiring(expireMap, Erase(nodes, n), null) && n.expireIt == null
    ensures Expiring(expireMap, nodes, n)
    ensures n.expireAt.None? ==> Expiring(expireMap, nodes, null)
  {
  }

  /** A scheduled node comes back with its new entry. */
  lemma NodeScheduled(expireMap: seq<ExpireEntry>, nodes: seq<Node>, n: Node, entry: ExpireEntry)
    requires n in nodes && Expiring(expireMap, Erase(nodes, n), null) && entry !in expireMap
    requires n.expireIt == entry && n.expireAt == Some(entry.at) && entry.node == n
    ensures Expiring(Emplace(expireMap, entry), nodes, null)
  {
  }

  lemma FirstIsLeast(expireMap: seq<ExpireEntry>, e: ExpireEntry)
    requires SortedByTime(expireMap) && e in expireMap
    ensures expireMap[0].at <= e.at
  {
  }

  lemma NullIsLoose(expireMap: seq<ExpireEntry>, nodes: seq<Node>, n: Node)
    requires Expiring(expireMap, nodes, null)
    ensures Expiring(expireMap, nodes, n)
  {
  }

  /** The first entry has the earliest deadline of all nodes. */
  lemma FirstIsEarliest(expireMap: seq<ExpireEntry>, nodes: seq<Node>)
    requires Expiring(expireMap, nodes, null)
    ensures NextDeadline(Entries(nodes)) == if expireMap == [] then None else Some(expireMap[0].at)
  {
    hide Entries, NextDeadline, SortedByTime, NoDuplicates;
    var next := NextDeadline(Entries(nodes));
    if next.Some? {
      var e :| e in Entries(nodes) && e.expireAt == next;
      EntriesMember(nodes, e);
      var n :| n in nodes && n.AsEntry() == e;
      FirstIsLeast(expireMap, n.expireIt);
    }
    if expireMap != [] {
      EntriesMember(nodes, expireMap[0].node.AsEntry());
    }
  }

  /** What the first expiry entry refers to. */
  lemma FirstDue(index: map<Bytes, Node>, expireMap: seq<ExpireEntry>, nodes: seq<Node>)
    requires Indexed(index, nodes) && Expiring(expireMap, nodes, null) && expireMap != []
    ensures var first := expireMap[0];
            && first.node in nodes && first.node.expireIt == first && first.node.expireAt == Some(first.at)
            && first.node.key in index && index[first.node.key] == first.node
            && |Erase(expireMap, first)| < |expireMap|
            && Expiring(expireMap, nodes, first.node)
  {
  }

  /** If the first entry is not due, no node is. */
  lemma NothingDue(expireMap: seq<ExpireEntry>, nodes: seq<Node>, now: int)
    requires Expiring(expireMap, nodes, null) && (expireMap == [] || expireMap[0].at > now)
    ensures Alive(Entries(nodes), now) == Entries(nodes)
  {
    FirstIsEarliest(expireMap, nodes);
    AllAlive(Entries(nodes), now);
  }

  /** Moving a node to the front of the list changes no cross reference. */
  lemma SplicedToFront(expireMap: seq<ExpireEntry>, nodes: seq<Node>, n: Node, loose: Node?)
    requires n in nodes && Expiring(expireMap, nodes, loose)
    ensures Expiring(expireMap, [n] + Erase(nodes, n), loose)
    ensures Entries([n] + Erase(nodes, n)) == [n.AsEntry()] + Entries(Erase(nodes, n))
  {
  }

  lemma LastNode(index: map<Bytes, Node>, nodes: seq<Node>)
    requires Indexed(index, nodes) && nodes != []
    ensures var n := nodes[|nodes| - 1];
            && n.key in index && index[n.key] == n
            && |Entries(nodes)| == |nodes| && |Erase(nodes, n)| == |nodes| - 1
            && Without(Entries(nodes), n.key) == Entries(nodes)[..|nodes| - 1]
  {
    EraseLast(nodes);
    EntriesButLast(nodes);
    EntriesErase(nodes, nodes[|nodes| - 1]);
  }

  lemma NodePushed(index: map<Bytes, Node>, nodes: seq<Node>, expireMap: seq<ExpireEntry>, n: Node)
    requires Indexed(index, nodes) && Expiring(expireMap, nodes, null) && n.key !in index
    requires n.expireIt == null
    ensures Indexed(index[n.key := n], [n] + nodes)
    ensures Expiring(expireMap, [n] + nodes, n)
    ensures n.expireAt.None? ==> Expiring(expireMap, [n] + nodes, null)
    ensures Entries([n] + nodes) == [n.AsEntry()] + Entries(nodes)
    ensures Payload(Entries([n] + nodes)) == |n.key| + |n.value| + Payload(Entries(nodes))
  {
  }

  lemma OwnedErase(nodes: seq<Node>, n: Node, repr: set<object>)
    requires Owned(nodes, repr) && n in nodes
    ensures Owned(Erase(nodes, n), repr) && Owned([n] + Erase(nodes, n), repr)
  {
  }

  /** duration_cast to seconds: truncates toward zero. */
  function TruncatedSeconds(ticks: int): int {
    if ticks >= 0 then ticks / TICKS_PER_SECOND else -((-ticks) / TICKS_PER_SECOND)
  }

  /** The index has as many keys as the list has nodes. */
  lemma {:induction false} IndexSize(index: map<Bytes, Node>, nodes: seq<Node>)
    requires Indexed(index, nodes)
    ensures |index| == |nodes| == |Entries(nodes)|
    decreases |nodes|
  {
    if nodes == [] {
      assert index == map[];
    } else {
      var n := nodes[0];
      var rest := index - {n.key};
      assert nodes == [n] + nodes[1..];
      forall k | k in rest ensures rest[k] in nodes[1..] {
        assert index[k] in nodes;
      }
      IndexSize(rest, nodes[1..]);
      assert index.Keys == rest.Keys + {n.key};
      assert |index.Keys| == |rest.Keys| + 1;
    }
  }

  // ---------------------------------------------------------------------------------------------
  // The shard
  // ---------------------------------------------------------------------------------------------

  class LruShard {
    var index: map<Bytes, Node>
    var lruList: seq<Node>
    var expireMap: seq<ExpireEntry>
    const maxMemoryBytes: nat
    var usedPayloadBytes: nat
    var evictions: nat
    var expired: nat
    ghost var Repr: set<object>

    /** Everything but the byte budget. */
    ghost predicate Linked(loose: Node?)
      reads this, Repr
    {
      && this in Repr && Owned(lruList, Repr)
      && Indexed(index, lruList)
      && Expiring(expireMap, lruList, loose)
      && usedPayloadBytes == Payload(Entries(lruList))
    }

    ghost predicate Valid()
      reads this, Repr
      ensures Valid() ==> this in Repr
    {
      Linked(null) && usedPayloadBytes <= maxMemoryBytes
    }

    ghost function Abs(): Shard
      reads this, Repr
      requires Owned(lruList, Repr)
    {
      Shard(Entries(lruList), maxMemoryBytes, evictions, expired)
    }

    constructor (maxMemoryBytes: nat)
      ensures Valid() && fresh(Repr)
      ensures Abs() == Empty(maxMemoryBytes)
    {
      index, lruList, expireMap := map[], [], [];
      this.maxMemoryBytes := maxMemoryBytes;
      usedPayloadBytes, evictions, expired := 0, 0, 0;
      Repr := {this};
    }

    /** Takes a node's entry out of the expiry multimap, if it has one. */
    method Unschedule(n: Node)
      requires n in lruList && Linked(n)
      modifies this`expireMap, n`expireIt
      ensures Linked(n) && n.expireIt == null
      ensures expireMap == WithoutEntry(old(expireMap), old(n.expireIt))
    {
      hide Indexed, Expiring, Entries, Owned;
      NodeOut(expireMap, lruList, n);
      if n.expireIt != null {
        expireMap := Erase<ExpireEntry>(expireMap, n.expireIt);
        n.expireIt := null;
      }
      NodeBack(expireMap, lruList, n);
    }

    /** Takes an unscheduled node out of the index and the list. */
    method Unlink(n: Node)
      requires n in lruList && Linked(n) && n.expireIt == null
      modifies this`index, this`lruList, this`usedPayloadBytes
      ensures Linked(null) && usedPayloadBytes <= old(usedPayloadBytes)
      ensures lruList == Erase(old(lruList), n)
      ensures Entries(lruList) == Without(old(Entries(lruList)), n.key)
    {
      hide Indexed, Expiring, Entries, Without, Payload, Owned;
      var removedPayloadBytes := |n.key| + |n.value|;
      ResidentNode(index, lruList, n);
      NodeOut(expireMap, lruList, n);
      OwnedErase(lruList, n, Repr);
      index := index - {n.key};
      lruList := Erase(lruList, n);
      if usedPayloadBytes >= removedPayloadBytes {
        usedPayloadBytes := usedPayloadBytes - removedPayloadBytes;
      } else {
        assert false;
      }
    }

    /** `it` is a map iterator; null is the end iterator. */
    method RemoveKey(it: Node?, reason: RemovalReason)
      requires it != null ==> it in lruList
      requires Linked(it)
      modifies this`index, this`lruList, this`expireMap, this`usedPayloadBytes, this`evictions, this`expired
      modifies it
      ensures Linked(null) && usedPayloadBytes <= old(usedPayloadBytes)
      ensures it == null ==> lruList == old(lruList) && expireMap == old(expireMap)
      ensures it == null ==> Entries(lruList) == old(Entries(lruList))
      ensures it != null ==> lruList == Erase<Node>(old(lruList), it)
      ensures it != null ==>
                expireMap == WithoutEntry(old(expireMap), old(it.expireIt))
      ensures it != null ==> Entries(lruList) == Without(old(Entries(lruList)), it.key)
      ensures evictions == old(evictions) + if it != null && reason == Eviction then 1 else 0
      ensures expired == old(expired) + if it != null && reason == Expired then 1 else 0
    {
      hide Indexed, Expiring, Entries, Without, Payload, Owned;
      if it == null {
        return;
      }
      var node: Node := it;
      Unschedule(node);
      Unlink(node);
      if reason == Eviction {
        evictions := evictions + 1;
      } else if reason == Expired {
        expired := expired + 1;
      }
    }

    method Find(key: Bytes) returns (it: Node?)
      requires Linked(null)
      ensures it == if key in index then index[key] else null
      ensures it == null ==> key !in Keys(Entries(lruList)) && Without(Entries(lruList), key) == Entries(lruList)
      ensures it == null ==> key !in index && ShardModel.Find(Entries(lruList), key) == None
      ensures it != null ==> it in lruList && it in Repr && it.key == key
      ensures Linked(it)
      ensures it != null ==> ShardModel.Find(Entries(lruList), key) == Some(it.AsEntry())
    {
      if key in index {
        it := index[key];
        ResidentNode(index, lruList, it);
      } else {
        it := null;
        AbsentKey(index, lruList, key);
      }
    }

    /** list::splice to the front. */
    method Splice(n: Node)
      requires n in lruList && Linked(null)
      modifies this`lruList
      ensures Linked(null) && usedPayloadBytes == old(usedPayloadBytes)
      ensures lruList == [n] + Erase(old(lruList), n)
      ensures Entries(lruList) == [n.AsEntry()] + Entries(Erase(old(lruList), n))
      ensures Entries(lruList) == [n.AsEntry()] + Without(old(Entries(lruList)), n.key)
    {
      hide Indexed, Expiring, Entries, Without, Owned;
      ResidentNode(index, lruList, n);
      SplicedToFront(expireMap, lruList, n, null);
      ghost var rest := Without(Entries(lruList), n.key);
      assert ([n.AsEntry()] + rest)[1..] == rest;
      assert Payload([n.AsEntry()] + rest) == |n.key| + |n.value| + Payload(rest);
      OwnedErase(lruList, n, Repr);
      lruList := [n] + Erase(lruList, n);
    }

    method Get(key: Bytes, now: int) returns (r: Option<Bytes>)
      requires Valid()
      modifies Repr
      ensures Valid() && Repr == old(Repr)
      ensures (Abs(), r) == ShardModel.Get(old(Abs()), key, now)
    {
      hide Indexed, Expiring, Entries, Without, ShardModel.Find;
      var it := Find(key);
      if it == null {
        return None;
      }
      if it.expireAt.Some? && now >= it.expireAt.value {
        RemoveKey(it, Expired);
        return None;
      }
      Splice(it);
      return Some(it.value);
    }

    method Del(key: Bytes) returns (existed: bool)
      requires Valid()
      modifies Repr
      ensures Valid() && Repr == old(Repr)
      ensures (Abs(), existed) == ShardModel.Del(old(Abs()), key)
    {
      hide Indexed, Expiring, Entries, Without;
      var it := Find(key);
      existed := it != null;
      RemoveKey(it, Delete);
    }

    method Ttl(key: Bytes, now: int, later: int) returns (seconds: int)
      requires Valid()
      modifies Repr
      ensures Valid() && Repr == old(Repr)
      ensures (Abs(), seconds) == ShardModel.Ttl(old(Abs()), key, now, later)
    {
      hide Indexed, Expiring, Entries, Without, ShardModel.Find;
      var it := Find(key);
      if it == null {
        return -2;
      }
      if it.expireAt.Some? && now >= it.expireAt.value {
        RemoveKey(it, Expired);
        return -2;
      }
      if it.expireAt.None? {
        return -1;
      }
      var remaining := it.expireAt.value - later;
      var whole := TruncatedSeconds(remaining);
      return if whole > 0 then whole else 0;
    }

    method GetStats() returns (stats: Stats)
      requires Valid()
      ensures stats == StatsOf(Abs())
    {
      IndexSize(index, lruList);
      stats := Stats(usedPayloadBytes, |index|, evictions, expired, maxMemoryBytes);
    }

    /** Overwrites a node's value and adjusts the payload counter by the difference. */
    method AssignValue(n: Node, value: Bytes)
      requires n in lruList && Linked(null)
      modifies this`usedPayloadBytes, n`value
      ensures Linked(null) && n.value == value
      ensures Entries(Erase(lruList, n)) == old(Entries(Erase(lruList, n)))
    {
      hide Indexed, Expiring, Entries, Without, Payload, Owned, Distinct, ShardModel.Find, Erase;
      ghost var rest := Erase(lruList, n);
      assert n !in rest;
      ghost var others := Entries(rest);
      ResidentNode(index, lruList, n);
      var oldPayload := |n.key| + |n.value|;
      n.value := value;
      assert Entries(rest) == others;
      var newPayload := |n.key| + |n.value|;
      if newPayload >= oldPayload {
        usedPayloadBytes := usedPayloadBytes + (newPayload - oldPayload);
      } else {
        var diff := oldPayload - newPayload;
        if usedPayloadBytes >= diff {
          usedPayloadBytes := usedPayloadBytes - diff;
        } else {
          assert false;
        }
      }
      ResidentNode(index, lruList, n);
    }

    /** Gives an unscheduled node its deadline, and an expiry entry if it has one. */
    method Schedule(n: Node, deadline: Option<int>)
      requires n in lruList && Linked(n) && n.expireIt == null
      modifies this`expireMap, n`expireAt, n`expireIt
      ensures Linked(null) && n.expireAt == deadline
      ensures Entries(Erase(lruList, n)) == old(Entries(Erase(lruList, n)))
    {
      hide Indexed, Expiring, Entries, Without, Payload, Owned, Distinct, ShardModel.Find, Erase, Emplace;
      ResidentNode(index, lruList, n);
      NodeOut(expireMap, lruList, n);
      ghost var others := Erase(lruList, n);
      assert Expiring(expireMap, others, null);
      if deadline.Some? {
        var entry := new ExpireEntry(deadline.value, n);
        n.expireAt := deadline;
        n.expireIt := entry;
        assert Expiring(expireMap, others, null);
        NodeScheduled(expireMap, lruList, n, entry);
        expireMap := Emplace(expireMap, entry);
      } else {
        n.expireAt := deadline;
        NodeBack(expireMap, lruList, n);
      }
      ResidentNode(index, lruList, n);
    }

    /** Evicts the node at the back of the list. */
    method EvictLru()
      requires Linked(null)
      modifies Repr
      ensures Linked(null) && Repr == old(Repr) && expired == old(expired)
      ensures old(lruList) == [] ==> lruList == [] && evictions == old(evictions)
      ensures old(lruList) != [] ==>
                && |lruList| == |old(lruList)| - 1 && evictions == old(evictions) + 1
                && |old(Entries(lruList))| == |old(lruList)|
                && Entries(lruList) == old(Entries(lruList))[..|old(lruList)| - 1]
    {
      hide Indexed, Expiring, Entries, Without;
      if |lruList| == 0 {
        return;
      }
      LastNode(index, lruList);
      var last := lruList[|lruList| - 1];
      if last.key in index {
        var it := Find(last.key);
        RemoveKey(it, Eviction);
      } else {
        assert false;
      }
    }

    method EnforceMaxMemory()
      requires Linked(null)
      modifies Repr
      ensures Valid() && Repr == old(Repr) && expired == old(expired)
      ensures Entries(lruList) == Trim(old(Entries(lruList)), maxMemoryBytes)
      ensures evictions == old(evictions) + |old(Entries(lruList))| - |Entries(lruList)|
    {
      ghost var before := Entries(lruList);
      while usedPayloadBytes > maxMemoryBytes && |lruList| > 0
        invariant Linked(null) && Repr == old(Repr) && expired == old(expired)
        invariant Trim(Entries(lruList), maxMemoryBytes) == Trim(before, maxMemoryBytes)
        invariant evictions == old(evictions) + |before| - |Entries(lruList)|
        decreases |lruList|
      {
        hide Indexed, Expiring, Payload;
        EvictLru();
      }
    }

    method Set(key: Bytes, value: Bytes, expireSeconds: Option<nat>, now: int)
      requires Valid()
      modifies Repr
      ensures Valid() && fresh(Repr - old(Repr))
      ensures Abs() == ShardModel.Set(old(Abs()), key, value, Deadline(expireSeconds, now))
    {
      hide Indexed, Expiring, Entries, Without, Trim, Payload, Owned, ShardModel.Find;
      var expireAt := Deadline(expireSeconds, now);
      var it := Find(key);
      if it != null {
        Overwrite(it, value, expireAt);
      } else {
        PushFront(key, value, expireAt);
      }
      EnforceMaxMemory();
    }

    /** Rewrites a resident node and moves it to the front. */
    method Overwrite(node: Node, value: Bytes, expireAt: Option<int>)
      requires node in lruList && Linked(null) && Linked(node)
      modifies this`usedPayloadBytes, this`expireMap, this`lruList, node
      ensures Linked(null)
      ensures Entries(lruList) == [Entry(node.key, value, expireAt)] + Without(old(Entries(lruList)), node.key)
    {
      hide Indexed, Expiring, Entries, Without, Payload, Erase, WithoutEntry, Owned;
      ghost var rest, others := Erase(lruList, node), Without(Entries(lruList), node.key);
      ResidentNode(index, lruList, node);
      AssignValue(node, value);
      assert Entries(rest) == others;
      NullIsLoose(expireMap, lruList, node);
      Unschedule(node);
      assert Entries(rest) == others;
      Schedule(node, expireAt);
      Splice(node);
    }

    /** Inserts a node for a key that is not resident. */
    method PushFront(key: Bytes, value: Bytes, expireAt: Option<int>)
      requires Linked(null) && key !in index
      modifies this
      ensures Linked(null) && fresh(Repr - old(Repr))
      ensures expired == old(expired) && evictions == old(evictions)
      ensures Entries(lruList) == [Entry(key, value, expireAt)] + old(Entries(lruList))
    {
      hide Indexed, Expiring, Entries, Payload;
      var node := new Node(key, value, expireAt);
      NodePushed(index, lruList, expireMap, node);
      Repr := Repr + {node};
      lruList := [node] + lruList;
      index := index[key := node];
      usedPayloadBytes := usedPayloadBytes + (|node.key| + |node.value|);
      if expireAt.Some? {
        Schedule(node, expireAt);
      }
    }

    method Expire(key: Bytes, seconds: nat, now: int) returns (found: bool)
      requires Valid()
      modifies Repr
      ensures Valid() && Repr == old(Repr)
      ensures (Abs(), found) == ShardModel.Expire(old(Abs()), key, now + seconds * TICKS_PER_SECOND)
    {
      hide Indexed, Expiring, Entries, WithDeadline, ShardModel.Find, Payload, Owned;
      var deadline := now + seconds * TICKS_PER_SECOND;
      var it := Find(key);
      if it == null {
        DeadlineAbsent(Entries(lruList), key, deadline);
        return false;
      }
      SetDeadline(it, deadline);
      return true;
    }

    /** Gives a resident node a new deadline, in place. */
    method SetDeadline(node: Node, deadline: int)
      requires node in lruList && Linked(node)
      modifies this`expireMap, node
      ensures Linked(null)
      ensures Entries(lruList) == WithDeadline(old(Entries(lruList)), node.key, deadline)
    {
      hide Indexed, Expiring, Entries, WithDeadline, Payload, Owned, WithoutEntry;
      ghost var i :| 0 <= i < |lruList| && lruList[i] == node;
      ghost var front, back := lruList[..i], lruList[i + 1..];
      ghost var before, after := Entries(front), Entries(back);
      EntriesAround(index, lruList, i);
      DeadlinePresent(before, node.AsEntry(), after, deadline);
      Unschedule(node);
      assert Entries(front) == before && Entries(back) == after;
      Schedule(node, Some(deadline));
      EntriesAround(index, lruList, i);
    }

    method GetNextExpireTime() returns (next: Option<int>)
      requires Valid()
      ensures next == NextDeadline(Abs().entries)
    {
      FirstIsEarliest(expireMap, lruList);
      if |expireMap| == 0 {
        return None;
      }
      return Some(expireMap[0].at);
    }

    method RemoveExpiredKeys(now: int)
      requires Valid()
      modifies Repr
      ensures Valid() && Repr == old(Repr)
      ensures Abs() == Sweep(old(Abs()), now)
    {
      hide Indexed, Expiring, Entries, Without, Alive, ShardModel.Find, Distinct, Payload;
      ghost var before := Entries(lruList);
      while |expireMap| > 0 && expireMap[0].at <= now
        invariant Valid() && Repr == old(Repr) && evictions == old(evictions)
        invariant Alive(Entries(lruList), now) == Alive(before, now)
        invariant expired + |Entries(lruList)| == old(expired) + |before|
        decreases |expireMap|
      {
        FirstDue(index, expireMap, lruList);
        var node := expireMap[0].node;
        ResidentNode(index, lruList, node);
        AliveWithout(Entries(lruList), node.key, now);
        Unschedule(node);
        if node.key in index {
          var it := index[node.key];
          RemoveKey(it, Expired);
        }
      }
      NothingDue(expireMap, lruList, now);
    }
  }

  /** A valid shard represents a well-formed list. */
  lemma ValidIsWellFormed(shard: LruShard)
    requires shard.Valid()
    ensures WellFormed(shard.Abs())
  {
    EntriesDistinct(shard.lruList);
  }
}
