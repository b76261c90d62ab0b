/**
  The coordinator that writes every entry to both stores and answers a read
  only when the two agree. The Go code runs the two calls of each operation
  in two goroutines and waits for both; the model runs them one after the
  other, the process-local store first.

  The second half of the module proves when the two stores stay in step:
  with no expiry and a fixed capacity of at least one, every Set, Get, Del
  and Print keeps the Redis list equal to the local list's keys and the
  Redis values equal to the local values, so Get never loses a value to the
  agreement rule and the two Print texts are equal.
*/
module MultiCache {
  import opened Common
  import InMemory
  import Redis

  /** The coordinator's Get: the value if both stores return the same one, else "". */
  function Agree(inMemory: string, redis: string): (r: string)
  {
    if redis == inMemory then redis else ""
  }

  /** Get returns a value only if both stores return it, and "" whenever either misses. */
  lemma AgreeExact(inMemory: string, redis: string)
    ensures Agree(inMemory, redis) != "" ==> inMemory == redis == Agree(inMemory, redis)
    ensures inMemory == redis ==> Agree(inMemory, redis) == inMemory
    ensures inMemory == "" || redis == "" ==> Agree(inMemory, redis) == ""
  {
  }

  // ------------------------------------------------------------------
  // The two stores in step
  // ------------------------------------------------------------------

  /** Redis holds a local node's value under its key, and neither expires. */
  ghost predicate Mirrored(n: InMemory.CacheNode, values: map<string, Redis.Entry>)
  {
    n.expireAt.None? && n.key in values && values[n.key] == Redis.Entry(n.value, None)
  }

  /**
    The Redis list is the local list's keys, Redis holds a value exactly for
    the listed keys, and each is the local node's value; nothing expires.
  */
  ghost predicate Mirrors(nodes: seq<InMemory.CacheNode>, l: seq<string>, values: map<string, Redis.Entry>)
  {
    && InMemory.UniqueKeys(nodes)
    && InMemory.Keys(nodes) == l
    && (forall k :: k in values <==> k in l)
    && (forall n :: n in nodes ==> Mirrored(n, values))
  }

  lemma MirrorsIntro(nodes: seq<InMemory.CacheNode>, l: seq<string>, values: map<string, Redis.Entry>)
    requires InMemory.UniqueKeys(nodes) && InMemory.Keys(nodes) == l
    requires forall k :: k in values <==> k in l
    requires forall n :: n in nodes ==> Mirrored(n, values)
    ensures Mirrors(nodes, l, values)
  {
  }

  /** Nodes kept from a mirrored list stay mirrored when their values are untouched. */
  lemma MirroredKept(sub: seq<InMemory.CacheNode>, nodes: seq<InMemory.CacheNode>,
                     values: map<string, Redis.Entry>, v: map<string, Redis.Entry>)
    requires forall n :: n in nodes ==> Mirrored(n, values)
    requires forall n :: n in sub ==> n in nodes && n.key in v && n.key in values && v[n.key] == values[n.key]
    ensures forall n :: n in sub ==> Mirrored(n, v)
  {
    forall n | n in sub ensures Mirrored(n, v) {
      assert Mirrored(n, values);
    }
  }

  lemma MirroredFront(node: InMemory.CacheNode, sub: seq<InMemory.CacheNode>, v: map<string, Redis.Entry>)
    requires Mirrored(node, v)
    requires forall n :: n in sub ==> Mirrored(n, v)
    ensures forall n :: n in [node] + sub ==> Mirrored(n, v)
  {
    forall n | n in [node] + sub ensures Mirrored(n, v) {
      if n != node {
        assert n in sub;
      }
    }
  }

  lemma {:induction false} KeysRemoveKey(s: seq<InMemory.CacheNode>, key: string)
    ensures InMemory.Keys(InMemory.RemoveKey(s, key)) == Redis.LRem(InMemory.Keys(s), key)
  {
    if s != [] {
      KeysRemoveKey(s[1..], key);
      var ks := InMemory.Keys(s);
      assert ks == [s[0].key] + InMemory.Keys(s[1..]);
      assert ks[1..] == InMemory.Keys(s[1..]);
      if s[0].key != key {
        InMemory.KeysAppend([s[0]], InMemory.RemoveKey(s[1..], key));
      }
    }
  }

  lemma KeysPrefix(s: seq<InMemory.CacheNode>, n: nat)
    requires n <= |s|
    ensures InMemory.Keys(s[..n]) == InMemory.Keys(s)[..n]
  {
  }

  lemma KeysDistinct(nodes: seq<InMemory.CacheNode>)
    requires InMemory.UniqueKeys(nodes)
    ensures forall i, j :: 0 <= i < j < |InMemory.Keys(nodes)| ==> InMemory.Keys(nodes)[i] != InMemory.Keys(nodes)[j]
  {
  }

  lemma {:induction false} LiveAll(s: seq<InMemory.CacheNode>, now: int)
    requires forall n :: n in s ==> n.expireAt.None?
    ensures InMemory.LiveNodes(s, now) == s
  {
    if s != [] {
      var init, last := s[..|s| - 1], s[|s| - 1];
      assert last in s;
      forall n | n in init ensures n.expireAt.None? {
        assert n in s;
      }
      LiveAll(init, now);
      assert InMemory.LiveNodes(s, now) == init + [last];
      NodesSplitLast(s);
    }
  }

  lemma NodesSplitLast(s: seq<InMemory.CacheNode>)
    requires s != []
    ensures s == s[..|s| - 1] + [s[|s| - 1]]
  {
  }

  lemma {:induction false} ItemsShown(nodes: seq<InMemory.CacheNode>, values: map<string, Redis.Entry>)
    requires forall n :: n in nodes ==> n.key in values && values[n.key].value == n.value
    ensures InMemory.Items(nodes) == Redis.Shown(InMemory.Keys(nodes), values)
  {
    if nodes != [] {
      var init, last := nodes[..|nodes| - 1], nodes[|nodes| - 1];
      assert last in nodes;
      forall n | n in init ensures n.key in values && values[n.key].value == n.value {
        assert n in nodes;
      }
      ItemsShown(init, values);
      var ks := InMemory.Keys(nodes);
      KeysPrefix(nodes, |nodes| - 1);
      assert ks[..|ks| - 1] == InMemory.Keys(init);
      assert ks[|ks| - 1] == last.key;
    }
  }

  lemma AllButLast(l: seq<string>, k: string)
    requires |l| >= 1
    requires forall i, j :: 0 <= i < j < |l| ==> l[i] != l[j]
    ensures k in l[..|l| - 1] <==> k in l && k != l[|l| - 1]
  {
    if k in l && k != l[|l| - 1] {
      var i :| 0 <= i < |l| && l[i] == k;
      assert l[..|l| - 1][i] == k;
    }
  }

  /** Both stores start empty (on a server with no values). */
  lemma MirrorsEmpty()
    ensures Mirrors([], [], map[])
  {
  }

  /** Set of a key the local list holds: both move it to the front, no eviction. */
  lemma SetExisting(nodes: seq<InMemory.CacheNode>, l: seq<string>, values: map<string, Redis.Entry>,
                    key: string, value: string, length: int, now: int)
    requires Mirrors(nodes, l, values) && 1 <= length && |nodes| <= length
    requires key in l
    ensures var r := Redis.Store(l, values, key, value, length, -1, now);
      var s := InMemory.Insert(nodes, key, value, length, -1, now);
      r.outcome == Redis.Done && Mirrors(s, r.list, r.values) && |s| <= length
  {
    var node := InMemory.CacheNode(key, value, None);
    InMemory.LookupKeys(nodes, key);
    assert InMemory.Insert(nodes, key, value, length, -1, now) == [node] + InMemory.RemoveKey(nodes, key);
    KeysDistinct(nodes);
    Redis.StoreMove(l, values, key, value, length, now);
    ExistingMirror(nodes, l, values, node, values[key := Redis.Entry(value, None)]);
  }

  /** Local side of SetExisting: the refreshed node in front of the others mirrors the Redis result. */
  lemma ExistingMirror(nodes: seq<InMemory.CacheNode>, l: seq<string>, values: map<string, Redis.Entry>,
                       node: InMemory.CacheNode, v: map<string, Redis.Entry>)
    requires Mirrors(nodes, l, values) && node.key in l && node.expireAt.None?
    requires v == values[node.key := Redis.Entry(node.value, None)]
    ensures Mirrors([node] + InMemory.RemoveKey(nodes, node.key), [node.key] + Redis.LRem(l, node.key), v)
  {
    var key := node.key;
    var rest := InMemory.RemoveKey(nodes, key);
    KeysRemoveKey(nodes, key);
    InMemory.KeysAppend([node], rest);
    InMemory.RemoveKeyKeys(nodes, key);
    InMemory.RemoveKeyUnique(nodes, key);
    InMemory.UniqueCons(node, rest);
    forall k ensures k in v <==> k in [key] + Redis.LRem(l, key) {
      Redis.WithoutMember(l, {key}, k);
    }
    MirroredKept(rest, nodes, values, v);
    MirroredFront(node, rest, v);
    MirrorsIntro([node] + rest, [key] + Redis.LRem(l, key), v);
  }

  /** Set of a new key with room left: both push it to the front. */
  lemma SetFresh(nodes: seq<InMemory.CacheNode>, l: seq<string>, values: map<string, Redis.Entry>,
                 key: string, value: string, length: int, now: int)
    requires Mirrors(nodes, l, values) && |nodes| < length
    requires key !in l
    ensures var r := Redis.Store(l, values, key, value, length, -1, now);
      var s := InMemory.Insert(nodes, key, value, length, -1, now);
      r.outcome == Redis.Done && Mirrors(s, r.list, r.values) && |s| <= length
  {
    var node := InMemory.CacheNode(key, value, None);
    InMemory.LookupKeys(nodes, key);
    assert InMemory.Insert(nodes, key, value, length, -1, now) == [node] + nodes;
    Redis.StorePush(l, values, key, value, length, now);
    FreshMirror(nodes, l, values, node, values[key := Redis.Entry(value, None)]);
  }

  /** Local side of SetFresh. */
  lemma FreshMirror(nodes: seq<InMemory.CacheNode>, l: seq<string>, values: map<string, Redis.Entry>,
                    node: InMemory.CacheNode, v: map<string, Redis.Entry>)
    requires Mirrors(nodes, l, values) && node.key !in l && node.expireAt.None?
    requires v == values[node.key := Redis.Entry(node.value, None)]
    ensures Mirrors([node] + nodes, [node.key] + l, v)
  {
    InMemory.KeysAppend([node], nodes);
    InMemory.UniqueCons(node, nodes);
    forall n | n in nodes ensures n in nodes && n.key in v && n.key in values && v[n.key] == values[n.key] {
      assert Mirrored(n, values);
    }
    MirroredKept(nodes, nodes, values, v);
    MirroredFront(node, nodes, v);
    MirrorsIntro([node] + nodes, [node.key] + l, v);
  }

  /** Set of a new key into a full list: both drop the back key (and Redis its value). */
  lemma SetFull(nodes: seq<InMemory.CacheNode>, l: seq<string>, values: map<string, Redis.Entry>,
                key: string, value: string, length: int, now: int)
    requires Mirrors(nodes, l, values) && 1 <= length && |nodes| == length
    requires key !in l
    ensures var r := Redis.Store(l, values, key, value, length, -1, now);
      var s := InMemory.Insert(nodes, key, value, length, -1, now);
      r.outcome == Redis.Done && Mirrors(s, r.list, r.values) && |s| <= length
  {
    var node := InMemory.CacheNode(key, value, None);
    InMemory.LookupKeys(nodes, key);
    assert InMemory.Insert(nodes, key, value, length, -1, now) == [node] + nodes[..length - 1];
    Redis.StoreEvictOne(l, values, key, value, length, now);
    FullMirror(nodes, l, values, node, values[key := Redis.Entry(value, None)] - {l[length - 1]});
  }

  /** Local side of SetFull: the new node in front of all but the back node. */
  lemma FullMirror(nodes: seq<InMemory.CacheNode>, l: seq<string>, values: map<string, Redis.Entry>,
                   node: InMemory.CacheNode, v2: map<string, Redis.Entry>)
    requires Mirrors(nodes, l, values) && 1 <= |nodes| && node.key !in l && node.expireAt.None?
    requires v2 == values[node.key := Redis.Entry(node.value, None)] - {l[|l| - 1]}
    ensures Mirrors([node] + nodes[..|nodes| - 1], [node.key] + l[..|l| - 1], v2)
  {
    var kept := nodes[..|nodes| - 1];
    KeysPrefix(nodes, |nodes| - 1);
    InMemory.KeysAppend([node], kept);
    KeysDistinct(nodes);
    FullUnique(nodes, l, node);
    FullValues(l, values, node.key, node.value, v2);
    assert l[|l| - 1] == nodes[|nodes| - 1].key;
    assert forall k :: k in values && k != nodes[|nodes| - 1].key ==> k in v2 && v2[k] == values[k];
    FullKept(nodes, values, v2);
    MirroredKept(kept, nodes, values, v2);
    MirroredFront(node, kept, v2);
    MirrorsIntro([node] + kept, [node.key] + l[..|l| - 1], v2);
  }

  lemma FullValues(l: seq<string>, values: map<string, Redis.Entry>, key: string, value: string,
                   v2: map<string, Redis.Entry>)
    requires 1 <= |l| && key !in l
    requires forall i, j :: 0 <= i < j < |l| ==> l[i] != l[j]
    requires forall k :: k in values <==> k in l
    requires v2 == values[key := Redis.Entry(value, None)] - {l[|l| - 1]}
    ensures forall k :: k in v2 <==> k in [key] + l[..|l| - 1]
  {
    forall k ensures k in v2 <==> k in [key] + l[..|l| - 1] {
      AllButLast(l, k);
    }
  }

  lemma FullUnique(nodes: seq<InMemory.CacheNode>, l: seq<string>, node: InMemory.CacheNode)
    requires InMemory.UniqueKeys(nodes) && InMemory.Keys(nodes) == l && 1 <= |nodes| && node.key !in l
    ensures InMemory.UniqueKeys([node] + nodes[..|nodes| - 1])
  {
    var kept := nodes[..|nodes| - 1];
    assert InMemory.UniqueKeys(kept);
    assert node.key !in InMemory.Keys(kept) by {
      forall i | 0 <= i < |kept| ensures InMemory.Keys(kept)[i] != node.key {
        assert InMemory.Keys(kept)[i] == l[i];
      }
    }
    InMemory.UniqueCons(node, kept);
  }

  /** The nodes SetFull keeps are neither the new key nor the back key. */
  lemma FullKept(nodes: seq<InMemory.CacheNode>, values: map<string, Redis.Entry>,
                 v2: map<string, Redis.Entry>)
    requires 1 <= |nodes| && InMemory.UniqueKeys(nodes)
    requires forall n :: n in nodes ==> Mirrored(n, values)
    requires forall k :: k in values && k != nodes[|nodes| - 1].key ==> k in v2 && v2[k] == values[k]
    ensures forall n :: n in nodes[..|nodes| - 1] ==> n in nodes && n.key in v2 && n.key in values && v2[n.key] == values[n.key]
  {
    var kept := nodes[..|nodes| - 1];
    forall n | n in kept ensures n in nodes && n.key in v2 && n.key in values && v2[n.key] == values[n.key] {
      var i :| 0 <= i < |kept| && kept[i] == n;
      assert nodes[i] == n;
      assert n.key != nodes[|nodes| - 1].key;
      assert Mirrored(n, values);
    }
  }

  /**
    With no expiry and a capacity of at least one that every call repeats,
    Set keeps the stores in step, never fails on the Redis side, and keeps
    the entry count within the capacity.
  */
  lemma SetKeepsMirror(nodes: seq<InMemory.CacheNode>, l: seq<string>, values: map<string, Redis.Entry>,
                       key: string, value: string, length: int, now: int)
    requires Mirrors(nodes, l, values) && 1 <= length && |nodes| <= length
    ensures var r := Redis.Store(l, values, key, value, length, -1, now);
      var s := InMemory.Insert(nodes, key, value, length, -1, now);
      r.outcome == Redis.Done && Mirrors(s, r.list, r.values) && |s| <= length
  {
    if key in l {
      SetExisting(nodes, l, values, key, value, length, now);
    } else if |nodes| < length {
      SetFresh(nodes, l, values, key, value, length, now);
    } else {
      SetFull(nodes, l, values, key, value, length, now);
    }
  }

  /** In step, both stores return the same value to Get, and stay in step. */
  lemma GetAgrees(nodes: seq<InMemory.CacheNode>, l: seq<string>, values: map<string, Redis.Entry>,
                  key: string, now: int)
    requires Mirrors(nodes, l, values)
    ensures var m := InMemory.Fetch(nodes, key, now);
      var d := Redis.Load(l, values, key);
      m.value == d.value && Agree(m.value, d.value) == m.value && Mirrors(m.list, d.list, values)
  {
    InMemory.LookupKeys(nodes, key);
    if key in l {
      var x := InMemory.Lookup(nodes, key).value;
      assert Mirrored(x, values);
      assert InMemory.Fetch(nodes, key, now) == InMemory.Fetched(x.value, [x] + InMemory.RemoveKey(nodes, key));
      ExistingMirror(nodes, l, values, x, values[key := Redis.Entry(x.value, None)]);
      assert values[key := Redis.Entry(x.value, None)] == values;
    }
  }

  /** In step, Del removes the key from both and keeps them in step. */
  lemma DelKeepsMirror(nodes: seq<InMemory.CacheNode>, l: seq<string>, values: map<string, Redis.Entry>,
                       key: string)
    requires Mirrors(nodes, l, values)
    ensures Mirrors(InMemory.RemoveKey(nodes, key), if key in values then Redis.LRem(l, key) else l, values - {key})
  {
    var rest := InMemory.RemoveKey(nodes, key);
    var vd := values - {key};
    KeysRemoveKey(nodes, key);
    InMemory.RemoveKeyKeys(nodes, key);
    InMemory.RemoveKeyUnique(nodes, key);
    if key !in values {
      Redis.WithoutNone(l, {key});
    }
    forall k ensures k in vd <==> k in Redis.LRem(l, key) {
      Redis.WithoutMember(l, {key}, k);
    }
    forall n | n in rest ensures n in nodes && n.key in vd && n.key in values && vd[n.key] == values[n.key] {
      assert Mirrored(n, values);
    }
    MirroredKept(rest, nodes, values, vd);
    MirrorsIntro(rest, Redis.LRem(l, key), vd);
  }

  /** In step, the two Print texts are equal, and Print changes neither store. */
  lemma PrintAgrees(nodes: seq<InMemory.CacheNode>, l: seq<string>, values: map<string, Redis.Entry>, now: int)
    requires Mirrors(nodes, l, values)
    ensures InMemory.Render(InMemory.LiveNodes(nodes, now)) == Join(Redis.Shown(l, values))
    ensures InMemory.LiveNodes(nodes, now) == nodes && Redis.Present(l, values) == l
  {
    LiveAll(nodes, now);
    ItemsShown(nodes, values);
    forall i | 0 <= i < |l| ensures l[i] in values {
      assert l[i] in l;
    }
    Redis.PresentAll(l, values);
  }

  /** After Del_ALL both stores are empty, so Get of any key misses in each and in the coordinator. */
  lemma DelAllThenGet(key: string, now: int)
    ensures InMemory.Fetch([], key, now) == InMemory.Fetched("", [])
    ensures Redis.Load([], map[], key) == Redis.Fetched("", [])
    ensures Agree(InMemory.Fetch([], key, now).value, Redis.Load([], map[], key).value) == ""
  {
  }

  /**
    With capacity 0 the local store still keeps the new entry while Redis
    pops it at once, so Get on it returns "" although the local store has it.
  */
  lemma CapacityZeroDiverges()
    ensures InMemory.Insert([], "a", "1", 0, -1, 0) == [InMemory.CacheNode("a", "1", None)]
    ensures Redis.Store([], map[], "a", "1", 0, -1, 0) == Redis.Step(Redis.Done, [], map[])
    ensures InMemory.Fetch([InMemory.CacheNode("a", "1", None)], "a", 0).value == "1"
    ensures Agree(InMemory.Fetch([InMemory.CacheNode("a", "1", None)], "a", 0).value,
                  Redis.Load([], map[], "a").value) == ""
  {
    var v := map["a" := Redis.Entry("1", None)];
    assert Redis.Pushed([], map[], "a") == ["a"];
    Redis.PresentAll(["a"], v);
    assert ["a"][0..] == ["a"];
    assert Redis.Elems(["a"]) == {"a"};
    assert v - {"a"} == map[];
    InMemory.RemoveKeySingle(InMemory.CacheNode("a", "1", None));
  }

  // ------------------------------------------------------------------
  // The coordinator
  // ------------------------------------------------------------------

  class MultiCache {
    const redisCache: Redis.LRUCache
    const inMemoryCache: InMemory.LRUCache

    ghost predicate Valid()
      reads this, inMemoryCache
    {
      inMemoryCache.Valid()
    }

    /** NewMultiCache: a new Redis client on a server holding `existing`, and an empty local store. */
    constructor (existing: map<string, Redis.Entry>)
      ensures Valid() && fresh(redisCache) && fresh(inMemoryCache)
      ensures inMemoryCache.list == [] && redisCache.list == [] && redisCache.values == existing
    {
      redisCache := new Redis.LRUCache(existing);
      inMemoryCache := new InMemory.LRUCache();
    }

    /** Set: Put into both stores; the Redis outcome is returned. */
    method Set(key: string, value: string, length: int, ttl: int, now: int) returns (r: Redis.Outcome)
      requires Valid()
      modifies redisCache, inMemoryCache
      ensures Valid()
      ensures inMemoryCache.list == InMemory.Insert(old(inMemoryCache.list), key, value, length, ttl, now)
      ensures Redis.Step(r, redisCache.list, redisCache.values) ==
              Redis.Store(old(redisCache.list), old(redisCache.values), key, value, length, ttl, now)
    {
      inMemoryCache.Put(key, value, length, ttl, now);
      r := redisCache.Put(key, value, length, ttl, now);
    }

    /** Get: read both stores and return the value only if they agree. */
    method Get(key: string, now: int) returns (v: string)
      requires Valid()
      modifies redisCache, inMemoryCache
      ensures Valid()
      ensures v == Agree(InMemory.Fetch(old(inMemoryCache.list), key, now).value,
                         Redis.Load(old(redisCache.list), old(redisCache.values), key).value)
      ensures inMemoryCache.list == InMemory.Fetch(old(inMemoryCache.list), key, now).list
      ensures redisCache.list == Redis.Load(old(redisCache.list), old(redisCache.values), key).list
      ensures redisCache.values == old(redisCache.values)
    {
      var inMemoryValue := inMemoryCache.Get(key, now);
      var redisValue := redisCache.Get(key);
      if redisValue == inMemoryValue {
        return redisValue;
      }
      return "";
    }

    /** Print_redis: the Redis store's text; the local store is untouched. */
    method PrintRedis() returns (s: string)
      requires Valid()
      modifies redisCache
      ensures Valid()
      ensures s == Join(Redis.Shown(old(redisCache.list), old(redisCache.values)))
      ensures redisCache.list == Redis.Present(old(redisCache.list), old(redisCache.values))
      ensures redisCache.values == old(redisCache.values)
    {
      s := redisCache.Print();
    }

    /** Print_in_mem: the local store's text; Redis is untouched. */
    method PrintInMem(now: int) returns (s: string)
      requires Valid()
      modifies inMemoryCache
      ensures Valid()
      ensures s == InMemory.Render(InMemory.LiveNodes(old(inMemoryCache.list), now))
      ensures inMemoryCache.list == InMemory.LiveNodes(old(inMemoryCache.list), now)
    {
      s := inMemoryCache.Print(now);
    }

    /** Del: delete the key from both stores. */
    method Del(key: string)
      requires Valid()
      modifies redisCache, inMemoryCache
      ensures Valid()
      ensures inMemoryCache.list == InMemory.RemoveKey(old(inMemoryCache.list), key)
      ensures redisCache.list ==
              if key in old(redisCache.values) then Redis.LRem(old(redisCache.list), key) else old(redisCache.list)
      ensures redisCache.values == old(redisCache.values) - {key}
    {
      inMemoryCache.Del(key);
      redisCache.Del(key);
    }

    /** Del_ALL: empty both stores. */
    method DelAll()
      requires Valid()
      modifies redisCache, inMemoryCache
      ensures Valid()
      ensures inMemoryCache.list == [] && redisCache.list == [] && redisCache.values == map[]
    {
      inMemoryCache.DelAll();
      redisCache.DelAll();
    }
  }

  // ------------------------------------------------------------------
  // The integration tests, with capacity 2 and no expiry
  // ------------------------------------------------------------------

  /** The local list after Set("a", "1") and Set("b", "2"). */
  lemma TwoSets()
    ensures InMemory.Insert([], "a", "1", 2, -1, 0) == [InMemory.CacheNode("a", "1", None)]
    ensures InMemory.Insert([InMemory.CacheNode("a", "1", None)], "b", "2", 2, -1, 0) ==
            [InMemory.CacheNode("b", "2", None), InMemory.CacheNode("a", "1", None)]
  {
    var a := InMemory.CacheNode("a", "1", None);
    assert InMemory.Lookup([a], "b") == None by {
      assert [a][1..] == [];
    }
  }

  /** Get("c") on that list misses and changes nothing. */
  lemma GetMiss()
    ensures InMemory.Fetch([InMemory.CacheNode("b", "2", None), InMemory.CacheNode("a", "1", None)], "c", 0) ==
            InMemory.Fetched("", [InMemory.CacheNode("b", "2", None), InMemory.CacheNode("a", "1", None)])
  {
    var a := InMemory.CacheNode("a", "1", None);
    var b := InMemory.CacheNode("b", "2", None);
    assert InMemory.Keys([b, a]) == ["b", "a"];
    InMemory.FetchAbsent([b, a], "c", 0);
  }

  /** Get("a") on that list returns "1". */
  lemma GetHit()
    ensures InMemory.Fetch([InMemory.CacheNode("b", "2", None), InMemory.CacheNode("a", "1", None)], "a", 0).value == "1"
  {
    var a := InMemory.CacheNode("a", "1", None);
    var b := InMemory.CacheNode("b", "2", None);
    InMemory.FetchLive([b], a, [], 0);
    assert [b] + [a] + [] == [b, a];
  }

  /** Del("a") on that list leaves the node of "b". */
  lemma DelFirst()
    ensures InMemory.RemoveKey([InMemory.CacheNode("b", "2", None), InMemory.CacheNode("a", "1", None)], "a") ==
            [InMemory.CacheNode("b", "2", None)]
  {
    var a := InMemory.CacheNode("a", "1", None);
    var b := InMemory.CacheNode("b", "2", None);
    InMemory.FetchSplit([b], a, []);
    assert [b] + [a] + [] == [b, a];
    assert [b] + [] == [b];
  }

  /** After it, Get misses "a". */
  lemma DelMiss()
    ensures InMemory.Fetch([InMemory.CacheNode("b", "2", None)], "a", 0) ==
            InMemory.Fetched("", [InMemory.CacheNode("b", "2", None)])
  {
    var b := InMemory.CacheNode("b", "2", None);
    assert InMemory.Keys([b]) == ["b"];
    InMemory.FetchAbsent([b], "a", 0);
  }

  /** And Get still finds "b". */
  lemma DelHit()
    ensures InMemory.Fetch([InMemory.CacheNode("b", "2", None)], "b", 0).value == "2"
  {
    var b := InMemory.CacheNode("b", "2", None);
    InMemory.FetchLive([], b, [], 0);
    assert [] + [b] + [] == [b];
  }

  /** TestGET: "c" misses, "a" returns "1". */
  method GetScenario() returns (missing: string, found: string)
    ensures missing == "" && found == "1"
  {
    var a := InMemory.CacheNode("a", "1", None);
    var b := InMemory.CacheNode("b", "2", None);
    var c := new MultiCache(map[]);
    MirrorsEmpty();
    TwoSets();
    SetKeepsMirror([], [], map[], "a", "1", 2, 0);
    var r := c.Set("a", "1", 2, -1, 0);
    assert c.inMemoryCache.list == [a];
    SetKeepsMirror(c.inMemoryCache.list, c.redisCache.list, c.redisCache.values, "b", "2", 2, 0);
    r := c.Set("b", "2", 2, -1, 0);
    assert c.inMemoryCache.list == [b, a];
    GetMiss();
    GetAgrees(c.inMemoryCache.list, c.redisCache.list, c.redisCache.values, "c", 0);
    missing := c.Get("c", 0);
    assert c.inMemoryCache.list == [b, a];
    GetHit();
    GetAgrees(c.inMemoryCache.list, c.redisCache.list, c.redisCache.values, "a", 0);
    found := c.Get("a", 0);
  }

  /** TestPrint: the two Print texts agree before and after an eviction. */
  method PrintScenario() returns (inMemory1: string, redis1: string, inMemory2: string, redis2: string)
    ensures inMemory1 == redis1 && inMemory2 == redis2
  {
    var c := new MultiCache(map[]);
    MirrorsEmpty();
    SetKeepsMirror([], [], map[], "a", "1", 2, 0);
    var r := c.Set("a", "1", 2, -1, 0);
    SetKeepsMirror(c.inMemoryCache.list, c.redisCache.list, c.redisCache.values, "b", "2", 2, 0);
    r := c.Set("b", "2", 2, -1, 0);
    PrintAgrees(c.inMemoryCache.list, c.redisCache.list, c.redisCache.values, 0);
    inMemory1 := c.PrintInMem(0);
    redis1 := c.PrintRedis();
    SetKeepsMirror(c.inMemoryCache.list, c.redisCache.list, c.redisCache.values, "c", "3", 2, 0);
    r := c.Set("c", "3", 2, -1, 0);
    PrintAgrees(c.inMemoryCache.list, c.redisCache.list, c.redisCache.values, 0);
    inMemory2 := c.PrintInMem(0);
    redis2 := c.PrintRedis();
  }

  /** TestDel: after Del("a"), "a" misses and "b" still returns "2". */
  method DelScenario() returns (deleted: string, kept: string)
    ensures deleted == "" && kept == "2"
  {
    var a := InMemory.CacheNode("a", "1", None);
    var b := InMemory.CacheNode("b", "2", None);
    var c := new MultiCache(map[]);
    MirrorsEmpty();
    TwoSets();
    SetKeepsMirror([], [], map[], "a", "1", 2, 0);
    var r := c.Set("a", "1", 2, -1, 0);
    assert c.inMemoryCache.list == [a];
    SetKeepsMirror(c.inMemoryCache.list, c.redisCache.list, c.redisCache.values, "b", "2", 2, 0);
    r := c.Set("b", "2", 2, -1, 0);
    assert c.inMemoryCache.list == [b, a];
    DelFirst();
    DelKeepsMirror(c.inMemoryCache.list, c.redisCache.list, c.redisCache.values, "a");
    c.Del("a");
    assert c.inMemoryCache.list == [b];
    DelMiss();
    GetAgrees(c.inMemoryCache.list, c.redisCache.list, c.redisCache.values, "a", 0);
    deleted := c.Get("a", 0);
    assert c.inMemoryCache.list == [b];
    DelHit();
    GetAgrees(c.inMemoryCache.list, c.redisCache.list, c.redisCache.values, "b", 0);
    kept := c.Get("b", 0);
  }
}
