/**
  The process-local LRU store: a map from key to list node kept in lock-step
  with a recency list (front = most recently used), every node carrying an
  optional expiry. Wall-clock time is the integer parameter `now`.

  The first half of the module describes the store on values: the list is a
  sequence of nodes, and each operation is a function from the old list to
  the new one. The class `LRUCache` at the end holds the two mutable
  structures and proves that each of its methods does what those functions say.
*/
module InMemory {
  import opened Common

  /** A list node: key, value and expiry (`None` is Go's zero `time.Time`, "never"). */
  datatype CacheNode = CacheNode(key: string, value: string, expireAt: Option<int>)

  /** The expiry a write at `now` gives an entry: `now + ttl` if ttl > 0, else none. */
  function ExpiryFor(ttl: int, now: int): Option<int>
  {
    if ttl > 0 then Some(now + ttl) else None
  }

  /** Get and Print keep a node that never expires or expires after `now`. */
  predicate Live(n: CacheNode, now: int)
  {
    n.expireAt.None? || now < n.expireAt.value
  }

  /** cleanup drops a node whose expiry lies strictly before `now`. */
  predicate Stale(n: CacheNode, now: int)
  {
    n.expireAt.Some? && n.expireAt.value < now
  }

  // ------------------------------------------------------------------
  // The recency list as a sequence of nodes
  // ------------------------------------------------------------------

  function Keys(s: seq<CacheNode>): (ks: seq<string>)
    ensures |ks| == |s|
    ensures forall i :: 0 <= i < |s| ==> ks[i] == s[i].key
  {
    if s == [] then [] else [s[0].key] + Keys(s[1..])
  }

  /** Each key is on at most one node. */
  ghost predicate UniqueKeys(s: seq<CacheNode>)
  {
    forall i, j :: 0 <= i < j < |s| ==> s[i].key != s[j].key
  }

  /**
    The lock-step invariant of map and list: the map's keys are exactly the
    keys on the list, each key is on one node only, and the map entry of a key
    is that key's node.
  */
  ghost predicate Consistent(s: seq<CacheNode>, m: map<string, CacheNode>)
  {
    && UniqueKeys(s)
    && (forall k :: k in m <==> k in Keys(s))
    && (forall i :: 0 <= i < |s| ==> s[i].key in m && m[s[i].key] == s[i])
  }

  /** The node carrying `key`, the first one from the front. */
  function Lookup(s: seq<CacheNode>, key: string): Option<CacheNode>
  {
    if s == [] then None
    else if s[0].key == key then Some(s[0])
    else Lookup(s[1..], key)
  }

  /** The list without the node(s) carrying `key` (`list.Remove` of that key's element). */
  function RemoveKey(s: seq<CacheNode>, key: string): seq<CacheNode>
  {
    if s == [] then []
    else if s[0].key == key then RemoveKey(s[1..], key)
    else [s[0]] + RemoveKey(s[1..], key)
  }

  /** The list without its back node, if it has one (`evict`). */
  function DropBack(s: seq<CacheNode>): seq<CacheNode>
  {
    if s == [] then [] else s[..|s| - 1]
  }

  /** The live nodes, in list order: what Print keeps. */
  function LiveNodes(s: seq<CacheNode>, now: int): seq<CacheNode>
  {
    if s == [] then []
    else LiveNodes(s[..|s| - 1], now) + (if Live(s[|s| - 1], now) then [s[|s| - 1]] else [])
  }

  /** The nodes that are not stale, in list order: what cleanup keeps. */
  function Sweep(s: seq<CacheNode>, now: int): seq<CacheNode>
  {
    if s == [] then []
    else Sweep(s[..|s| - 1], now) + (if Stale(s[|s| - 1], now) then [] else [s[|s| - 1]])
  }

  /** The `key:value` strings of the nodes, front to back. */
  function Items(s: seq<CacheNode>): seq<string>
  {
    if s == [] then []
    else Items(s[..|s| - 1]) + [Pair(s[|s| - 1].key, s[|s| - 1].value)]
  }

  /** The text Print returns for a list of nodes. */
  function Render(s: seq<CacheNode>): string
  {
    Join(Items(s))
  }

  // ------------------------------------------------------------------
  // The operations on values
  // ------------------------------------------------------------------

  /** What Get returns, and the list it leaves. */
  datatype Fetched = Fetched(value: string, list: seq<CacheNode>)

  /** Get: a live node moves to the front and yields its value; an expired one is dropped. */
  function Fetch(s: seq<CacheNode>, key: string, now: int): Fetched
  {
    match Lookup(s, key)
    case None => Fetched("", s)
    case Some(n) =>
      if Live(n, now) then Fetched(n.value, [n] + RemoveKey(s, key))
      else Fetched("", RemoveKey(s, key))
  }

  /**
    Put: an existing key gets the new value and expiry and moves to the front
    with no eviction; a new key first evicts the back node if the list holds
    `length` or more nodes, then goes to the front.
  */
  function Insert(s: seq<CacheNode>, key: string, value: string, length: int, ttl: int, now: int): seq<CacheNode>
  {
    var n := CacheNode(key, value, ExpiryFor(ttl, now));
    if Lookup(s, key).Some? then [n] + RemoveKey(s, key)
    else if |s| >= length then [n] + DropBack(s)
    else [n] + s
  }

  // ------------------------------------------------------------------
  // Helper facts about the list functions
  // ------------------------------------------------------------------

  lemma {:induction false} LookupKeys(s: seq<CacheNode>, key: string)
    ensures Lookup(s, key).Some? <==> key in Keys(s)
    ensures Lookup(s, key).Some? ==> Lookup(s, key).value.key == key && Lookup(s, key).value in s
  {
    if s != [] {
      LookupKeys(s[1..], key);
      assert Keys(s) == [s[0].key] + Keys(s[1..]);
    }
  }

  lemma UniqueCons(x: CacheNode, t: seq<CacheNode>)
    ensures UniqueKeys([x] + t) <==> x.key !in Keys(t) && UniqueKeys(t)
  {
    if UniqueKeys([x] + t) {
      UniqueConsSplit(x, t);
    }
    if x.key !in Keys(t) && UniqueKeys(t) {
      UniqueConsJoin(x, t);
    }
  }

  lemma UniqueConsSplit(x: CacheNode, t: seq<CacheNode>)
    requires UniqueKeys([x] + t)
    ensures x.key !in Keys(t) && UniqueKeys(t)
  {
    var s := [x] + t;
    forall i, j | 0 <= i < j < |t| ensures t[i].key != t[j].key {
      assert s[i + 1] == t[i] && s[j + 1] == t[j];
    }
    forall i | 0 <= i < |t| ensures Keys(t)[i] != x.key {
      assert s[0] == x && s[i + 1] == t[i];
    }
  }

  lemma UniqueConsJoin(x: CacheNode, t: seq<CacheNode>)
    requires x.key !in Keys(t) && UniqueKeys(t)
    ensures UniqueKeys([x] + t)
  {
    var s := [x] + t;
    forall i, j | 0 <= i < j < |s| ensures s[i].key != s[j].key {
      if i == 0 {
        assert s[j] == t[j - 1];
        assert Keys(t)[j - 1] in Keys(t);
      } else {
        assert s[i] == t[i - 1] && s[j] == t[j - 1];
      }
    }
  }

  lemma {:induction false} RemoveKeyKeys(s: seq<CacheNode>, key: string)
    ensures forall k :: k in Keys(RemoveKey(s, key)) <==> k in Keys(s) && k != key
    ensures forall n :: n in RemoveKey(s, key) ==> n in s && n.key != key
    ensures |RemoveKey(s, key)| <= |s|
  {
    if s != [] {
      RemoveKeyKeys(s[1..], key);
      assert Keys(s) == [s[0].key] + Keys(s[1..]);
      if s[0].key != key {
        assert Keys(RemoveKey(s, key)) == [s[0].key] + Keys(RemoveKey(s[1..], key));
      }
    }
  }

  lemma {:induction false} RemoveKeyUnique(s: seq<CacheNode>, key: string)
    requires UniqueKeys(s)
    ensures UniqueKeys(RemoveKey(s, key))
  {
    if s != [] {
      UniqueCons(s[0], s[1..]);
      assert s == [s[0]] + s[1..];
      RemoveKeyUnique(s[1..], key);
      RemoveKeyKeys(s[1..], key);
      if s[0].key != key {
        UniqueCons(s[0], RemoveKey(s[1..], key));
      }
    }
  }

  /** Removing an absent key changes nothing. */
  lemma {:induction false} RemoveKeyAbsent(s: seq<CacheNode>, key: string)
    requires key !in Keys(s)
    ensures RemoveKey(s, key) == s
  {
    if s != [] {
      assert Keys(s) == [s[0].key] + Keys(s[1..]);
      RemoveKeyAbsent(s[1..], key);
    }
  }

  lemma {:induction false} RemoveKeyAppend(a: seq<CacheNode>, b: seq<CacheNode>, key: string)
    ensures RemoveKey(a + b, key) == RemoveKey(a, key) + RemoveKey(b, key)
  {
    if a != [] {
      assert (a + b)[0] == a[0] && (a + b)[1..] == a[1..] + b;
      RemoveKeyAppend(a[1..], b, key);
    } else {
      assert a + b == b;
    }
  }

  /** Under unique keys, the key of the node at position |a| occurs neither in a nor in b. */
  lemma UniqueSplit(a: seq<CacheNode>, n: CacheNode, b: seq<CacheNode>)
    requires UniqueKeys(a + [n] + b)
    ensures n.key !in Keys(a) && n.key !in Keys(b)
  {
    var s := a + [n] + b;
    assert s[|a|] == n;
    forall i | 0 <= i < |a| ensures Keys(a)[i] != n.key {
      assert s[i] == a[i];
    }
    forall i | 0 <= i < |b| ensures Keys(b)[i] != n.key {
      assert s[|a| + 1 + i] == b[i];
    }
  }

  /** Removing a key's node leaves every other node in its relative order. */
  lemma RemoveKeySplit(a: seq<CacheNode>, n: CacheNode, b: seq<CacheNode>)
    requires UniqueKeys(a + [n] + b)
    ensures RemoveKey(a + [n] + b, n.key) == a + b
  {
    UniqueSplit(a, n, b);
    RemoveKeyOnly(a, n, b);
  }

  lemma RemoveKeyOnly(a: seq<CacheNode>, n: CacheNode, b: seq<CacheNode>)
    requires n.key !in Keys(a) && n.key !in Keys(b)
    ensures RemoveKey(a + [n] + b, n.key) == a + b
  {
    RemoveKeyAppend3(a, [n], b, n.key);
    RemoveKeySingle(n);
    RemoveKeyAbsentPair(a, b, n.key);
  }

  lemma RemoveKeySingle(n: CacheNode)
    ensures RemoveKey([n], n.key) == []
  {
    assert [n][1..] == [];
  }

  lemma RemoveKeyAppend3(a: seq<CacheNode>, m: seq<CacheNode>, b: seq<CacheNode>, key: string)
    ensures RemoveKey(a + m + b, key) == RemoveKey(a, key) + RemoveKey(m, key) + RemoveKey(b, key)
  {
    RemoveKeyAppend(a + m, b, key);
    RemoveKeyAppend(a, m, key);
  }

  lemma RemoveKeyAbsentPair(a: seq<CacheNode>, b: seq<CacheNode>, key: string)
    requires key !in Keys(a) && key !in Keys(b)
    ensures RemoveKey(a, key) + RemoveKey(b, key) == a + b
  {
    RemoveKeyAbsent(a, key);
    RemoveKeyAbsent(b, key);
  }

  lemma RemoveKeyConsistent(s: seq<CacheNode>, m: map<string, CacheNode>, key: string)
    requires Consistent(s, m)
    ensures Consistent(RemoveKey(s, key), m - {key})
  {
    var r := RemoveKey(s, key);
    RemoveKeyUnique(s, key);
    RemoveKeyKeys(s, key);
    forall i | 0 <= i < |r| ensures r[i].key in m - {key} && (m - {key})[r[i].key] == r[i] {
      assert r[i] in s;
    }
  }

  lemma PushFrontConsistent(n: CacheNode, s: seq<CacheNode>, m: map<string, CacheNode>)
    requires Consistent(s, m) && n.key !in m
    ensures Consistent([n] + s, m[n.key := n])
  {
    UniqueCons(n, s);
    assert Keys([n] + s) == [n.key] + Keys(s);
    var t := [n] + s;
    forall i | 0 <= i < |t| ensures t[i].key in m[n.key := n] && m[n.key := n][t[i].key] == t[i] {
      if i > 0 {
        assert t[i] == s[i - 1];
        assert s[i - 1].key in Keys(s);
      }
    }
  }

  lemma MoveToFrontConsistent(n: CacheNode, s: seq<CacheNode>, m: map<string, CacheNode>)
    requires Consistent(s, m)
    ensures Consistent([n] + RemoveKey(s, n.key), m[n.key := n])
  {
    RemoveKeyConsistent(s, m, n.key);
    PushFrontConsistent(n, RemoveKey(s, n.key), m - {n.key});
    assert (m - {n.key})[n.key := n] == m[n.key := n];
  }

  lemma DropBackConsistent(s: seq<CacheNode>, m: map<string, CacheNode>)
    requires Consistent(s, m) && s != []
    ensures Consistent(DropBack(s), m - {s[|s| - 1].key})
  {
    DropBackIsRemove(s);
    RemoveKeyConsistent(s, m, s[|s| - 1].key);
  }

  lemma DropBackIsRemove(s: seq<CacheNode>)
    requires UniqueKeys(s) && s != []
    ensures DropBack(s) == RemoveKey(s, s[|s| - 1].key)
  {
    var t := s[..|s| - 1];
    assert s == t + [s[|s| - 1]] + [];
    RemoveKeySplit(t, s[|s| - 1], []);
    assert t + [] == t;
  }

  lemma LookupByMap(s: seq<CacheNode>, m: map<string, CacheNode>, key: string)
    requires Consistent(s, m)
    ensures key in m <==> Lookup(s, key).Some?
    ensures key in m ==> Lookup(s, key) == Some(m[key])
  {
    LookupKeys(s, key);
    if key in m {
      var n := Lookup(s, key).value;
      var i :| 0 <= i < |s| && s[i] == n;
      assert m[s[i].key] == s[i];
    }
  }

  // ------------------------------------------------------------------
  // Properties of the operations
  // ------------------------------------------------------------------

  /** The map is a function of the list: two maps consistent with one list are equal. */
  lemma ConsistentDetermined(s: seq<CacheNode>, m1: map<string, CacheNode>, m2: map<string, CacheNode>)
    requires Consistent(s, m1) && Consistent(s, m2)
    ensures m1 == m2
  {
    forall k | k in m1 ensures k in m2 && m1[k] == m2[k] {
      var i :| 0 <= i < |s| && Keys(s)[i] == k;
      assert m1[s[i].key] == s[i] == m2[s[i].key];
    }
  }

  /**
    Put on an existing key: the new node holds the new value and the expiry
    ttl asks for, it is at the front, the other nodes stay in order behind it,
    nothing is evicted and the number of entries is unchanged.
  */
  lemma InsertExisting(a: seq<CacheNode>, prev: CacheNode, b: seq<CacheNode>,
                       value: string, length: int, ttl: int, now: int)
    requires UniqueKeys(a + [prev] + b)
    ensures var r := Insert(a + [prev] + b, prev.key, value, length, ttl, now);
      && r == [CacheNode(prev.key, value, if ttl > 0 then Some(now + ttl) else None)] + a + b
      && |r| == |a + [prev] + b|
      && (forall k :: k in Keys(r) <==> k in Keys(a + [prev] + b))
  {
    var s := a + [prev] + b;
    var n := CacheNode(prev.key, value, ExpiryFor(ttl, now));
    KeysSplit(a, prev, b);
    LookupKeys(s, prev.key);
    RemoveKeySplit(a, prev, b);
    assert Insert(s, prev.key, value, length, ttl, now) == [n] + (a + b);
    FrontAssoc(n, a, b);
    MoveKeys(a, prev, b, n);
  }

  lemma FrontTail(n: CacheNode, t: seq<CacheNode>)
    ensures ([n] + t)[0] == n && ([n] + t)[1..] == t
  {
  }

  lemma FrontAssoc(n: CacheNode, a: seq<CacheNode>, b: seq<CacheNode>)
    ensures [n] + (a + b) == [n] + a + b
  {
  }

  /** Replacing the middle node by a front node with the same key keeps the set of keys. */
  lemma MoveKeys(a: seq<CacheNode>, x: CacheNode, b: seq<CacheNode>, n: CacheNode)
    requires n.key == x.key
    ensures forall k :: k in Keys([n] + (a + b)) <==> k in Keys(a + [x] + b)
  {
    KeysSplit(a, x, b);
    KeysAppend([n], a + b);
    KeysAppend(a, b);
  }

  lemma KeysAppend(a: seq<CacheNode>, b: seq<CacheNode>)
    ensures Keys(a + b) == Keys(a) + Keys(b)
  {
  }

  lemma KeysSplit(a: seq<CacheNode>, n: CacheNode, b: seq<CacheNode>)
    ensures Keys(a + [n] + b) == Keys(a) + [n.key] + Keys(b)
  {
    KeysAppend(a + [n], b);
    KeysAppend(a, [n]);
  }

  /**
    Put on a new key into a full list evicts exactly the back (least recently
    used) node and keeps all the others, behind the new node.
  */
  lemma InsertEvictsBack(s: seq<CacheNode>, key: string, value: string, length: int, ttl: int, now: int)
    requires UniqueKeys(s) && key !in Keys(s)
    requires |s| >= length && s != []
    ensures var r := Insert(s, key, value, length, ttl, now);
      && r[0] == CacheNode(key, value, ExpiryFor(ttl, now))
      && r[1..] == s[..|s| - 1]
      && s[|s| - 1].key !in Keys(r)
  {
    var n := CacheNode(key, value, ExpiryFor(ttl, now));
    var t, last := s[..|s| - 1], s[|s| - 1];
    LookupKeys(s, key);
    assert Insert(s, key, value, length, ttl, now) == [n] + t;
    FrontTail(n, t);
    KeysAppend([n], t);
    assert key != last.key by { assert Keys(s)[|s| - 1] == last.key; }
    forall i | 0 <= i < |t| ensures Keys(t)[i] != last.key {
      assert t[i] == s[i];
    }
  }

  /** With capacity at least one, Put never takes the entry count above the capacity. */
  lemma InsertCapacity(s: seq<CacheNode>, key: string, value: string, length: int, ttl: int, now: int)
    requires UniqueKeys(s) && 1 <= length && |s| <= length
    ensures |Insert(s, key, value, length, ttl, now)| <= length
  {
    LookupKeys(s, key);
    if Lookup(s, key).Some? {
      RemoveKeyKeys(s, key);
      RemoveKeyShorter(s, key);
    }
  }

  /** Removing a listed key shortens the list. */
  lemma {:induction false} RemoveKeyShorter(s: seq<CacheNode>, key: string)
    requires key in Keys(s)
    ensures |RemoveKey(s, key)| < |s|
  {
    assert Keys(s) == [s[0].key] + Keys(s[1..]);
    RemoveKeyKeys(s[1..], key);
    if s[0].key != key {
      RemoveKeyShorter(s[1..], key);
    }
  }

  /**
    Get on a present, live key returns its value and moves its node to the
    front; the other nodes keep their relative order.
  */
  lemma FetchLive(a: seq<CacheNode>, n: CacheNode, b: seq<CacheNode>, now: int)
    requires UniqueKeys(a + [n] + b) && Live(n, now)
    ensures Fetch(a + [n] + b, n.key, now) == Fetched(n.value, [n] + a + b)
  {
    FetchSplit(a, n, b);
  }

  /** Get on an expired key drops its node (and map entry) and returns "". */
  lemma FetchExpired(a: seq<CacheNode>, n: CacheNode, b: seq<CacheNode>, now: int)
    requires UniqueKeys(a + [n] + b) && !Live(n, now)
    ensures Fetch(a + [n] + b, n.key, now) == Fetched("", a + b)
  {
    FetchSplit(a, n, b);
  }

  lemma FetchSplit(a: seq<CacheNode>, n: CacheNode, b: seq<CacheNode>)
    requires UniqueKeys(a + [n] + b)
    ensures Lookup(a + [n] + b, n.key) == Some(n)
    ensures RemoveKey(a + [n] + b, n.key) == a + b
  {
    var s := a + [n] + b;
    LookupKeys(s, n.key);
    assert s[|a|] == n && Keys(s)[|a|] == n.key;
    var m := Lookup(s, n.key).value;
    var i :| 0 <= i < |s| && s[i] == m;
    assert s[i].key == s[|a|].key;
    RemoveKeySplit(a, n, b);
  }

  /** Get on an absent key returns "" and changes nothing. */
  lemma FetchAbsent(s: seq<CacheNode>, key: string, now: int)
    requires key !in Keys(s)
    ensures Fetch(s, key, now) == Fetched("", s)
  {
    LookupKeys(s, key);
  }

  /** A Get right after a Put of the same key, at the same instant, returns the value put. */
  lemma PutThenGet(s: seq<CacheNode>, key: string, value: string, length: int, ttl: int, now: int)
    ensures Fetch(Insert(s, key, value, length, ttl, now), key, now).value == value
  {
  }

  /** After Del, Get on that key misses and leaves the list as Del left it. */
  lemma DelThenGet(s: seq<CacheNode>, key: string, now: int)
    ensures Fetch(RemoveKey(s, key), key, now) == Fetched("", RemoveKey(s, key))
  {
    RemoveKeyKeys(s, key);
    FetchAbsent(RemoveKey(s, key), key, now);
  }

  lemma {:induction false} LiveNodesAppend(a: seq<CacheNode>, b: seq<CacheNode>, now: int)
    ensures LiveNodes(a + b, now) == LiveNodes(a, now) + LiveNodes(b, now)
  {
    if b != [] {
      var c := b[..|b| - 1];
      assert (a + b)[..|a + b| - 1] == a + c;
      LiveNodesAppend(a, c, now);
    } else {
      assert a + b == a;
    }
  }

  /**
    Print keeps exactly the live nodes, each in the order the list had them:
    the result is a sub-sequence, and it distributes over concatenation.
  */
  lemma {:induction false} LiveNodesExact(s: seq<CacheNode>, now: int)
    ensures forall n :: n in LiveNodes(s, now) <==> n in s && Live(n, now)
    ensures forall a, b :: s == a + b ==> LiveNodes(s, now) == LiveNodes(a, now) + LiveNodes(b, now)
  {
    if s != [] {
      LiveNodesExact(s[..|s| - 1], now);
      assert s == s[..|s| - 1] + [s[|s| - 1]];
    }
    forall a, b | s == a + b ensures LiveNodes(s, now) == LiveNodes(a, now) + LiveNodes(b, now) {
      LiveNodesAppend(a, b, now);
    }
  }

  lemma {:induction false} SweepAppend(a: seq<CacheNode>, b: seq<CacheNode>, now: int)
    ensures Sweep(a + b, now) == Sweep(a, now) + Sweep(b, now)
  {
    if b != [] {
      var c := b[..|b| - 1];
      assert (a + b)[..|a + b| - 1] == a + c;
      SweepAppend(a, c, now);
    } else {
      assert a + b == a;
    }
  }

  /** cleanup removes exactly the nodes whose expiry is strictly before now and keeps the rest in order. */
  lemma {:induction false} SweepExact(s: seq<CacheNode>, now: int)
    ensures forall n :: n in Sweep(s, now) <==> n in s && !Stale(n, now)
    ensures forall a, b :: s == a + b ==> Sweep(s, now) == Sweep(a, now) + Sweep(b, now)
  {
    if s != [] {
      SweepExact(s[..|s| - 1], now);
      assert s == s[..|s| - 1] + [s[|s| - 1]];
    }
    forall a, b | s == a + b ensures Sweep(s, now) == Sweep(a, now) + Sweep(b, now) {
      SweepAppend(a, b, now);
    }
  }

  /**
    A node expiring exactly at `now` survives cleanup (Before) but counts as
    expired for Get and Print (After).
  */
  lemma ExpiryBoundary(n: CacheNode, now: int)
    requires n.expireAt == Some(now)
    ensures Sweep([n], now) == [n]
    ensures LiveNodes([n], now) == []
    ensures Fetch([n], n.key, now) == Fetched("", [])
  {
    assert [n][..0] == [];
    assert Lookup([n], n.key) == Some(n);
    RemoveKeySingle(n);
  }

  /** The walk's cursor: the node at j sits right after the part already walked. */
  lemma Cursor(done: seq<CacheNode>, nodes: seq<CacheNode>, j: nat, list: seq<CacheNode>)
    requires j < |nodes| && list == done + nodes[j..]
    ensures list == done + [nodes[j]] + nodes[j + 1..]
    ensures |done| < |list| && list[|done|] == nodes[j]
  {
    assert nodes[j..] == [nodes[j]] + nodes[j + 1..];
  }

  lemma LiveNodesPrefix(nodes: seq<CacheNode>, j: nat, now: int)
    requires j < |nodes|
    ensures Live(nodes[j], now) ==> LiveNodes(nodes[..j + 1], now) == LiveNodes(nodes[..j], now) + [nodes[j]]
    ensures !Live(nodes[j], now) ==> LiveNodes(nodes[..j + 1], now) == LiveNodes(nodes[..j], now)
  {
    assert nodes[..j + 1][..j] == nodes[..j];
    assert LiveNodes(nodes[..j], now) + [] == LiveNodes(nodes[..j], now);
  }

  lemma ItemsSnoc(s: seq<CacheNode>, n: CacheNode)
    ensures Items(s + [n]) == Items(s) + [Pair(n.key, n.value)]
  {
    assert (s + [n])[..|s|] == s;
  }

  lemma SweepPrefix(nodes: seq<CacheNode>, j: nat, now: int)
    requires j < |nodes|
    ensures !Stale(nodes[j], now) ==> Sweep(nodes[..j + 1], now) == Sweep(nodes[..j], now) + [nodes[j]]
    ensures Stale(nodes[j], now) ==> Sweep(nodes[..j + 1], now) == Sweep(nodes[..j], now)
  {
    assert nodes[..j + 1][..j] == nodes[..j];
    assert Sweep(nodes[..j], now) + [] == Sweep(nodes[..j], now);
  }

  /** One step of Print's walk over the snapshot `nodes`: the node at j is kept or unlinked. */
  lemma PrintStep(nodes: seq<CacheNode>, j: nat, list: seq<CacheNode>, m: map<string, CacheNode>, now: int)
    requires j < |nodes| && Consistent(list, m)
    requires list == LiveNodes(nodes[..j], now) + nodes[j..]
    ensures nodes[j].key in m
    ensures Live(nodes[j], now) ==> list == LiveNodes(nodes[..j + 1], now) + nodes[j + 1..]
    ensures Live(nodes[j], now) ==>
      Items(LiveNodes(nodes[..j + 1], now)) == Items(LiveNodes(nodes[..j], now)) + [Pair(nodes[j].key, nodes[j].value)]
    ensures !Live(nodes[j], now) ==> LiveNodes(nodes[..j + 1], now) == LiveNodes(nodes[..j], now)
    ensures !Live(nodes[j], now) ==> RemoveKey(list, nodes[j].key) == LiveNodes(nodes[..j + 1], now) + nodes[j + 1..]
  {
    var done := LiveNodes(nodes[..j], now);
    Cursor(done, nodes, j, list);
    assert list[|done|].key in m;
    LiveNodesPrefix(nodes, j, now);
    if Live(nodes[j], now) {
      ItemsSnoc(done, nodes[j]);
    } else {
      RemoveKeySplit(done, nodes[j], nodes[j + 1..]);
    }
  }

  /** One step of cleanup's walk over the snapshot `nodes`. */
  lemma SweepStep(nodes: seq<CacheNode>, j: nat, list: seq<CacheNode>, m: map<string, CacheNode>, now: int)
    requires j < |nodes| && Consistent(list, m)
    requires list == Sweep(nodes[..j], now) + nodes[j..]
    ensures nodes[j].key in m
    ensures !Stale(nodes[j], now) ==> list == Sweep(nodes[..j + 1], now) + nodes[j + 1..]
    ensures Stale(nodes[j], now) ==> RemoveKey(list, nodes[j].key) == Sweep(nodes[..j + 1], now) + nodes[j + 1..]
  {
    var done := Sweep(nodes[..j], now);
    Cursor(done, nodes, j, list);
    assert list[|done|].key in m;
    SweepPrefix(nodes, j, now);
    if Stale(nodes[j], now) {
      RemoveKeySplit(done, nodes[j], nodes[j + 1..]);
    }
  }

  /** The state of Print's walk after j nodes of the snapshot `nodes`. */
  ghost predicate Printing(nodes: seq<CacheNode>, j: nat, list: seq<CacheNode>, m: map<string, CacheNode>,
                           items: seq<string>, now: int)
  {
    && j <= |nodes|
    && Consistent(list, m)
    && list == LiveNodes(nodes[..j], now) + nodes[j..]
    && items == Items(LiveNodes(nodes[..j], now))
  }

  lemma PrintStart(nodes: seq<CacheNode>, m: map<string, CacheNode>, now: int)
    requires Consistent(nodes, m)
    ensures Printing(nodes, 0, nodes, m, [], now)
  {
    assert nodes[..0] == [];
  }

  /** A live node is shown and stays. */
  lemma PrintKeep(nodes: seq<CacheNode>, j: nat, list: seq<CacheNode>, m: map<string, CacheNode>,
                  items: seq<string>, now: int)
    requires j < |nodes| && Printing(nodes, j, list, m, items, now) && Live(nodes[j], now)
    ensures Printing(nodes, j + 1, list, m, items + [Pair(nodes[j].key, nodes[j].value)], now)
  {
    PrintStep(nodes, j, list, m, now);
  }

  /** An expired node is unlinked and its map entry deleted. */
  lemma PrintDrop(nodes: seq<CacheNode>, j: nat, list: seq<CacheNode>, m: map<string, CacheNode>,
                  items: seq<string>, now: int)
    requires j < |nodes| && Printing(nodes, j, list, m, items, now) && !Live(nodes[j], now)
    ensures Printing(nodes, j + 1, RemoveKey(list, nodes[j].key), m - {nodes[j].key}, items, now)
  {
    PrintStep(nodes, j, list, m, now);
    RemoveKeyConsistent(list, m, nodes[j].key);
  }

  lemma PrintDone(nodes: seq<CacheNode>, j: nat, list: seq<CacheNode>, m: map<string, CacheNode>,
                  items: seq<string>, now: int)
    requires Printing(nodes, j, list, m, items, now) && j >= |nodes|
    ensures Consistent(list, m) && list == LiveNodes(nodes, now) && Join(items) == Render(LiveNodes(nodes, now))
  {
    assert nodes[..j] == nodes;
    assert nodes[j..] == [];
  }

  /** The state of cleanup's walk after j nodes of the snapshot `nodes`. */
  ghost predicate Sweeping(nodes: seq<CacheNode>, j: nat, list: seq<CacheNode>, m: map<string, CacheNode>, now: int)
  {
    && j <= |nodes|
    && Consistent(list, m)
    && list == Sweep(nodes[..j], now) + nodes[j..]
  }

  lemma SweepStart(nodes: seq<CacheNode>, m: map<string, CacheNode>, now: int)
    requires Consistent(nodes, m)
    ensures Sweeping(nodes, 0, nodes, m, now)
  {
    assert nodes[..0] == [];
  }

  lemma SweepKeep(nodes: seq<CacheNode>, j: nat, list: seq<CacheNode>, m: map<string, CacheNode>, now: int)
    requires j < |nodes| && Sweeping(nodes, j, list, m, now) && !Stale(nodes[j], now)
    ensures Sweeping(nodes, j + 1, list, m, now)
  {
    SweepStep(nodes, j, list, m, now);
  }

  lemma SweepDrop(nodes: seq<CacheNode>, j: nat, list: seq<CacheNode>, m: map<string, CacheNode>, now: int)
    requires j < |nodes| && Sweeping(nodes, j, list, m, now) && Stale(nodes[j], now)
    ensures Sweeping(nodes, j + 1, RemoveKey(list, nodes[j].key), m - {nodes[j].key}, now)
  {
    SweepStep(nodes, j, list, m, now);
    RemoveKeyConsistent(list, m, nodes[j].key);
  }

  lemma SweepDone(nodes: seq<CacheNode>, j: nat, list: seq<CacheNode>, m: map<string, CacheNode>, now: int)
    requires Sweeping(nodes, j, list, m, now) && j >= |nodes|
    ensures Consistent(list, m) && list == Sweep(nodes, now)
  {
    assert nodes[..j] == nodes;
    assert nodes[j..] == [];
  }

  // ------------------------------------------------------------------
  // The store itself
  // ------------------------------------------------------------------

  /** The process-local store: recency list and key map, updated in place. */
  class LRUCache {
    var list: seq<CacheNode>
    var cache: map<string, CacheNode>

    ghost predicate Valid()
      reads this
    {
      Consistent(list, cache)
    }

    /** A new store is empty. */
    constructor ()
      ensures Valid() && list == [] && cache == map[]
    {
      list := [];
      cache := map[];
    }

    /** Get: see Fetch. */
    method Get(key: string, now: int) returns (v: string)
      requires Valid()
      modifies this
      ensures Valid()
      ensures v == Fetch(old(list), key, now).value
      ensures list == Fetch(old(list), key, now).list
    {
      LookupByMap(list, cache, key);
      if key in cache {
        var node := cache[key];
        if Live(node, now) {
          MoveToFrontConsistent(node, list, cache);
          assert cache[node.key := node] == cache;
          list := [node] + RemoveKey(list, key);
          return node.value;
        }
        RemoveKeyConsistent(list, cache, key);
        list := RemoveKey(list, key);
        cache := cache - {key};
      }
      return "";
    }

    /** Put: see Insert. */
    method Put(key: string, value: string, length: int, ttl: int, now: int)
      requires Valid()
      modifies this
      ensures Valid()
      ensures list == Insert(old(list), key, value, length, ttl, now)
    {
      LookupByMap(list, cache, key);
      if key in cache {
        var node := CacheNode(key, value, ExpiryFor(ttl, now));
        MoveToFrontConsistent(node, list, cache);
        cache := cache[key := node];
        list := [node] + RemoveKey(list, key);
        return;
      }
      if |list| >= length {
        Evict();
      }
      var node := CacheNode(key, value, ExpiryFor(ttl, now));
      PushFrontConsistent(node, list, cache);
      list := [node] + list;
      cache := cache[key := node];
    }

    /** evict: removes the back (least recently used) node, if any. */
    method Evict()
      requires Valid()
      modifies this
      ensures Valid()
      ensures list == DropBack(old(list))
      ensures old(list) != [] ==> cache == old(cache) - {old(list)[|old(list)| - 1].key}
      ensures old(list) == [] ==> cache == old(cache)
    {
      if |list| > 0 {
        var evicted := list[|list| - 1];
        DropBackConsistent(list, cache);
        list := list[..|list| - 1];
        cache := cache - {evicted.key};
      }
    }

    /** Del: removes the key's node and map entry when present; otherwise a no-op. */
    method Del(key: string)
      requires Valid()
      modifies this
      ensures Valid()
      ensures list == RemoveKey(old(list), key)
      ensures cache == old(cache) - {key}
    {
      if key in cache {
        RemoveKeyConsistent(list, cache, key);
        list := RemoveKey(list, key);
        cache := cache - {key};
      } else {
        RemoveKeyAbsent(list, key);
        assert cache - {key} == cache;
      }
    }

    /** DEL_ALL: empties list and map. */
    method DelAll()
      requires Valid()
      modifies this
      ensures Valid() && list == [] && cache == map[]
    {
      list := [];
      cache := map[];
    }

    /**
      Print: walks the list front to back, collecting `key:value` for each live
      node and removing each expired one it passes.
    */
    method Print(now: int) returns (s: string)
      requires Valid()
      modifies this
      ensures Valid()
      ensures list == LiveNodes(old(list), now)
      ensures s == Render(LiveNodes(old(list), now))
    {
      var nodes, l, m := list, list, cache;
      var orderedItems: seq<string> := [];
      var j := 0;
      PrintStart(nodes, m, now);
      while j < |nodes|
        invariant Printing(nodes, j, l, m, orderedItems, now)
        decreases |nodes| - j
      {
        var node := nodes[j];
        if Live(node, now) {
          PrintKeep(nodes, j, l, m, orderedItems, now);
          orderedItems := orderedItems + [Pair(node.key, node.value)];
          j := j + 1;
        } else {
          PrintDrop(nodes, j, l, m, orderedItems, now);
          l, m := RemoveKey(l, node.key), m - {node.key};
          j := j + 1;
        }
      }
      PrintDone(nodes, j, l, m, orderedItems, now);
      list, cache := l, m;
      s := Join(orderedItems);
    }

    /** cleanup: removes every node whose expiry is strictly before `now`. */
    method Cleanup(now: int)
      requires Valid()
      modifies this
      ensures Valid()
      ensures list == Sweep(old(list), now)
    {
      var nodes, l, m := list, list, cache;
      var j := 0;
      SweepStart(nodes, m, now);
      while j < |nodes|
        invariant Sweeping(nodes, j, l, m, now)
        decreases |nodes| - j
      {
        var node := nodes[j];
        if Stale(node, now) {
          SweepDrop(nodes, j, l, m, now);
          l, m := RemoveKey(l, node.key), m - {node.key};
          j := j + 1;
        } else {
          SweepKeep(nodes, j, l, m, now);
          j := j + 1;
        }
      }
      SweepDone(nodes, j, l, m, now);
      list, cache := l, m;
    }
  }

  /** The lists of the capacity-2 scenario below, step by step. */
  lemma ScenarioLists()
    ensures Insert([], "a1", "1", 2, 0, 0) == [CacheNode("a1", "1", None)]
    ensures Insert([CacheNode("a1", "1", None)], "b1", "2", 2, 0, 0)
         == [CacheNode("b1", "2", None), CacheNode("a1", "1", None)]
    ensures Insert([CacheNode("b1", "2", None), CacheNode("a1", "1", None)], "c1", "3", 2, 0, 0)
         == [CacheNode("c1", "3", None), CacheNode("b1", "2", None)]
  {
    var a1, b1 := CacheNode("a1", "1", None), CacheNode("b1", "2", None);
    assert "a1" != "b1" && "b1" != "c1" && "a1" != "c1";
    assert [a1][1..] == [] && [b1, a1][1..] == [a1];
    assert Lookup([a1], "b1") == None;
    assert Lookup([a1], "c1") == None;
    assert Lookup([b1, a1], "c1") == None;
    assert DropBack([b1, a1]) == [b1];
  }

  /** Two nodes that never expire are both live. */
  lemma LiveTwo(x: CacheNode, y: CacheNode, now: int)
    requires x.expireAt.None? && y.expireAt.None?
    ensures LiveNodes([x, y], now) == [x, y]
  {
    assert [x, y][..1] == [x] && [x, y][1] == y;
    assert [x][..0] == [] && [x][0] == x;
    assert LiveNodes([x], now) == [x];
  }

  /** The text of a two-node list. */
  lemma RenderTwo(x: CacheNode, y: CacheNode)
    ensures Render([x, y]) == Pair(x.key, x.value) + ", " + Pair(y.key, y.value)
  {
    assert [x, y][..1] == [x] && [x, y][1] == y;
    assert [x][..0] == [] && [x][0] == x;
    assert Items([x]) == [Pair(x.key, x.value)];
    var items := [Pair(x.key, x.value), Pair(y.key, y.value)];
    assert Items([x, y]) == items;
    assert items[1..] == [items[1]];
    assert Join(items[1..]) == items[1];
    assert Join(items) == items[0] + ", " + items[1];
  }

  /** What Print shows, and keeps, for the two lists of the scenario. */
  lemma ScenarioTexts()
    ensures LiveNodes([CacheNode("b1", "2", None), CacheNode("a1", "1", None)], 0)
         == [CacheNode("b1", "2", None), CacheNode("a1", "1", None)]
    ensures LiveNodes([CacheNode("c1", "3", None), CacheNode("b1", "2", None)], 0)
         == [CacheNode("c1", "3", None), CacheNode("b1", "2", None)]
    ensures Render([CacheNode("b1", "2", None), CacheNode("a1", "1", None)]) == "b1:2, a1:1"
    ensures Render([CacheNode("c1", "3", None), CacheNode("b1", "2", None)]) == "c1:3, b1:2"
  {
    var a1, b1, c1 := CacheNode("a1", "1", None), CacheNode("b1", "2", None), CacheNode("c1", "3", None);
    LiveTwo(b1, a1, 0);
    LiveTwo(c1, b1, 0);
    RenderTwo(b1, a1);
    RenderTwo(c1, b1);
    assert Pair("a1", "1") == "a1:1" && Pair("b1", "2") == "b1:2" && Pair("c1", "3") == "c1:3";
    assert "b1:2" + ", " + "a1:1" == "b1:2, a1:1";
    assert "c1:3" + ", " + "b1:2" == "c1:3, b1:2";
  }

  /**
    Capacity 2: after Put a1=1 and b1=2 Print gives "b1:2, a1:1"; after a
    further Put c1=3 it gives "c1:3, b1:2" (a1 was evicted).
  */
  method PrintScenario() returns (first: string, second: string)
    ensures first == "b1:2, a1:1"
    ensures second == "c1:3, b1:2"
  {
    ScenarioLists();
    ScenarioTexts();
    var c := new LRUCache();
    c.Put("a1", "1", 2, 0, 0);
    c.Put("b1", "2", 2, 0, 0);
    first := c.Print(0);
    c.Put("c1", "3", 2, 0, 0);
    second := c.Print(0);
  }
}
