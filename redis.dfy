/**
  The Redis-backed LRU store. The server holds a list stored under the key
  "cache" (front = most recently used) and one string value per cached key,
  each with an optional native expiry. The model keeps the two as a sequence
  of keys and a map from key to entry; the server's own expiry is the
  explicit step `Expire(now)`.

  A call that ends in `log.Fatalf` is modelled by its outcome `Failed(cause)`
  together with the server state at that moment.
*/
module Redis {
  import opened Common

  /** A stored value and its native expiry deadline (`None`: no expiry). */
  datatype Entry = Entry(value: string, deadline: Option<int>)

  /** Why a call ends the process. */
  datatype Fatal =
    | InvalidTtl(ttl: int)         // Put with a ttl that is neither -1 nor positive
    | IndexOutOfRange(index: int)  // LINDEX past the end of the list in evictItems
    | PopEmpty                     // RPOP on an empty list in evictItems

  datatype Outcome = Done | Failed(cause: Fatal)

  /** The outcome of a state-changing call and the server state it leaves. */
  datatype Step = Step(outcome: Outcome, list: seq<string>, values: map<string, Entry>)

  /** What Get returns and the list it leaves. */
  datatype Fetched = Fetched(value: string, list: seq<string>)

  /** The server drops a key once its deadline is reached. */
  predicate Expired(e: Entry, now: int)
  {
    e.deadline.Some? && e.deadline.value <= now
  }

  // ------------------------------------------------------------------
  // The list under "cache"
  // ------------------------------------------------------------------

  /** The set of keys listed in `s`. */
  function Elems(s: seq<string>): set<string>
  {
    set x | x in s
  }

  /** The list with every occurrence of a key in `gone` removed. */
  function Without(l: seq<string>, gone: set<string>): seq<string>
  {
    if l == [] then []
    else (if l[0] in gone then [] else [l[0]]) + Without(l[1..], gone)
  }

  /** `LREM cache 0 key`: every occurrence of `key` removed. */
  function LRem(l: seq<string>, key: string): seq<string>
  {
    Without(l, {key})
  }

  /** The listed keys that have no value any more. */
  function Missing(l: seq<string>, values: map<string, Entry>): set<string>
  {
    set k | k in l && k !in values
  }

  /** The list with every key that has no value removed. */
  function Present(l: seq<string>, values: map<string, Entry>): seq<string>
  {
    Without(l, Missing(l, values))
  }

  /** No key without a value occurs twice in the list. */
  predicate NoMissingDup(l: seq<string>, values: map<string, Entry>)
  {
    forall k :: k in l && k !in values ==> multiset(l)[k] <= 1
  }

  /** The formatted `key:value` items Print collects, in list order. */
  function Shown(l: seq<string>, values: map<string, Entry>): seq<string>
  {
    if l == [] then []
    else
      var k := l[|l| - 1];
      Shown(l[..|l| - 1], values) + (if k in values then [Pair(k, values[k].value)] else [])
  }

  // ------------------------------------------------------------------
  // The operations on values
  // ------------------------------------------------------------------

  /**
    evictItems: the scan drops every key without a value, and is fatal once it
    reads past the end, which happens exactly when such a key occurred more
    than once (LREM removes all of them, the counter only one); then keys are
    popped from the back, and their values deleted, down to `maxLength`.
  */
  function Evict(l: seq<string>, values: map<string, Entry>, maxLength: int): Step
  {
    var kept := Present(l, values);
    if !NoMissingDup(l, values) then Step(Failed(IndexOutOfRange(|kept|)), kept, values)
    else Trim(kept, values, maxLength)
  }

  /**
    The second loop of evictItems: RPOP and DEL until at most `maxLength` keys
    are listed; RPOP on an empty list is fatal, so a negative bound always is.
  */
  function Trim(l: seq<string>, values: map<string, Entry>, maxLength: int): Step
  {
    if maxLength < 0 then Step(Failed(PopEmpty), [], values - Elems(l))
    else if |l| <= maxLength then Step(Done, l, values)
    else Step(Done, l[..maxLength], values - Elems(l[maxLength..]))
  }

  /** The entry a write with `ttl` stores (only for ttl == -1 or ttl > 0). */
  function EntryFor(value: string, ttl: int, now: int): Entry
  {
    Entry(value, if ttl > 0 then Some(now + ttl) else None)
  }

  /** The list after Put's LREM (only if the key has a value) and LPUSH. */
  function Pushed(l: seq<string>, values: map<string, Entry>, key: string): seq<string>
  {
    [key] + (if key in values then LRem(l, key) else l)
  }

  /** Put: move or push the key to the front, store the value, evict. */
  function Store(l: seq<string>, values: map<string, Entry>, key: string, value: string,
                 maxLength: int, ttl: int, now: int): Step
  {
    var pushed := Pushed(l, values, key);
    if ttl == -1 || ttl > 0 then Evict(pushed, values[key := EntryFor(value, ttl, now)], maxLength)
    else Step(Failed(InvalidTtl(ttl)), pushed, values)
  }

  /** Get: the value, and the key moved to the front; a miss changes nothing. */
  function Load(l: seq<string>, values: map<string, Entry>, key: string): Fetched
  {
    if key in values then Fetched(values[key].value, [key] + LRem(l, key))
    else Fetched("", l)
  }

  /** The values the server still holds at `now`. */
  function Unexpired(values: map<string, Entry>, now: int): map<string, Entry>
  {
    map k | k in values && !Expired(values[k], now) :: values[k]
  }

  // ------------------------------------------------------------------
  // Facts about Without
  // ------------------------------------------------------------------

  lemma {:induction false} WithoutAppend(a: seq<string>, b: seq<string>, gone: set<string>)
    ensures Without(a + b, gone) == Without(a, gone) + Without(b, gone)
  {
    if a == [] {
      assert a + b == b;
    } else {
      assert (a + b)[1..] == a[1..] + b;
      WithoutAppend(a[1..], b, gone);
    }
  }

  lemma {:induction false} WithoutCount(l: seq<string>, gone: set<string>, x: string)
    ensures multiset(Without(l, gone))[x] == if x in gone then 0 else multiset(l)[x]
  {
    if l != [] {
      assert l == [l[0]] + l[1..];
      WithoutCount(l[1..], gone, x);
    }
  }

  lemma WithoutMember(l: seq<string>, gone: set<string>, x: string)
    ensures x in Without(l, gone) <==> x in l && x !in gone
  {
    WithoutCount(l, gone, x);
    assert x in Without(l, gone) <==> x in multiset(Without(l, gone));
    assert x in l <==> x in multiset(l);
  }

  lemma {:induction false} WithoutLength(l: seq<string>, x: string)
    ensures |Without(l, {x})| == |l| - multiset(l)[x]
  {
    if l != [] {
      assert l == [l[0]] + l[1..];
      WithoutLength(l[1..], x);
    }
  }

  lemma {:induction false} WithoutShorter(l: seq<string>, gone: set<string>)
    ensures |Without(l, gone)| <= |l|
  {
    if l != [] {
      WithoutShorter(l[1..], gone);
    }
  }

  lemma {:induction false} WithoutTwice(l: seq<string>, a: set<string>, b: set<string>)
    ensures Without(Without(l, a), b) == Without(l, a + b)
  {
    if l != [] {
      WithoutTwice(l[1..], a, b);
      var head := if l[0] in a then [] else [l[0]];
      WithoutAppend(head, Without(l[1..], a), b);
      WithoutSingle(l[0], b);
    }
  }

  lemma {:induction false} WithoutAgree(l: seq<string>, a: set<string>, b: set<string>)
    requires forall k :: k in l ==> (k in a <==> k in b)
    ensures Without(l, a) == Without(l, b)
  {
    if l != [] {
      assert l[0] in l;
      forall k | k in l[1..] ensures k in a <==> k in b {
        assert k in l;
      }
      WithoutAgree(l[1..], a, b);
    }
  }

  lemma {:induction false} WithoutNone(l: seq<string>, gone: set<string>)
    requires forall i :: 0 <= i < |l| ==> l[i] !in gone
    ensures Without(l, gone) == l
  {
    if l != [] {
      WithoutNone(l[1..], gone);
      assert l == [l[0]] + l[1..];
    }
  }

  lemma WithoutSingle(k: string, gone: set<string>)
    ensures Without([k], gone) == if k in gone then [] else [k]
  {
    assert [k][1..] == [];
  }

  lemma PresentAll(l: seq<string>, values: map<string, Entry>)
    requires forall i :: 0 <= i < |l| ==> l[i] in values
    ensures Present(l, values) == l
  {
    assert Missing(l, values) == {};
    WithoutNone(l, {});
  }

  lemma ElemsSplit(s: seq<string>, n: nat)
    requires n < |s|
    ensures Elems(s[n..]) == {s[n]} + Elems(s[n + 1..])
  {
    assert s[n..] == [s[n]] + s[n + 1..];
  }

  // ------------------------------------------------------------------
  // Properties of the operations
  // ------------------------------------------------------------------

  /** Present keeps exactly the listed keys that have a value, each as often as listed. */
  lemma PresentExact(l: seq<string>, values: map<string, Entry>, x: string)
    ensures x in Present(l, values) <==> x in l && x in values
    ensures multiset(Present(l, values))[x] == if x in values then multiset(l)[x] else 0
  {
    WithoutMember(l, Missing(l, values), x);
    WithoutCount(l, Missing(l, values), x);
    if x !in l {
      assert x !in multiset(l);
    }
  }

  /** Present keeps the order of the list. */
  lemma PresentAppend(a: seq<string>, b: seq<string>, values: map<string, Entry>)
    ensures Present(a + b, values) == Present(a, values) + Present(b, values)
  {
    var m := Missing(a + b, values);
    WithoutAppend(a, b, m);
    forall k | k in a ensures k in m <==> k in Missing(a, values) {
      assert k in a + b;
    }
    forall k | k in b ensures k in m <==> k in Missing(b, values) {
      assert k in a + b;
    }
    WithoutAgree(a, m, Missing(a, values));
    WithoutAgree(b, m, Missing(b, values));
  }

  /** `items` are the `key:value` strings of the keys `keys`, position by position. */
  ghost predicate Formats(keys: seq<string>, items: seq<string>, values: map<string, Entry>)
  {
    && |items| == |keys|
    && forall i :: 0 <= i < |keys| ==> keys[i] in values && items[i] == Pair(keys[i], values[keys[i]].value)
  }

  /** Print's items are `key:value` of the present keys, in list order. */
  lemma {:induction false} ShownExact(l: seq<string>, values: map<string, Entry>)
    ensures Formats(Present(l, values), Shown(l, values), values)
  {
    if l != [] {
      var init, k := l[..|l| - 1], l[|l| - 1];
      ShownExact(init, values);
      PresentSnoc(l, values);
      FormatsSnoc(Present(init, values), Shown(init, values), k, values);
    }
  }

  /** Present of a list is Present of all but its last key, then that key if it has a value. */
  lemma PresentSnoc(l: seq<string>, values: map<string, Entry>)
    requires l != []
    ensures Present(l, values) == Present(l[..|l| - 1], values) + (if l[|l| - 1] in values then [l[|l| - 1]] else [])
  {
    var init, k := l[..|l| - 1], l[|l| - 1];
    SplitLast(l);
    PresentAppend(init, [k], values);
    assert Missing([k], values) == if k in values then {} else {k};
    WithoutSingle(k, Missing([k], values));
  }

  lemma SplitLast(l: seq<string>)
    requires l != []
    ensures l == l[..|l| - 1] + [l[|l| - 1]]
  {
  }

  lemma FormatsSnoc(keys: seq<string>, items: seq<string>, k: string, values: map<string, Entry>)
    requires Formats(keys, items, values)
    ensures Formats(keys + (if k in values then [k] else []),
                    items + (if k in values then [Pair(k, values[k].value)] else []), values)
  {
  }

  /** The scan never fails on a list without duplicates. */
  lemma UniqueNeverFails(l: seq<string>, values: map<string, Entry>, maxLength: int)
    requires forall i, j :: 0 <= i < j < |l| ==> l[i] != l[j]
    ensures NoMissingDup(l, values)
    ensures 0 <= maxLength ==> Evict(l, values, maxLength).outcome == Done
  {
    forall k | k in l && k !in values ensures multiset(l)[k] <= 1 {
      UniqueCount(l, k);
    }
  }

  lemma {:induction false} UniqueCount(l: seq<string>, k: string)
    requires forall i, j :: 0 <= i < j < |l| ==> l[i] != l[j]
    ensures multiset(l)[k] <= 1
  {
    if l != [] {
      assert l == [l[0]] + l[1..];
      UniqueCount(l[1..], k);
      if l[0] == k {
        forall i | 0 <= i < |l[1..]| ensures l[1..][i] != k {
          assert l[i + 1] != l[0];
        }
        assert k !in l[1..];
        assert k !in multiset(l[1..]);
      }
    }
  }

  /**
    A successful eviction leaves at most `maxLength` keys, a prefix of the kept
    list, deletes the value of every key popped and leaves every other value alone.
  */
  lemma EvictBound(l: seq<string>, values: map<string, Entry>, maxLength: int)
    requires Evict(l, values, maxLength).outcome == Done
    ensures var r := Evict(l, values, maxLength);
      |r.list| <= maxLength && r.list <= Present(l, values) &&
      (forall k :: k in Present(l, values)[|r.list|..] ==> k !in r.values) &&
      (forall k :: k in r.values ==> k in values && r.values[k] == values[k]) &&
      (forall k :: k in values && k !in Present(l, values)[|r.list|..] ==> k in r.values && r.values[k] == values[k])
  {
  }

  /** If no key is listed twice, every key left listed still has its value. */
  lemma EvictKeepsValues(l: seq<string>, values: map<string, Entry>, maxLength: int)
    requires forall i, j :: 0 <= i < j < |l| ==> l[i] != l[j]
    requires 0 <= maxLength
    ensures var r := Evict(l, values, maxLength);
      r.outcome == Done && forall k :: k in r.list ==> k in r.values && r.values[k] == values[k]
  {
    UniqueNeverFails(l, values, maxLength);
    var p := Present(l, values);
    var r := Evict(l, values, maxLength);
    forall k | k in r.list ensures k in r.values && r.values[k] == values[k] {
      var i :| 0 <= i < |r.list| && r.list[i] == k;
      PresentExact(l, values, k);
      if |p| > maxLength {
        assert p == p[..maxLength] + p[maxLength..];
        PresentCountSplit(l, values, p[..maxLength], p[maxLength..], k);
      }
    }
  }

  lemma PresentCountSplit(l: seq<string>, values: map<string, Entry>, a: seq<string>, b: seq<string>, k: string)
    requires forall i, j :: 0 <= i < j < |l| ==> l[i] != l[j]
    requires Present(l, values) == a + b
    requires k in a
    ensures k !in b
  {
    UniqueCount(l, k);
    PresentExact(l, values, k);
    assert multiset(a + b)[k] == multiset(a)[k] + multiset(b)[k];
    assert k in multiset(a);
  }

  /** The scan is fatal exactly when a key without a value is listed twice. */
  lemma EvictFatal(l: seq<string>, values: map<string, Entry>, maxLength: int)
    ensures (Evict(l, values, maxLength).outcome.Failed? &&
             Evict(l, values, maxLength).outcome.cause.IndexOutOfRange?) <==> !NoMissingDup(l, values)
    ensures Evict(l, values, maxLength).outcome == Failed(PopEmpty) <==> NoMissingDup(l, values) && maxLength < 0
  {
  }

  /**
    A write puts the key at the front. Unless the key is listed while its value
    has expired, it is listed exactly once and a later read returns the value.
  */
  lemma StoreThenLoad(l: seq<string>, values: map<string, Entry>, key: string, value: string,
                      maxLength: int, ttl: int, now: int)
    requires ttl == -1 || ttl > 0
    requires 1 <= maxLength
    requires Store(l, values, key, value, maxLength, ttl, now).outcome == Done
    ensures var r := Store(l, values, key, value, maxLength, ttl, now);
      |r.list| <= maxLength && r.list[0] == key
    ensures var r := Store(l, values, key, value, maxLength, ttl, now);
      key in values || key !in l ==>
        multiset(r.list)[key] == 1 && key in r.values && r.values[key] == EntryFor(value, ttl, now) &&
        Load(r.list, r.values, key).value == value
  {
    var pushed := Pushed(l, values, key);
    var v := values[key := EntryFor(value, ttl, now)];
    var p := Present(pushed, v);
    assert pushed == [key] + pushed[1..];
    PresentAppend([key], pushed[1..], v);
    assert Missing([key], v) == {};
    WithoutSingle(key, {});
    assert p == [key] + Present(pushed[1..], v);
    if key in values || key !in l {
      PresentExact(pushed, v, key);
      if key in values {
        WithoutCount(l, {key}, key);
      } else {
        assert key !in multiset(l);
      }
      assert multiset(pushed)[key] == 1;
      if |p| > maxLength {
        assert p == p[..maxLength] + p[maxLength..];
        assert multiset(p) == multiset(p[..maxLength]) + multiset(p[maxLength..]);
        assert key in multiset(p[..maxLength]) by { assert p[..maxLength][0] == key; }
        assert key !in multiset(p[maxLength..]);
        assert key !in p[maxLength..];
      }
    }
  }

  /**
    A write without ttl of a key listed once, with every listed key holding a
    value and room left: LREM and LPUSH move it to the front, nothing is evicted.
  */
  lemma StoreMove(l: seq<string>, values: map<string, Entry>,
                  key: string, value: string, maxLength: int, now: int)
    requires |l| <= maxLength && key in l && key in values
    requires forall i, j :: 0 <= i < j < |l| ==> l[i] != l[j]
    requires forall k :: k in l ==> k in values
    ensures Store(l, values, key, value, maxLength, -1, now) ==
            Step(Done, [key] + LRem(l, key), values[key := Entry(value, None)])
  {
    var v := values[key := Entry(value, None)];
    var pushed := [key] + LRem(l, key);
    assert Pushed(l, values, key) == pushed;
    forall i | 0 <= i < |pushed| ensures pushed[i] in v {
      assert pushed[i] in pushed;
      WithoutMember(l, {key}, pushed[i]);
    }
    PresentAll(pushed, v);
    UniqueCount(l, key);
    assert multiset(l)[key] >= 1 by { assert key in multiset(l); }
    WithoutLength(l, key);
  }

  /** A write without ttl of a new key with room left: LPUSH, nothing is evicted. */
  lemma StorePush(l: seq<string>, values: map<string, Entry>,
                  key: string, value: string, maxLength: int, now: int)
    requires |l| < maxLength && key !in values
    requires forall k :: k in l ==> k in values
    ensures Store(l, values, key, value, maxLength, -1, now) ==
            Step(Done, [key] + l, values[key := Entry(value, None)])
  {
    var v := values[key := Entry(value, None)];
    var pushed := [key] + l;
    assert Pushed(l, values, key) == pushed;
    forall i | 0 <= i < |pushed| ensures pushed[i] in v {
      assert pushed[i] in pushed;
    }
    PresentAll(pushed, v);
  }

  /**
    A write without ttl of a new key into a full list: the back key is popped
    and its value deleted.
  */
  lemma StoreEvictOne(l: seq<string>, values: map<string, Entry>,
                      key: string, value: string, maxLength: int, now: int)
    requires 1 <= maxLength && |l| == maxLength && key !in values
    requires forall k :: k in l ==> k in values
    ensures Store(l, values, key, value, maxLength, -1, now) ==
            Step(Done, [key] + l[..maxLength - 1], values[key := Entry(value, None)] - {l[maxLength - 1]})
  {
    var v := values[key := Entry(value, None)];
    var pushed := [key] + l;
    assert Pushed(l, values, key) == pushed;
    forall i | 0 <= i < |pushed| ensures pushed[i] in v {
      assert pushed[i] in pushed;
    }
    PresentAll(pushed, v);
    PushedTail(key, l);
    PushedFront(key, l);
    assert Elems([l[maxLength - 1]]) == {l[maxLength - 1]};
  }

  lemma PushedTail(key: string, l: seq<string>)
    requires l != []
    ensures ([key] + l)[|l|..] == [l[|l| - 1]]
  {
  }

  lemma PushedFront(key: string, l: seq<string>)
    requires l != []
    ensures ([key] + l)[..|l|] == [key] + l[..|l| - 1]
  {
  }

  /** An invalid ttl is fatal after the key has already been pushed, and no value is written. */
  lemma StoreInvalidTtl(l: seq<string>, values: map<string, Entry>, key: string, value: string,
                        maxLength: int, ttl: int, now: int)
    requires ttl != -1 && ttl <= 0
    ensures var r := Store(l, values, key, value, maxLength, ttl, now);
      r.outcome == Failed(InvalidTtl(ttl)) && r.values == values &&
      r.list[0] == key && |r.list| >= 1 + |l| - multiset(l)[key]
  {
    if key in values {
      WithoutLength(l, key);
    }
  }

  /**
    Below capacity, a write of a key that is listed but has no value (it has
    expired) skips the LREM, and the key stays listed at least twice.
  */
  lemma StaleListedTwice(l: seq<string>, values: map<string, Entry>, key: string, value: string,
                         maxLength: int, ttl: int, now: int)
    requires key in l && key !in values && |l| < maxLength
    requires ttl == -1 || ttl > 0
    ensures multiset(Store(l, values, key, value, maxLength, ttl, now).list)[key] >= 2
  {
    var pushed := Pushed(l, values, key);
    var v := values[key := EntryFor(value, ttl, now)];
    assert pushed == [key] + l;
    assert multiset(pushed)[key] == 1 + multiset(l)[key];
    assert key in multiset(l);
    PresentExact(pushed, v, key);
    WithoutShorter(pushed, Missing(pushed, v));
  }

  /** A key whose value has expired is pushed again without being removed: it is listed twice. */
  lemma StoreExpiredKey()
    ensures Store(["k"], map[], "k", "v", 5, -1, 0) ==
            Step(Done, ["k", "k"], map["k" := Entry("v", None)])
  {
    var v := map["k" := Entry("v", None)];
    assert Pushed(["k"], map[], "k") == ["k", "k"];
    assert Missing(["k", "k"], v) == {};
    WithoutNone(["k", "k"], {});
  }

  /**
    At capacity, a write of a key that is still listed but whose value has
    expired is lost: the pop loop removes the stale copy at the back and
    deletes the value just written, so a later read misses.
  */
  lemma StalePutLosesValue()
    ensures Store(["x", "k"], map["x" := Entry("1", None)], "k", "v", 2, -1, 0) ==
            Step(Done, ["k", "x"], map["x" := Entry("1", None)])
    ensures Load(["k", "x"], map["x" := Entry("1", None)], "k").value == ""
  {
    var e := Entry("1", None);
    var v := map["x" := e][ "k" := Entry("v", None)];
    assert Pushed(["x", "k"], map["x" := e], "k") == ["k", "x", "k"];
    StaleEvict(v);
    DropOneOfTwo("x", "k", e, Entry("v", None));
  }

  /**
    At capacity, when the stale copy is not the back key, the pop loop evicts
    another key instead: the write survives and the key stays listed twice.
  */
  lemma StaleNotAtBack()
    ensures Store(["k", "x"], map["x" := Entry("1", None)], "k", "v", 2, -1, 0) ==
            Step(Done, ["k", "k"], map["k" := Entry("v", None)])
  {
    var e := Entry("1", None);
    var v := map["x" := e]["k" := Entry("v", None)];
    assert Pushed(["k", "x"], map["x" := e], "k") == ["k", "k", "x"];
    var l := ["k", "k", "x"];
    EvictAllPresent(l, v, 2);
    assert l[..2] == ["k", "k"];
    assert l[2..] == ["x"];
    assert Elems(["x"]) == {"x"};
    DropOneOfTwo("x", "k", e, Entry("v", None));
  }

  /**
    At capacity, when every other listed key still has a value and the stale
    copy is the back key, the pop loop removes that copy and deletes the value
    just written: the values end as they were, and a later read misses.
  */
  lemma StaleAtBackLost(l: seq<string>, values: map<string, Entry>, key: string, value: string,
                        maxLength: int, ttl: int, now: int)
    requires 1 <= maxLength == |l| && l[|l| - 1] == key && key !in values
    requires forall x :: x in l && x != key ==> x in values
    requires ttl == -1 || ttl > 0
    ensures var r := Store(l, values, key, value, maxLength, ttl, now);
      r.outcome == Done && r.list == [key] + l[..maxLength - 1] && r.values == values &&
      key !in r.values && Load(r.list, r.values, key).value == ""
  {
    var v := values[key := EntryFor(value, ttl, now)];
    var pushed := [key] + l;
    assert Pushed(l, values, key) == pushed;
    forall i | 0 <= i < |pushed| ensures pushed[i] in v {
      assert pushed[i] in pushed;
    }
    PresentAll(pushed, v);
    PushedTail(key, l);
    PushedFront(key, l);
    assert Elems([key]) == {key};
    assert v - {key} == values;
  }

  /**
    At capacity, when every other listed key still has a value and the stale
    copy is not the back key, the pop loop evicts the back key instead: the
    write survives and the key stays listed twice.
  */
  lemma StaleBeforeBackKept(l: seq<string>, values: map<string, Entry>, key: string, value: string,
                            maxLength: int, ttl: int, now: int)
    requires 1 <= maxLength == |l| && key in l && l[|l| - 1] != key && key !in values
    requires forall x :: x in l && x != key ==> x in values
    requires ttl == -1 || ttl > 0
    ensures var r := Store(l, values, key, value, maxLength, ttl, now);
      r == Step(Done, [key] + l[..maxLength - 1],
                values[key := EntryFor(value, ttl, now)] - {l[maxLength - 1]}) &&
      multiset(r.list)[key] >= 2 && l[maxLength - 1] !in r.values &&
      Load(r.list, r.values, key).value == value
  {
    var v := values[key := EntryFor(value, ttl, now)];
    var pushed := [key] + l;
    assert Pushed(l, values, key) == pushed;
    forall i | 0 <= i < |pushed| ensures pushed[i] in v {
      assert pushed[i] in pushed;
    }
    PresentAll(pushed, v);
    PushedTail(key, l);
    PushedFront(key, l);
    assert Elems([l[maxLength - 1]]) == {l[maxLength - 1]};
    assert l == l[..maxLength - 1] + [l[maxLength - 1]];
    assert key in l[..maxLength - 1];
    assert multiset([key] + l[..maxLength - 1])[key] == 1 + multiset(l[..maxLength - 1])[key];
  }

  /**
    When another listed key has lost its value too, the scan shortens the list
    before the pop loop runs: here the stale copy is the back key of a full
    list, yet nothing is popped and the write survives.
  */
  lemma StaleScanSavesWrite()
    ensures Store(["y", "k"], map[], "k", "v", 2, -1, 0) ==
            Step(Done, ["k", "k"], map["k" := Entry("v", None)])
  {
    var v := map["k" := Entry("v", None)];
    var pushed := ["k", "y", "k"];
    assert Pushed(["y", "k"], map[], "k") == pushed;
    assert Missing(pushed, v) == {"y"};
    assert NoMissingDup(pushed, v) by {
      assert multiset(pushed)["y"] == 1;
    }
    assert Present(pushed, v) == ["k", "k"] by {
      WithoutSingle("k", {"y"});
      WithoutSingle("y", {"y"});
      assert pushed[1..] == ["y", "k"];
      assert pushed[1..][1..] == ["k"];
      assert pushed[1..][1..][1..] == [];
    }
  }

  /** Deleting either key of a two-key map leaves the other entry alone. */
  lemma DropOneOfTwo(a: string, b: string, e: Entry, f: Entry)
    requires a != b
    ensures map[a := e][b := f] - {a} == map[b := f]
    ensures map[a := e][b := f] - {b} == map[a := e]
  {
  }

  lemma StaleEvict(v: map<string, Entry>)
    requires "k" in v && "x" in v
    ensures Evict(["k", "x", "k"], v, 2) == Step(Done, ["k", "x"], v - {"k"})
  {
    var l := ["k", "x", "k"];
    EvictAllPresent(l, v, 2);
    assert l[..2] == ["k", "x"];
    assert l[2..] == ["k"];
    assert Elems(["k"]) == {"k"};
  }

  /** With every listed key holding a value, eviction only pops down to `maxLength`. */
  lemma EvictAllPresent(l: seq<string>, values: map<string, Entry>, maxLength: int)
    requires forall i :: 0 <= i < |l| ==> l[i] in values
    requires 0 <= maxLength < |l|
    ensures Evict(l, values, maxLength) == Step(Done, l[..maxLength], values - Elems(l[maxLength..]))
  {
    PresentAll(l, values);
    assert NoMissingDup(l, values);
  }

  /**
    A value written with `ttl > 0` at `now` is read back while the server's
    clock is before `now + ttl` and missed once it has reached it.
  */
  lemma WriteExpires(l: seq<string>, values: map<string, Entry>, key: string, value: string,
                     ttl: int, now: int, t: int)
    requires ttl > 0
    ensures var later := Unexpired(values[key := EntryFor(value, ttl, now)], t);
      Load(l, later, key) == if t < now + ttl then Fetched(value, [key] + LRem(l, key)) else Fetched("", l)
  {
    UnexpiredExact(values[key := EntryFor(value, ttl, now)], t, key);
  }

  /** A hit returns the stored value and lists the key once, at the front; a miss changes nothing. */
  lemma LoadExact(l: seq<string>, values: map<string, Entry>, key: string)
    ensures key !in values ==> Load(l, values, key) == Fetched("", l)
    ensures key in values ==>
      var r := Load(l, values, key);
      r.value == values[key].value && r.list[0] == key && multiset(r.list)[key] == 1 &&
      forall x :: x != key ==> multiset(r.list)[x] == multiset(l)[x]
  {
    if key in values {
      forall x ensures multiset(LRem(l, key))[x] == if x == key then 0 else multiset(l)[x] {
        WithoutCount(l, {key}, x);
      }
    }
  }

  /**
    After Del, Get misses. The key stays listed exactly when it was listed
    without a value, since Del runs LREM only after EXISTS succeeds.
  */
  lemma DelThenLoad(l: seq<string>, values: map<string, Entry>, key: string)
    ensures var l2 := if key in values then LRem(l, key) else l;
      (key in l2 <==> key in l && key !in values) &&
      Load(l2, values - {key}, key) == Fetched("", l2)
  {
    WithoutMember(l, {key}, key);
  }

  /** The server keeps exactly the entries whose deadline lies after `now`. */
  lemma UnexpiredExact(values: map<string, Entry>, now: int, k: string)
    ensures k in Unexpired(values, now) <==> k in values && (values[k].deadline.None? || now < values[k].deadline.value)
    ensures k in Unexpired(values, now) ==> Unexpired(values, now)[k] == values[k]
  {
  }

  // ------------------------------------------------------------------
  // Loop steps of Print and evictItems
  // ------------------------------------------------------------------

  lemma MissingSnoc(a: seq<string>, k: string, values: map<string, Entry>)
    ensures Missing(a + [k], values) == Missing(a, values) + (if k in values then {} else {k})
  {
  }

  lemma ShownSnoc(a: seq<string>, k: string, values: map<string, Entry>)
    ensures Shown(a + [k], values) == Shown(a, values) + (if k in values then [Pair(k, values[k].value)] else [])
  {
    assert (a + [k])[..|a + [k]| - 1] == a;
  }

  /** Removing the first key without a value from the scanned list. */
  lemma ScanStep(list0: seq<string>, gone: set<string>, values: map<string, Entry>,
                 list: seq<string>, i: int)
    requires list == Without(list0, gone)
    requires forall g :: g in gone ==> g !in values
    requires 0 <= i < |list|
    requires forall p :: 0 <= p < i ==> list[p] in values
    requires list[i] !in values
    ensures LRem(list, list[i]) == Without(list0, gone + {list[i]})
    ensures list[i] !in gone && multiset(list0)[list[i]] >= 1
    ensures |LRem(list, list[i])| == |list| - multiset(list0)[list[i]]
    ensures i <= |LRem(list, list[i])|
    ensures forall p :: 0 <= p < i ==> LRem(list, list[i])[p] == list[p]
  {
    var k := list[i];
    WithoutTwice(list0, gone, {k});
    ScanCount(list0, gone, list, k);
    ScanPrefix(list, i, k);
  }

  /**
    The counter falls by one per LREM, the list by the number of occurrences:
    they stay equal exactly while every removed key was listed once.
  */
  lemma ScanTally(list0: seq<string>, gone: set<string>, k: string, length: int, n: int)
    requires n <= length && multiset(list0)[k] >= 1
    requires length == n <==> forall g :: g in gone ==> multiset(list0)[g] <= 1
    ensures length - 1 == n - multiset(list0)[k] <==> forall g :: g in gone + {k} ==> multiset(list0)[g] <= 1
  {
  }

  /** The key LREM removes was listed before the scan as often as now. */
  lemma ScanCount(list0: seq<string>, gone: set<string>, list: seq<string>, k: string)
    requires list == Without(list0, gone) && k in list
    ensures k !in gone && multiset(list0)[k] >= 1
    ensures |LRem(list, k)| == |list| - multiset(list0)[k]
  {
    WithoutCount(list0, gone, k);
    assert multiset(list)[k] >= 1 by { assert k in multiset(list); }
    WithoutLength(list, k);
  }

  /** LREM of a key not among the first i keys leaves those i keys in place. */
  lemma ScanPrefix(list: seq<string>, i: int, k: string)
    requires 0 <= i <= |list|
    requires forall p :: 0 <= p < i ==> list[p] != k
    ensures i <= |LRem(list, k)|
    ensures forall p :: 0 <= p < i ==> LRem(list, k)[p] == list[p]
  {
    SplitAt(list, i);
    WithoutAppend(list[..i], list[i..], {k});
    WithoutNone(list[..i], {k});
  }

  lemma SplitAt(l: seq<string>, i: int)
    requires 0 <= i <= |l|
    ensures l == l[..i] + l[i..]
  {
  }

  /** The state of Print's walk over the snapshot `keys` after j keys. */
  ghost predicate Listing(keys: seq<string>, values: map<string, Entry>, j: int, gone: set<string>,
                          list: seq<string>, items: seq<string>)
  {
    && 0 <= j <= |keys|
    && gone == Missing(keys[..j], values)
    && list == Without(keys, gone)
    && items == Shown(keys[..j], values)
  }

  lemma ListStart(keys: seq<string>, values: map<string, Entry>)
    ensures Listing(keys, values, 0, {}, keys, [])
  {
    assert keys[..0] == [];
    WithoutNone(keys, {});
  }

  /** A key with a value is shown. */
  lemma ListKeep(keys: seq<string>, values: map<string, Entry>, j: int, gone: set<string>,
                 list: seq<string>, items: seq<string>)
    requires Listing(keys, values, j, gone, list, items) && j < |keys| && keys[j] in values
    ensures Listing(keys, values, j + 1, gone, list, items + [Pair(keys[j], values[keys[j]].value)])
  {
    assert keys[..j + 1] == keys[..j] + [keys[j]];
    MissingSnoc(keys[..j], keys[j], values);
    ShownSnoc(keys[..j], keys[j], values);
  }

  /** A key without a value is removed from the list with LREM. */
  lemma ListDrop(keys: seq<string>, values: map<string, Entry>, j: int, gone: set<string>,
                 list: seq<string>, items: seq<string>)
    requires Listing(keys, values, j, gone, list, items) && j < |keys| && keys[j] !in values
    ensures Listing(keys, values, j + 1, gone + {keys[j]}, LRem(list, keys[j]), items)
  {
    assert keys[..j + 1] == keys[..j] + [keys[j]];
    MissingSnoc(keys[..j], keys[j], values);
    ShownSnoc(keys[..j], keys[j], values);
    WithoutTwice(keys, gone, {keys[j]});
  }

  lemma ListDone(keys: seq<string>, values: map<string, Entry>, j: int, gone: set<string>,
                 list: seq<string>, items: seq<string>)
    requires Listing(keys, values, j, gone, list, items) && j >= |keys|
    ensures list == Present(keys, values) && items == Shown(keys, values)
  {
    assert keys[..j] == keys;
  }

  /**
    The state of evictItems' scan of the list `list0`: the keys in `gone`
    (all without a value) have been removed, the first i keys left have values,
    and the counter equals the length exactly while no removed key was listed twice.
  */
  ghost predicate Scanning(list0: seq<string>, values: map<string, Entry>, gone: set<string>,
                           list: seq<string>, i: int, length: int)
  {
    && 0 <= i <= |list| <= length
    && list == Without(list0, gone)
    && (forall g :: g in gone ==> g !in values)
    && (forall p :: 0 <= p < i ==> list[p] in values)
    && (length == |list| <==> forall g :: g in gone ==> multiset(list0)[g] <= 1)
  }

  lemma ScanStart(list0: seq<string>, values: map<string, Entry>)
    ensures Scanning(list0, values, {}, list0, 0, |list0|)
  {
    WithoutNone(list0, {});
  }

  /** A key with a value: the scan moves on. */
  lemma ScanKeep(list0: seq<string>, values: map<string, Entry>, gone: set<string>,
                 list: seq<string>, i: int, length: int)
    requires Scanning(list0, values, gone, list, i, length) && i < |list| && list[i] in values
    ensures Scanning(list0, values, gone, list, i + 1, length)
  {
  }

  /** A key without a value: LREM, and the scan stays at the same position. */
  lemma ScanDrop(list0: seq<string>, values: map<string, Entry>, gone: set<string>,
                 list: seq<string>, i: int, length: int)
    requires Scanning(list0, values, gone, list, i, length) && i < |list| && list[i] !in values
    ensures Scanning(list0, values, gone + {list[i]}, LRem(list, list[i]), i, length - 1)
  {
    ScanStep(list0, gone, values, list, i);
    ScanTally(list0, gone, list[i], length, |list|);
  }

  /** When the scan has passed every key left, exactly the keys with values remain. */
  lemma ScanDone(list0: seq<string>, gone: set<string>, values: map<string, Entry>, list: seq<string>)
    requires list == Without(list0, gone)
    requires forall g :: g in gone ==> g !in values
    requires forall p :: 0 <= p < |list| ==> list[p] in values
    ensures list == Present(list0, values)
    ensures (forall g :: g in gone ==> multiset(list0)[g] <= 1) <==> NoMissingDup(list0, values)
  {
    forall k | k in list0 ensures k in gone <==> k in Missing(list0, values) {
      WithoutMember(list0, gone, k);
    }
    WithoutAgree(list0, gone, Missing(list0, values));
    forall k | k in Missing(list0, values) ensures k in gone {
      WithoutMember(list0, gone, k);
    }
    forall g | g in gone && multiset(list0)[g] > 0 ensures g in Missing(list0, values) {
      assert g in multiset(list0);
    }
  }

  // ------------------------------------------------------------------
  // The store itself
  // ------------------------------------------------------------------

  class LRUCache {
    /** The list stored under "cache". */
    var list: seq<string>
    /** The values the server holds. */
    var values: map<string, Entry>

    /** NewLRUCache deletes the list; values already on the server stay. */
    constructor (existing: map<string, Entry>)
      ensures list == [] && values == existing
    {
      list := [];
      values := existing;
    }

    /** The server's own expiry, as time passes to `now`. */
    method Expire(now: int)
      modifies this
      ensures list == old(list) && values == Unexpired(old(values), now)
    {
      values := Unexpired(values, now);
    }

    method Put(key: string, value: string, maxLength: int, ttl: int, now: int) returns (r: Outcome)
      modifies this
      ensures Step(r, list, values) == Store(old(list), old(values), key, value, maxLength, ttl, now)
    {
      if key in values {
        list := LRem(list, key);
      }
      list := [key] + list;
      if ttl == -1 {
        values := values[key := Entry(value, None)];
      } else if ttl > 0 {
        values := values[key := Entry(value, Some(now + ttl))];
      } else {
        return Failed(InvalidTtl(ttl));
      }
      r := EvictItems(maxLength);
    }

    method Get(key: string) returns (v: string)
      modifies this
      ensures Fetched(v, list) == Load(old(list), old(values), key)
      ensures values == old(values)
    {
      if key !in values {
        return "";
      }
      v := values[key].value;
      list := [key] + LRem(list, key);
    }

    method Print() returns (s: string)
      modifies this
      ensures s == Join(Shown(old(list), old(values)))
      ensures list == Present(old(list), old(values)) && values == old(values)
    {
      var keys := list;
      var items: seq<string> := [];
      ghost var gone: set<string> := {};
      var j := 0;
      ListStart(keys, values);
      while j < |keys|
        invariant values == old(values)
        invariant Listing(keys, values, j, gone, list, items)
        decreases |keys| - j
      {
        var key := keys[j];
        if key !in values {
          ListDrop(keys, values, j, gone, list, items);
          list := LRem(list, key);
          gone := gone + {key};
          j := j + 1;
        } else {
          ListKeep(keys, values, j, gone, list, items);
          items := items + [Pair(key, values[key].value)];
          j := j + 1;
        }
      }
      ListDone(keys, values, j, gone, list, items);
      s := Join(items);
    }

    method Del(key: string)
      modifies this
      ensures list == if key in old(values) then LRem(old(list), key) else old(list)
      ensures values == old(values) - {key}
    {
      if key in values {
        list := LRem(list, key);
        values := values - {key};
      } else {
        assert values == values - {key};
      }
    }

    /** DEL_ALL flushes the whole server. */
    method DelAll()
      modifies this
      ensures list == [] && values == map[]
    {
      list := [];
      values := map[];
    }

    method EvictItems(maxLength: int) returns (r: Outcome)
      modifies this
      ensures Step(r, list, values) == Evict(old(list), old(values), maxLength)
    {
      var scanned := DropMissing();
      if !scanned {
        return Failed(IndexOutOfRange(|list|));
      }
      r := PopExcess(maxLength);
    }

    /**
      The first loop of evictItems: LINDEX each position, LREM a key without a
      value and step back, comparing with the length read before the loop.
      `scanned` is false where LINDEX reads past the end.
    */
    method DropMissing() returns (scanned: bool)
      modifies this
      ensures scanned == NoMissingDup(old(list), old(values))
      ensures list == Present(old(list), old(values)) && values == old(values)
    {
      ghost var list0 := list;
      var length := |list|;
      ghost var gone: set<string> := {};
      var i := 0;
      ScanStart(list0, values);
      while i < length
        invariant values == old(values)
        invariant Scanning(list0, values, gone, list, i, length)
        decreases length - i
      {
        if i >= |list| {
          ScanDone(list0, gone, values, list);
          return false;
        }
        var keyToCheck := list[i];
        if keyToCheck !in values {
          ScanDrop(list0, values, gone, list, i, length);
          list := LRem(list, keyToCheck);
          gone := gone + {keyToCheck};
          // Go's i-- and the loop's i++ cancel out
          length := length - 1;
        } else {
          ScanKeep(list0, values, gone, list, i, length);
          i := i + 1;
        }
      }
      ScanDone(list0, gone, values, list);
      return true;
    }

    /** The second loop of evictItems. */
    method PopExcess(maxLength: int) returns (r: Outcome)
      modifies this
      ensures Step(r, list, values) == Trim(old(list), old(values), maxLength)
    {
      ghost var kept := list;
      var length := |list|;
      assert values == old(values) - Elems(kept[|list|..]);
      while length > maxLength
        invariant length == |list| <= |kept|
        invariant list == kept[..|list|]
        invariant |list| == |kept| || |list| >= maxLength
        invariant values == old(values) - Elems(kept[|list|..])
        decreases |list|
      {
        if |list| == 0 {
          return Failed(PopEmpty);
        }
        var oldest := list[|list| - 1];
        ElemsSplit(kept, |list| - 1);
        list := list[..|list| - 1];
        values := values - {oldest};
        length := |list|;
      }
      return Done;
    }
  }

  /** A key is written with a one-second ttl and expires. */
  lemma FatalStepOne()
    ensures Store([], map[], "k", "1", 5, 1, 0) == Step(Done, ["k"], map["k" := Entry("1", Some(1))])
    ensures Unexpired(map["k" := Entry("1", Some(1))], 1) == map[]
  {
    var v1 := map["k" := Entry("1", Some(1))];
    assert Pushed([], map[], "k") == ["k"];
    assert Missing(["k"], v1) == {};
    WithoutSingle("k", {});
  }

  /** It is written again: having no value, it is pushed without LREM and listed twice. */
  lemma FatalStepTwo()
    ensures Store(["k"], map[], "k", "1", 5, 1, 1) == Step(Done, ["k", "k"], map["k" := Entry("1", Some(2))])
    ensures Unexpired(map["k" := Entry("1", Some(2))], 2) == map[]
  {
    var v2 := map["k" := Entry("1", Some(2))];
    assert Pushed(["k"], map[], "k") == ["k", "k"];
    assert Missing(["k", "k"], v2) == {};
    WithoutNone(["k", "k"], {});
  }

  /** Once it has expired again, the scan of the next write reads past the end. */
  lemma FatalStepThree()
    ensures Store(["k", "k"], map[], "j", "2", 5, -1, 2) ==
            Step(Failed(IndexOutOfRange(1)), ["j"], map["j" := Entry("2", None)])
  {
    var v3 := map["j" := Entry("2", None)];
    assert Pushed(["k", "k"], map[], "j") == ["j", "k", "k"];
    StaleTwicePresent(v3);
    StaleTwiceFatal(v3);
  }

  lemma StaleTwicePresent(v: map<string, Entry>)
    requires v == map["j" := Entry("2", None)]
    ensures Present(["j", "k", "k"], v) == ["j"]
  {
    var l := ["j", "k", "k"];
    assert Missing(l, v) == {"k"} by {
      assert "k" in l && "k" !in v;
      forall x | x in l && x !in v ensures x == "k" { }
    }
    assert l == ["j"] + (["k"] + ["k"]);
    WithoutAppend(["k"], ["k"], {"k"});
    WithoutAppend(["j"], ["k"] + ["k"], {"k"});
    WithoutSingle("j", {"k"});
    WithoutSingle("k", {"k"});
  }

  lemma StaleTwiceFatal(v: map<string, Entry>)
    requires v == map["j" := Entry("2", None)]
    ensures !NoMissingDup(["j", "k", "k"], v)
  {
    var l := ["j", "k", "k"];
    assert l == ["j"] + ["k"] + ["k"];
    assert multiset(l)["k"] == 2;
    assert "k" in l && "k" !in v;
  }

  method FatalScenario() returns (first: Outcome, second: Outcome, third: Outcome)
    ensures first == Done && second == Done && third == Failed(IndexOutOfRange(1))
  {
    FatalStepOne();
    FatalStepTwo();
    FatalStepThree();
    var c := new LRUCache(map[]);
    first := c.Put("k", "1", 5, 1, 0);
    c.Expire(1);
    second := c.Put("k", "1", 5, 1, 1);
    c.Expire(2);
    third := c.Put("j", "2", 5, -1, 2);
  }

  /** The first write of the Redis Print test (capacity 2, no expiry). */
  lemma PrintWriteOne()
    ensures Store([], map[], "a1", "1", 2, -1, 0) == Step(Done, ["a1"], map["a1" := Entry("1", None)])
  {
    StorePush([], map[], "a1", "1", 2, 0);
    assert [] + ["a1"] == ["a1"];
  }

  /** The second write: there is still room. */
  lemma PrintWriteTwo()
    ensures Store(["a1"], map["a1" := Entry("1", None)], "b1", "2", 2, -1, 0) ==
            Step(Done, ["b1", "a1"], map["a1" := Entry("1", None), "b1" := Entry("2", None)])
  {
    StorePush(["a1"], map["a1" := Entry("1", None)], "b1", "2", 2, 0);
    assert ["b1"] + ["a1"] == ["b1", "a1"];
  }

  /** The third write evicts a1, the least recently used key. */
  lemma PrintWriteThree()
    ensures Store(["b1", "a1"], map["a1" := Entry("1", None), "b1" := Entry("2", None)], "c1", "3", 2, -1, 0) ==
            Step(Done, ["c1", "b1"], map["b1" := Entry("2", None), "c1" := Entry("3", None)])
  {
    StoreEvictOne(["b1", "a1"], map["a1" := Entry("1", None), "b1" := Entry("2", None)], "c1", "3", 2, 0);
    assert ["c1"] + ["b1", "a1"][..1] == ["c1", "b1"];
    assert "a1" != "b1" && "a1" != "c1" by {
      assert "a1"[0] == 'a' && "b1"[0] == 'b' && "c1"[0] == 'c';
    }
    DropOldest("a1", "b1", "c1", Entry("1", None), Entry("2", None), Entry("3", None));
  }

  lemma DropOldest(a: string, b: string, c: string, ea: Entry, eb: Entry, ec: Entry)
    requires a != b && a != c
    ensures map[a := ea, b := eb][c := ec] - {a} == map[b := eb, c := ec]
  {
    var m, n := map[a := ea, b := eb][c := ec] - {a}, map[b := eb, c := ec];
    assert m.Keys == n.Keys;
    forall k | k in m ensures m[k] == n[k] {
    }
  }

  /** Print of two listed keys that both have values. */
  lemma ShownTwo(x: string, y: string, values: map<string, Entry>)
    requires x in values && y in values
    ensures Join(Shown([x, y], values)) == Pair(x, values[x].value) + ", " + Pair(y, values[y].value)
    ensures Present([x, y], values) == [x, y]
  {
    assert [x, y] == [x] + [y];
    assert [] + [x] == [x];
    ShownSnoc([x], y, values);
    ShownSnoc([], x, values);
    var items := [Pair(x, values[x].value), Pair(y, values[y].value)];
    assert Shown([x, y], values) == items;
    assert items[1..] == [items[1]];
    PresentAll([x, y], values);
  }

  /** What the first Print call of that test returns. */
  lemma PrintTextOne()
    ensures Join(Shown(["b1", "a1"], map["a1" := Entry("1", None), "b1" := Entry("2", None)])) == "b1:2, a1:1"
    ensures Present(["b1", "a1"], map["a1" := Entry("1", None), "b1" := Entry("2", None)]) == ["b1", "a1"]
  {
    ShownTwo("b1", "a1", map["a1" := Entry("1", None), "b1" := Entry("2", None)]);
    assert Pair("a1", "1") == "a1:1" && Pair("b1", "2") == "b1:2";
    assert "b1:2" + ", " + "a1:1" == "b1:2, a1:1";
  }

  /** What the second Print call returns, after a1 was evicted. */
  lemma PrintTextTwo()
    ensures Join(Shown(["c1", "b1"], map["b1" := Entry("2", None), "c1" := Entry("3", None)])) == "c1:3, b1:2"
    ensures Present(["c1", "b1"], map["b1" := Entry("2", None), "c1" := Entry("3", None)]) == ["c1", "b1"]
  {
    ShownTwo("c1", "b1", map["b1" := Entry("2", None), "c1" := Entry("3", None)]);
    assert Pair("b1", "2") == "b1:2" && Pair("c1", "3") == "c1:3";
    assert "c1:3" + ", " + "b1:2" == "c1:3, b1:2";
  }

  method PrintScenario() returns (first: string, second: string)
    ensures first == "b1:2, a1:1" && second == "c1:3, b1:2"
  {
    PrintWriteOne();
    PrintWriteTwo();
    PrintWriteThree();
    PrintTextOne();
    PrintTextTwo();
    var c := new LRUCache(map[]);
    var r := c.Put("a1", "1", 2, -1, 0);
    r := c.Put("b1", "2", 2, -1, 0);
    first := c.Print();
    r := c.Put("c1", "3", 2, -1, 0);
    second := c.Print();
  }
}
