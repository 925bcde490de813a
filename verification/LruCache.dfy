/**
  The in-process LRU cache with expiry. An ordered dictionary is its list of entries, least recently used first,
  with distinct keys.
 */
module LruCaches {
  import opened Types

  type Key = string

  datatype Entry<+V> = Entry(key: Key, value: V, expiresAt: Option<real>) {
    predicate Expired(now: real) {
      expiresAt.Some? && now > expiresAt.value
    }
  }

  type Entries<V> = seq<Entry<V>>

  /** A missing or zero lifetime means the entry never expires. */
  function Expiry(ttl: Option<real>, now: real): Option<real> {
    if ttl.None? || ttl.value == 0.0 then None else Some(now + ttl.value)
  }

  ghost function Keys<V>(c: Entries<V>): set<Key> {
    set e | e in c :: e.key
  }

  function Find<V>(c: Entries<V>, key: Key): Option<Entry<V>> {
    if c == [] then None else if c[0].key == key then Some(c[0]) else Find(c[1..], key)
  }

  /** The entries whose key is not in `gone`, in the same order. */
  function Without<V>(c: Entries<V>, gone: set<Key>): Entries<V> {
    if c == [] then []
    else if c[0].key in gone then Without(c[1..], gone)
    else [c[0]] + Without(c[1..], gone)
  }

  ghost predicate Distinct<V>(c: Entries<V>) {
    forall i, j :: 0 <= i < j < |c| ==> c[i].key != c[j].key
  }

  // ---- the operations on the ordered entries

  function Get<V>(c: Entries<V>, key: Key, now: real): (Option<V>, Entries<V>) {
    var found := Find(c, key);
    if found.None? || found.value.Expired(now) then (None, Without(c, {key}))
    else (Some(found.value.value), Without(c, {key}) + [found.value])
  }

  function MakeRoom<V>(c: Entries<V>, capacity: int, key: Key): Entries<V> {
    if Find(c, key).Some? then Without(c, {key})
    else if |c| >= capacity && c != [] then c[1..]
    else c
  }

  function Set<V>(c: Entries<V>, capacity: int, key: Key, value: V, ttl: Option<real>, now: real): Entries<V> {
    MakeRoom(c, capacity, key) + [Entry(key, value, Expiry(ttl, now))]
  }

  function WithoutPrefix<V>(c: Entries<V>, prefix: Key): Entries<V> {
    if c == [] then []
    else if prefix <= c[0].key then WithoutPrefix(c[1..], prefix)
    else [c[0]] + WithoutPrefix(c[1..], prefix)
  }

  // ---- algebra of removal

  lemma {:induction false} WithoutTwice<V>(c: Entries<V>, a: set<Key>, b: set<Key>)
    ensures Without(Without(c, a), b) == Without(c, a + b)
  {
    if c != [] {
      WithoutTwice(c[1..], a, b);
      if c[0].key !in a {
        assert Without(c, a)[1..] == Without(c[1..], a);
      }
    }
  }

  lemma {:induction false} WithoutAbsent<V>(c: Entries<V>, a: set<Key>)
    requires forall k :: k in a ==> k !in Keys(c)
    ensures Without(c, a) == c
  {
    if c != [] {
      assert c[0] in c;
      assert forall e :: e in c[1..] ==> e in c;
      WithoutAbsent(c[1..], a);
    }
  }

  lemma {:induction false} WithoutConcat<V>(c: Entries<V>, d: Entries<V>, a: set<Key>)
    ensures Without(c + d, a) == Without(c, a) + Without(d, a)
  {
    if c == [] {
      assert c + d == d;
    } else {
      assert (c + d)[1..] == c[1..] + d;
      WithoutConcat(c[1..], d, a);
    }
  }

  lemma {:induction false} WithoutMembers<V>(c: Entries<V>, a: set<Key>)
    ensures forall e :: e in Without(c, a) ==> e in c && e.key !in a
    ensures forall e :: e in c && e.key !in a ==> e in Without(c, a)
    ensures |Without(c, a)| <= |c|
    ensures Distinct(c) ==> Distinct(Without(c, a))
  {
    if c != [] {
      WithoutMembers(c[1..], a);
      assert forall e :: e in c <==> e == c[0] || e in c[1..];
      if Distinct(c) {
        forall e | e in Without(c[1..], a) ensures e.key != c[0].key {
          assert e in c[1..];
          var i :| 0 <= i < |c[1..]| && c[1..][i] == e;
        }
      }
    }
  }

  lemma {:induction false} FindMember<V>(c: Entries<V>, key: Key)
    ensures Find(c, key).Some? <==> key in Keys(c)
    ensures Find(c, key).Some? ==> Find(c, key).value in c && Find(c, key).value.key == key
  {
    if c != [] {
      FindMember(c[1..], key);
      assert forall e :: e in c <==> e == c[0] || e in c[1..];
    }
  }

  lemma {:induction false} FindWithout<V>(c: Entries<V>, a: set<Key>, key: Key)
    ensures Find(Without(c, a), key) == if key in a then None else Find(c, key)
  {
    if c != [] {
      FindWithout(c[1..], a, key);
      if c[0].key !in a {
        assert Without(c, a)[1..] == Without(c[1..], a);
      }
    }
  }

  /** Removing one present key shortens the list by one. */
  lemma {:induction false} RemoveOne<V>(c: Entries<V>, key: Key)
    requires Distinct(c)
    ensures |Without(c, {key})| == |c| - (if key in Keys(c) then 1 else 0)
  {
    if c != [] {
      assert forall e :: e in c <==> e == c[0] || e in c[1..];
      if c[0].key == key {
        WithoutAbsent(c[1..], {key});
      } else {
        RemoveOne(c[1..], key);
      }
    }
  }

  lemma EvictIsRemoval<V>(c: Entries<V>)
    requires Distinct(c) && c != []
    ensures c[1..] == Without(c, {c[0].key})
  {
    WithoutAbsent(c[1..], {c[0].key});
  }

  // ---- what each operation keeps

  ghost predicate Fits<V>(c: Entries<V>, capacity: int) {
    Distinct(c) && |c| <= capacity
  }

  /** Moving a key to the end, or adding it there, keeps keys distinct. */
  lemma AppendDistinct<V>(c: Entries<V>, e: Entry<V>)
    requires Distinct(c) && e.key !in Keys(c)
    ensures Distinct(c + [e])
  {
    forall i | 0 <= i < |c| ensures c[i].key != e.key {
      assert c[i] in c;
    }
  }

  lemma RoomIsMade<V>(c: Entries<V>, capacity: int, key: Key)
    requires Distinct(c)
    ensures Distinct(MakeRoom(c, capacity, key)) && key !in Keys(MakeRoom(c, capacity, key))
    ensures 1 <= capacity && |c| <= capacity ==> |MakeRoom(c, capacity, key)| < capacity
  {
    WithoutMembers(c, {key});
    RemoveOne(c, key);
    FindMember(c, key);
    assert c != [] ==> forall e :: e in c[1..] ==> e in c;
  }

  lemma GetFits<V>(c: Entries<V>, capacity: int, key: Key, now: real)
    requires Fits(c, capacity)
    ensures Fits(Get(c, key, now).1, capacity)
  {
    WithoutMembers(c, {key});
    RemoveOne(c, key);
    FindMember(c, key);
    if Find(c, key).Some? {
      AppendDistinct(Without(c, {key}), Find(c, key).value);
    }
  }

  lemma SetFits<V>(c: Entries<V>, capacity: int, key: Key, value: V, ttl: Option<real>, now: real)
    requires Fits(c, capacity) && capacity >= 1
    ensures Fits(Set(c, capacity, key, value, ttl, now), capacity)
    ensures Find(Set(c, capacity, key, value, ttl, now), key) == Some(Entry(key, value, Expiry(ttl, now)))
  {
    RoomIsMade(c, capacity, key);
    AppendDistinct(MakeRoom(c, capacity, key), Entry(key, value, Expiry(ttl, now)));
    FindLast(MakeRoom(c, capacity, key), Entry(key, value, Expiry(ttl, now)));
  }

  lemma {:induction false} FindLast<V>(c: Entries<V>, e: Entry<V>)
    requires forall x :: x in c ==> x.key != e.key
    ensures Find(c + [e], e.key) == Some(e)
  {
    if c != [] {
      assert c[0] in c;
      assert (c + [e])[1..] == c[1..] + [e];
      FindLast(c[1..], e);
    }
  }

  /** What is written is served until its lifetime is over, and not after. */
  lemma ServedUntilExpiry<V>(c: Entries<V>, capacity: int, key: Key, value: V, ttl: Option<real>, now: real, later: real)
    requires Distinct(c)
    ensures Get(Set(c, capacity, key, value, ttl, now), key, later).0 ==
      if ttl.None? || ttl.value == 0.0 || later <= now + ttl.value then Some(value) else None
  {
    RoomIsMade(c, capacity, key);
    FindLast(MakeRoom(c, capacity, key), Entry(key, value, Expiry(ttl, now)));
  }

  method KeysWithPrefix<V>(c: Entries<V>, prefix: Key) returns (keys: seq<Key>)
    requires Distinct(c)
    ensures forall k :: k in keys <==> k in Keys(c) && prefix <= k
    ensures forall a, b :: 0 <= a < b < |keys| ==> keys[a] != keys[b]
  {
    keys := [];
    for i := 0 to |c|
      invariant forall k :: k in keys <==> exists j :: 0 <= j < i && c[j].key == k && prefix <= k
      invariant forall a, b :: 0 <= a < b < |keys| ==> keys[a] != keys[b]
    {
      if prefix <= c[i].key {
        assert c[i].key !in keys;
        assert forall a :: 0 <= a < |keys| ==> keys[a] in keys;
        keys := keys + [c[i].key];
      }
    }
  }

  ghost function SetOf(keys: seq<Key>): set<Key> {
    set k | k in keys
  }

  /** Deletes the keys one by one. */
  method DropEach<V>(c: Entries<V>, keys: seq<Key>) returns (r: Entries<V>)
    requires Distinct(c) && forall k :: k in keys ==> k in Keys(c)
    requires forall a, b :: 0 <= a < b < |keys| ==> keys[a] != keys[b]
    ensures Distinct(r) && r == Without(c, SetOf(keys)) && |keys| == |c| - |r|
  {
    r := c;
    WithoutAbsent(c, {});
    assert SetOf(keys[..0]) == {};
    for i := 0 to |keys|
      invariant Distinct(r) && r == Without(c, SetOf(keys[..i])) && i == |c| - |r|
    {
      assert keys[i] in keys && keys[..i + 1] == keys[..i] + [keys[i]];
      assert SetOf(keys[..i + 1]) == SetOf(keys[..i]) + {keys[i]};
      DropOneMore(c, SetOf(keys[..i]), keys[i], r);
      r := Without(r, {keys[i]});
    }
    assert keys[..|keys|] == keys;
  }

  lemma DropOneMore<V>(c: Entries<V>, gone: set<Key>, k: Key, r: Entries<V>)
    requires k in Keys(c) && k !in gone && Distinct(r) && r == Without(c, gone)
    ensures Distinct(Without(r, {k})) && Without(r, {k}) == Without(c, gone + {k}) && |Without(r, {k})| == |r| - 1
  {
    FindMember(r, k);
    FindMember(c, k);
    FindWithout(c, gone, k);
    RemoveOne(r, k);
    WithoutMembers(r, {k});
    WithoutTwice(c, gone, {k});
  }

  class InMemoryCache<V> {
    const capacity: int
    var entries: Entries<V>
    var hits: nat
    var misses: nat

    ghost predicate Valid()
      reads this
    {
      Distinct(entries) && (capacity >= 1 ==> |entries| <= capacity)
    }

    constructor (capacity: int)
      ensures Valid() && this.capacity == capacity && entries == [] && hits == 0 && misses == 0
    {
      this.capacity, entries, hits, misses := capacity, [], 0, 0;
    }

    method Read(key: Key, now: real) returns (r: Option<V>)
      requires Valid()
      modifies this
      ensures Valid()
      ensures (r, entries) == Get(old(entries), key, now)
      ensures hits == old(hits) + (if r.Some? then 1 else 0) && hits + misses == old(hits + misses) + 1
    {
      GetFits(entries, |entries|, key, now);
      var found := Find(entries, key);
      if found.None? || found.value.Expired(now) {
        entries, misses := Without(entries, {key}), misses + 1;
        return None;
      }
      entries, hits := Without(entries, {key}) + [found.value], hits + 1;
      r := Some(found.value.value);
    }

    /** With a capacity below one, making room pops from an empty dictionary and raises. */
    method Write(key: Key, value: V, ttl: Option<real>, now: real) returns (raised: bool)
      requires Valid()
      modifies this
      ensures Valid() && hits == old(hits) && misses == old(misses)
      ensures raised <==> old(entries) == [] && capacity <= 0
      ensures entries == if raised then old(entries) else Set(old(entries), capacity, key, value, ttl, now)
    {
      RoomIsMade(entries, capacity, key);
      AppendDistinct(MakeRoom(entries, capacity, key), Entry(key, value, Expiry(ttl, now)));
      if Find(entries, key).Some? {
        entries := Without(entries, {key});
      } else if |entries| >= capacity {
        if entries == [] {
          return true;
        }
        entries := entries[1..];
      }
      entries := entries + [Entry(key, value, Expiry(ttl, now))];
      raised := false;
    }

    method Invalidate(key: Key) returns (present: bool)
      requires Valid()
      modifies this
      ensures Valid() && hits == old(hits) && misses == old(misses)
      ensures entries == Without(old(entries), {key})
      ensures present <==> exists e :: e in old(entries) && e.key == key
    {
      WithoutMembers(entries, {key});
      FindMember(entries, key);
      present := Find(entries, key).Some?;
      entries := Without(entries, {key});
    }

    method InvalidatePrefix(prefix: Key) returns (count: nat)
      requires Valid()
      modifies this
      ensures Valid() && hits == old(hits) && misses == old(misses)
      ensures entries == WithoutPrefix(old(entries), prefix)
      ensures count == |old(entries)| - |entries|
    {
      var keys := KeysWithPrefix(entries, prefix);
      var kept := DropEach(entries, keys);
      PrefixRemoval(entries, prefix, SetOf(keys));
      entries, count := kept, |keys|;
    }

    /**
      Cache-aside: a hit is served, a miss stores what the loader computed unless that is nothing. With a capacity below
      one, storing raises as in `Write`, and nothing is served.
     */
    method GetOrCompute(key: Key, computed: Option<V>, ttl: Option<real>, now: real) returns (r: Option<V>, raised: bool)
      requires Valid()
      modifies this
      ensures Valid()
      ensures raised <==> Misses(old(entries), key, computed, now) && Get(old(entries), key, now).1 == [] && capacity <= 0
      ensures raised ==> entries == []
      ensures !raised ==> (r, entries) == GetOr(old(entries), capacity, key, computed, ttl, now)
    {
      r := Read(key, now);
      raised := false;
      if r.None? {
        r := computed;
        if computed.Some? {
          raised := Write(key, computed.value, ttl, now);
        }
      }
    }
  }

  /** The loader's value is what will be served and stored. */
  predicate Misses<V>(c: Entries<V>, key: Key, computed: Option<V>, now: real) {
    Get(c, key, now).0.None? && computed.Some?
  }

  function GetOr<V>(c: Entries<V>, capacity: int, key: Key, computed: Option<V>, ttl: Option<real>, now: real): (Option<V>, Entries<V>) {
    var (cached, after) := Get(c, key, now);
    if cached.Some? || computed.None? then (cached, after)
    else (computed, Set(after, capacity, key, computed.value, ttl, now))
  }

  // ---- inclusion: a larger cache under the same trace holds everything a smaller one does

  datatype Op<+V> =
    | Read(key: Key, now: real)
    | Write(key: Key, value: V, ttl: Option<real>, now: real)
    | Invalidate(key: Key)
    | InvalidatePrefix(prefix: Key)
    | Compute(key: Key, computed: Option<V>, ttl: Option<real>, now: real)

  function Apply<V>(c: Entries<V>, capacity: int, op: Op<V>): Entries<V> {
    match op
    case Read(key, now) => Get(c, key, now).1
    case Write(key, value, ttl, now) => Set(c, capacity, key, value, ttl, now)
    case Invalidate(key) => Without(c, {key})
    case InvalidatePrefix(prefix) => WithoutPrefix(c, prefix)
    case Compute(key, computed, ttl, now) => GetOr(c, capacity, key, computed, ttl, now).1
  }

  function After<V>(capacity: int, ops: seq<Op<V>>): Entries<V> {
    if ops == [] then [] else Apply(After(capacity, ops[..|ops| - 1]), capacity, ops[|ops| - 1])
  }

  function Hits<V>(capacity: int, ops: seq<Op<V>>): nat {
    if ops == [] then 0
    else
      var last := ops[|ops| - 1];
      Hits(capacity, ops[..|ops| - 1]) +
      if (last.Read? || last.Compute?) && Get(After(capacity, ops[..|ops| - 1]), last.key, last.now).0.Some? then 1 else 0
  }

  /** `s` is `t` with the entries of some keys left out. */
  ghost predicate Included<V>(s: Entries<V>, t: Entries<V>) {
    exists gone: set<Key> :: s == Without(t, gone)
  }

  ghost predicate Nested<V>(s: Entries<V>, t: Entries<V>, small: int, large: int) {
    && Fits(s, small) && Fits(t, large)
    && Included(s, t)
    && |t| - |s| <= large - small
  }

  /** The same key set, chosen by prefix, is removed one key at a time or in one pass. */
  lemma {:induction false} PrefixRemoval<V>(c: Entries<V>, prefix: Key, keys: set<Key>)
    requires forall k :: k in Keys(c) ==> (k in keys <==> prefix <= k)
    ensures WithoutPrefix(c, prefix) == Without(c, keys)
  {
    if c != [] {
      assert c[0] in c && c[0].key in Keys(c);
      assert forall e :: e in c[1..] ==> e in c;
      PrefixRemoval(c[1..], prefix, keys);
    }
  }

  lemma RemovalKeepsNesting<V>(s: Entries<V>, t: Entries<V>, small: int, large: int, key: Key)
    requires Nested(s, t, small, large)
    ensures Nested(Without(s, {key}), Without(t, {key}), small, large)
  {
    var gone :| s == Without(t, gone);
    WithoutTwice(t, gone, {key});
    WithoutTwice(t, {key}, gone);
    assert gone + {key} == {key} + gone;
    WithoutMembers(t, gone);
    WithoutMembers(s, {key});
    WithoutMembers(t, {key});
    RemoveOne(s, key);
    RemoveOne(t, key);
  }

  lemma AppendKeepsInclusion<V>(s: Entries<V>, t: Entries<V>, e: Entry<V>)
    requires Included(s, t) && e.key !in Keys(t)
    ensures Included(s + [e], t + [e])
  {
    var gone :| s == Without(t, gone);
    WithoutTwice(t, {e.key}, gone - {e.key});
    WithoutAbsent(t, {e.key});
    assert {e.key} + (gone - {e.key}) == gone + {e.key};
    WithoutTwice(t, {e.key}, gone);
    assert {e.key} + gone == gone + {e.key};
    WithoutConcat(t, [e], gone - {e.key});
    assert Without([e], gone - {e.key}) == [e];
    assert s + [e] == Without(t + [e], gone - {e.key});
  }

  /** An entry found in the smaller cache is the entry found in the larger one. */
  lemma FoundInBoth<V>(s: Entries<V>, t: Entries<V>, key: Key)
    requires Included(s, t)
    ensures Find(s, key).Some? ==> Find(t, key) == Find(s, key)
  {
    var gone :| s == Without(t, gone);
    FindWithout(t, gone, key);
  }

  lemma ReadKeepsNesting<V>(s: Entries<V>, t: Entries<V>, small: int, large: int, key: Key, now: real)
    requires Nested(s, t, small, large)
    ensures Nested(Get(s, key, now).1, Get(t, key, now).1, small, large)
    ensures Get(s, key, now).0.Some? ==> Get(t, key, now).0 == Get(s, key, now).0
  {
    FoundInBoth(s, t, key);
    RemovalKeepsNesting(s, t, small, large, key);
    GetFits(s, small, key, now);
    GetFits(t, large, key, now);
    RemoveOne(s, key);
    RemoveOne(t, key);
    FindMember(s, key);
    FindMember(t, key);
    WithoutMembers(t, {key});
    var s', t' := Without(s, {key}), Without(t, {key});
    if Get(s, key, now).0.Some? {
      AppendKeepsInclusion(s', t', Find(t, key).value);
    } else if Get(t, key, now).0.Some? {
      AppendOutside(s', t', Find(t, key).value);
    }
  }

  /** Appending to the larger cache alone keeps inclusion. */
  lemma AppendOutside<V>(s: Entries<V>, t: Entries<V>, e: Entry<V>)
    requires Included(s, t) && e.key !in Keys(t)
    ensures Included(s, t + [e])
  {
    var gone :| s == Without(t, gone);
    WithoutTwice(t, {e.key}, gone);
    WithoutAbsent(t, {e.key});
    assert {e.key} + gone == gone + {e.key};
    WithoutConcat(t, [e], gone + {e.key});
    assert s == Without(t + [e], gone + {e.key});
  }

  lemma EvictionKeepsInclusion<V>(s: Entries<V>, t: Entries<V>)
    requires Included(s, t) && Distinct(s) && s != []
    ensures Included(s[1..], t)
  {
    var gone :| s == Without(t, gone);
    EvictIsRemoval(s);
    WithoutTwice(t, gone, {s[0].key});
    assert s[1..] == Without(t, gone + {s[0].key});
  }

  lemma EvictBoth<V>(s: Entries<V>, t: Entries<V>)
    requires Included(s, t) && Distinct(s) && Distinct(t) && s != [] && t != []
    ensures Included(s[1..], t[1..])
  {
    var gone :| s == Without(t, gone);
    if t[0].key in gone {
      EvictionKeepsInclusion(s, t);
      EvictIsRemoval(s);
      WithoutTwice(t[1..], gone, {s[0].key});
      assert s[1..] == Without(t[1..], gone + {s[0].key});
    } else {
      assert s[1..] == Without(t[1..], gone);
    }
  }

  /** Both caches make room for one key; the larger never evicts what the smaller keeps. */
  lemma RoomKeepsNesting<V>(s: Entries<V>, t: Entries<V>, small: int, large: int, key: Key)
    requires Nested(s, t, small, large) && 1 <= small <= large
    ensures var s', t' := MakeRoom(s, small, key), MakeRoom(t, large, key);
      Included(s', t') && |t'| - |s'| <= large - small
  {
    FoundInBoth(s, t, key);
    FindMember(s, key);
    FindMember(t, key);
    RemoveOne(s, key);
    RemoveOne(t, key);
    if Find(t, key).Some? {
      RemovalKeepsNesting(s, t, small, large, key);
      if Find(s, key).None? {
        WithoutAbsent(s, {key});
        if |s| >= small {
          EvictionKeepsInclusion(s, Without(t, {key}));
        }
      }
    } else if |s| >= small {
      if |t| >= large {
        EvictBoth(s, t);
      } else {
        EvictionKeepsInclusion(s, t);
      }
    }
  }

  lemma WriteKeepsNesting<V>(s: Entries<V>, t: Entries<V>, small: int, large: int, e: Op<V>)
    requires Nested(s, t, small, large) && 1 <= small <= large && e.Write?
    ensures Nested(Apply(s, small, e), Apply(t, large, e), small, large)
  {
    RoomKeepsNesting(s, t, small, large, e.key);
    RoomIsMade(t, large, e.key);
    AppendKeepsInclusion(MakeRoom(s, small, e.key), MakeRoom(t, large, e.key), Entry(e.key, e.value, Expiry(e.ttl, e.now)));
    SetFits(s, small, e.key, e.value, e.ttl, e.now);
    SetFits(t, large, e.key, e.value, e.ttl, e.now);
  }

  lemma {:induction false} RemovalsKeepNesting<V>(s: Entries<V>, t: Entries<V>, small: int, large: int, keys: set<Key>)
    requires Nested(s, t, small, large)
    ensures Nested(Without(s, keys), Without(t, keys), small, large)
    decreases keys
  {
    if keys == {} {
      WithoutAbsent(s, keys);
      WithoutAbsent(t, keys);
    } else {
      var k :| k in keys;
      RemovalKeepsNesting(s, t, small, large, k);
      RemovalsKeepNesting(Without(s, {k}), Without(t, {k}), small, large, keys - {k});
      WithoutTwice(s, {k}, keys - {k});
      WithoutTwice(t, {k}, keys - {k});
      assert {k} + (keys - {k}) == keys;
    }
  }

  // ---- get-or-compute: the two caches may load at different times

  /** The smaller cache does not load, or both do, or it loads again the very entry that the larger still holds. */
  ghost predicate SameLoad<V>(s: Entries<V>, t: Entries<V>, op: Op<V>) {
    op.Compute? && Misses(s, op.key, op.computed, op.now) && Get(t, op.key, op.now).0.Some? ==>
      Find(t, op.key) == Some(Entry(op.key, op.computed.value, Expiry(op.ttl, op.now)))
  }

  /** When the larger cache misses, so does the smaller, and both load. */
  lemma LoadKeepsNesting<V>(s: Entries<V>, t: Entries<V>, small: int, large: int, op: Op<V>)
    requires Nested(s, t, small, large) && 1 <= small <= large
    requires op.Compute? && op.computed.Some? && Get(t, op.key, op.now).0.None?
    ensures Nested(Apply(s, small, op), Apply(t, large, op), small, large)
  {
    ReadKeepsNesting(s, t, small, large, op.key, op.now);
    var s', t' := Get(s, op.key, op.now).1, Get(t, op.key, op.now).1;
    WriteKeepsNesting(s', t', small, large, Op.Write(op.key, op.computed.value, op.ttl, op.now));
  }

  /** Only the smaller cache loads: it ends inside the larger exactly when it loads the entry found there. */
  lemma LoneLoad<V>(s: Entries<V>, t: Entries<V>, small: int, large: int, op: Op<V>)
    requires Nested(s, t, small, large) && 1 <= small <= large
    requires op.Compute? && Misses(s, op.key, op.computed, op.now) && Get(t, op.key, op.now).0.Some?
    ensures Included(Apply(s, small, op), Apply(t, large, op)) <==> SameLoad(s, t, op)
    ensures SameLoad(s, t, op) ==> Nested(Apply(s, small, op), Apply(t, large, op), small, large)
  {
    var key, e := op.key, Entry(op.key, op.computed.value, Expiry(op.ttl, op.now));
    FoundInBoth(s, t, key);
    RemovalKeepsNesting(s, t, small, large, key);
    FindMember(s, key);
    WithoutAbsent(s, {key});
    WithoutMembers(t, {key});
    var room, rest := MakeRoom(s, small, key), Without(t, {key});
    assert Get(s, key, op.now).1 == s && Apply(s, small, op) == room + [e];
    RoomIsMade(s, small, key);
    GetFits(t, large, key, op.now);
    SetFits(s, small, key, op.computed.value, op.ttl, op.now);
    if |s| >= small {
      EvictionKeepsInclusion(s, rest);
    }
    assert Included(room, rest);
    if SameLoad(s, t, op) {
      AppendKeepsInclusion(room, rest, e);
      FindMember(t, key);
      RemoveOne(t, key);
    } else if Included(room + [e], Apply(t, large, op)) {
      FoundInBoth(room + [e], rest + [Find(t, key).value], key);
      FindMember(t, key);
      FindLast(rest, Find(t, key).value);
    }
  }

  /** A get-or-compute keeps the smaller cache inside the larger exactly when it is a same load. */
  lemma ComputeKeepsInclusionIff<V>(s: Entries<V>, t: Entries<V>, small: int, large: int, op: Op<V>)
    requires Nested(s, t, small, large) && 1 <= small <= large && op.Compute?
    ensures Included(Apply(s, small, op), Apply(t, large, op)) <==> SameLoad(s, t, op)
    ensures SameLoad(s, t, op) ==> Nested(Apply(s, small, op), Apply(t, large, op), small, large)
  {
    ReadKeepsNesting(s, t, small, large, op.key, op.now);
    if op.computed.Some? && Get(t, op.key, op.now).0.None? {
      LoadKeepsNesting(s, t, small, large, op);
    } else if Misses(s, op.key, op.computed, op.now) {
      LoneLoad(s, t, small, large, op);
    }
  }

  lemma ApplyKeepsNesting<V>(s: Entries<V>, t: Entries<V>, small: int, large: int, op: Op<V>)
    requires Nested(s, t, small, large) && 1 <= small <= large && SameLoad(s, t, op)
    ensures Nested(Apply(s, small, op), Apply(t, large, op), small, large)
  {
    match op
    case Read(key, now) => ReadKeepsNesting(s, t, small, large, key, now);
    case Write(_, _, _, _) => WriteKeepsNesting(s, t, small, large, op);
    case Invalidate(key) => RemovalKeepsNesting(s, t, small, large, key);
    case InvalidatePrefix(prefix) =>
      var keys := set k | k in Keys(s) + Keys(t) && prefix <= k;
      PrefixRemoval(s, prefix, keys);
      PrefixRemoval(t, prefix, keys);
      RemovalsKeepNesting(s, t, small, large, keys);
    case Compute(_, _, _, _) => ComputeKeepsInclusionIff(s, t, small, large, op);
  }

  // ---- whole traces

  /** Every get-or-compute of the trace is a same load when its turn comes. */
  ghost predicate SameLoads<V>(small: int, large: int, ops: seq<Op<V>>) {
    ops == [] ||
    (SameLoads(small, large, ops[..|ops| - 1]) &&
     SameLoad(After(small, ops[..|ops| - 1]), After(large, ops[..|ops| - 1]), ops[|ops| - 1]))
  }

  /** The smaller cache is inside the larger now and was after every operation before. */
  ghost predicate AlwaysIncluded<V>(small: int, large: int, ops: seq<Op<V>>) {
    Included(After(small, ops), After(large, ops)) && (ops == [] || AlwaysIncluded(small, large, ops[..|ops| - 1]))
  }

  /** Under one trace of same loads: no cache overflows, the smaller is a subsequence of the larger entry for entry. */
  lemma {:induction false} LargerCacheIncludesSmaller<V>(small: int, large: int, ops: seq<Op<V>>)
    requires 1 <= small <= large && SameLoads(small, large, ops)
    ensures Nested(After(small, ops), After(large, ops), small, large)
    ensures Hits(small, ops) <= Hits(large, ops)
  {
    if ops == [] {
      assert After(small, ops) == Without(After(large, ops), {});
    } else {
      var before, last := ops[..|ops| - 1], ops[|ops| - 1];
      LargerCacheIncludesSmaller(small, large, before);
      ApplyKeepsNesting(After(small, before), After(large, before), small, large, last);
      if last.Read? || last.Compute? {
        ReadKeepsNesting(After(small, before), After(large, before), small, large, last.key, last.now);
      }
    }
  }

  /** Exactly the traces of same loads keep the smaller cache inside the larger throughout. */
  lemma {:induction false} AlwaysIncludedIff<V>(small: int, large: int, ops: seq<Op<V>>)
    requires 1 <= small <= large
    ensures AlwaysIncluded(small, large, ops) <==> SameLoads(small, large, ops)
  {
    if ops == [] {
      assert After(small, ops) == Without(After(large, ops), {});
    } else {
      var before, last := ops[..|ops| - 1], ops[|ops| - 1];
      AlwaysIncludedIff(small, large, before);
      if SameLoads(small, large, before) {
        LargerCacheIncludesSmaller(small, large, before);
        if last.Compute? {
          ComputeKeepsInclusionIff(After(small, before), After(large, before), small, large, last);
        } else {
          ApplyKeepsNesting(After(small, before), After(large, before), small, large, last);
        }
      }
    }
  }

  /** A trace of gets, sets and invalidations alone is one of them, whatever it is. */
  lemma {:induction false} PlainTraceIsAlwaysIncluded<V>(small: int, large: int, ops: seq<Op<V>>)
    requires 1 <= small <= large && forall op :: op in ops ==> !op.Compute?
    ensures SameLoads(small, large, ops) && AlwaysIncluded(small, large, ops)
  {
    if ops != [] {
      assert ops[|ops| - 1] in ops;
      PlainTraceIsAlwaysIncluded(small, large, ops[..|ops| - 1]);
    }
    AlwaysIncludedIff(small, large, ops);
  }

  /** What a hit of the smaller cache returns, the larger one returns too. */
  lemma SmallerHitIsLargerHit<V>(small: int, large: int, ops: seq<Op<V>>, key: Key, now: real)
    requires 1 <= small <= large && SameLoads(small, large, ops) && Get(After(small, ops), key, now).0.Some?
    ensures Get(After(large, ops), key, now).0 == Get(After(small, ops), key, now).0
  {
    LargerCacheIncludesSmaller(small, large, ops);
    ReadKeepsNesting(After(small, ops), After(large, ops), small, large, key, now);
  }

  /**
    A trace that is not one of same loads: the smaller cache reloads what it evicted, with a later expiry, and can then
    hit where the larger one has expired: loads of a and b, a reload of a at 5, a read of a at 12.
   */
  function Reloaded(capacity: int): Entries<int> {
    var ttl := Some(10.0);
    var c := GetOr([], capacity, "a", Some(1), ttl, 0.0).1;
    var d := GetOr(c, capacity, "b", Some(2), ttl, 0.0).1;
    GetOr(d, capacity, "a", Some(1), ttl, 5.0).1
  }

  lemma LoadsOfOne()
    ensures Reloaded(1) == [Entry("a", 1, Some(15.0))]
  {
    var ttl := Some(10.0);
    var ca: Entries<int>, cb: Entries<int> := [Entry("a", 1, Some(10.0))], [Entry("b", 2, Some(10.0))];
    assert GetOr([], 1, "a", Some(1), ttl, 0.0).1 == ca;
    assert ca[1..] == [] && Find(ca, "b") == None && Without(ca, {"b"}) == ca && MakeRoom(ca, 1, "b") == [];
    assert GetOr(ca, 1, "b", Some(2), ttl, 0.0).1 == cb;
    assert cb[1..] == [] && Find(cb, "a") == None && Without(cb, {"a"}) == cb && MakeRoom(cb, 1, "a") == [];
  }

  lemma LoadsOfTwo()
    ensures Reloaded(2) == [Entry("b", 2, Some(10.0)), Entry("a", 1, Some(10.0))]
  {
    var ttl, a, b := Some(10.0), Entry("a", 1, Some(10.0)), Entry("b", 2, Some(10.0));
    var ca: Entries<int>, cab: Entries<int> := [a], [a, b];
    assert GetOr([], 2, "a", Some(1), ttl, 0.0).1 == ca;
    assert ca[1..] == [] && Find(ca, "b") == None && Without(ca, {"b"}) == ca && MakeRoom(ca, 2, "b") == ca;
    assert GetOr(ca, 2, "b", Some(2), ttl, 0.0).1 == cab;
    assert cab[1..] == [b] && cab[1..][1..] == [];
  }

  lemma ReloadOutlivesOriginal()
    ensures Get(Reloaded(1), "a", 12.0).0 == Some(1) && Get(Reloaded(2), "a", 12.0).0 == None
  {
    LoadsOfOne();
    LoadsOfTwo();
    assert Reloaded(2)[1..][0].key == "a";
  }
}
