/**
  Which keys the cache holds, told from the trace alone. The list is kept in the order of last use, a write to a full
  cache evicts the key whose last use is longest ago, and while nothing expires or is invalidated, what is held is
  exactly what was used most recently. What is served was stored, and has not been replaced or removed since.
 */
module Recency {
  import opened Types
  import opened LruCaches

  /** The key an operation asks for or stores. */
  function Asked<V>(op: Op<V>): Option<Key> {
    match op
    case Read(key, _) => Some(key)
    case Write(key, _, _, _) => Some(key)
    case Compute(key, _, _, _) => Some(key)
    case _ => None
  }

  /** When a key was last asked for or stored, counting operations from one; zero for never. */
  function LastUse<V>(ops: seq<Op<V>>, key: Key): nat {
    if ops == [] then 0
    else if Asked(ops[|ops| - 1]) == Some(key) then |ops|
    else LastUse(ops[..|ops| - 1], key)
  }

  // ---- the list is in the order of last use

  /** The entries are in the order of these times of their keys. */
  ghost predicate Rising<V>(c: Entries<V>, time: Key -> nat) {
    forall i, j :: 0 <= i < j < |c| ==> time(c[i].key) < time(c[j].key)
  }

  /** Of all keys only this one has a new time, later than any before. */
  ghost predicate UsedNow(before: Key -> nat, after: Key -> nat, key: Key) {
    forall k :: if k == key then after(k) > before(key) else after(k) == before(k) < after(key)
  }

  lemma {:induction false} RemovalKeepsRising<V>(c: Entries<V>, gone: set<Key>, time: Key -> nat)
    requires Rising(c, time)
    ensures Rising(Without(c, gone), time)
  {
    if c != [] {
      RemovalKeepsRising(c[1..], gone, time);
      WithoutMembers(c[1..], gone);
      var rest := Without(c[1..], gone);
      forall j | 0 <= j < |rest| ensures time(c[0].key) < time(rest[j].key) {
        assert rest[j] in c[1..];
      }
    }
  }

  /** The entry of a key used now goes to the end. */
  lemma AppendKeepsRising<V>(c: Entries<V>, e: Entry<V>, before: Key -> nat, after: Key -> nat)
    requires Rising(c, before) && UsedNow(before, after, e.key) && e.key !in Keys(c)
    ensures Rising(c + [e], after)
  {
    forall i | 0 <= i < |c| ensures after(c[i].key) == before(c[i].key) < after(e.key) {
      assert c[i] in c;
    }
  }

  lemma SameTimesKeepRising<V>(c: Entries<V>, key: Key, before: Key -> nat, after: Key -> nat)
    requires Rising(c, before) && UsedNow(before, after, key) && key !in Keys(c)
    ensures Rising(c, after)
  {
    forall i | 0 <= i < |c| ensures after(c[i].key) == before(c[i].key) {
      assert c[i] in c;
    }
  }

  lemma GetKeepsRising<V>(c: Entries<V>, key: Key, now: real, before: Key -> nat, after: Key -> nat)
    requires Rising(c, before) && UsedNow(before, after, key)
    ensures Rising(Get(c, key, now).1, after)
    ensures Get(c, key, now).0.None? ==> Rising(Get(c, key, now).1, before) && key !in Keys(Get(c, key, now).1)
  {
    RemovalKeepsRising(c, {key}, before);
    WithoutMembers(c, {key});
    FindMember(c, key);
    if Get(c, key, now).0.Some? {
      AppendKeepsRising(Without(c, {key}), Find(c, key).value, before, after);
    } else {
      SameTimesKeepRising(Without(c, {key}), key, before, after);
    }
  }

  lemma SetKeepsRising<V>(
    c: Entries<V>, capacity: int, key: Key, value: V, ttl: Option<real>, now: real, before: Key -> nat, after: Key -> nat)
    requires Rising(c, before) && UsedNow(before, after, key)
    ensures Rising(Set(c, capacity, key, value, ttl, now), after)
  {
    RemovalKeepsRising(c, {key}, before);
    RisingIsDistinct(c, before);
    RoomIsMade(c, capacity, key);
    AppendKeepsRising(MakeRoom(c, capacity, key), Entry(key, value, Expiry(ttl, now)), before, after);
  }

  lemma RisingIsDistinct<V>(c: Entries<V>, time: Key -> nat)
    requires Rising(c, time)
    ensures Distinct(c)
  {
  }

  lemma {:induction false} UsesAreNumbered<V>(ops: seq<Op<V>>, key: Key)
    ensures LastUse(ops, key) <= |ops|
  {
    if ops != [] {
      UsesAreNumbered(ops[..|ops| - 1], key);
    }
  }

  function TimesIn<V>(ops: seq<Op<V>>): Key -> nat {
    k => LastUse(ops, k)
  }

  lemma AskingIsUsing<V>(ops: seq<Op<V>>)
    requires ops != []
    ensures match Asked(ops[|ops| - 1])
      case Some(key) => UsedNow(TimesIn(ops[..|ops| - 1]), TimesIn(ops), key)
      case None => forall k :: TimesIn(ops)(k) == TimesIn(ops[..|ops| - 1])(k)
  {
    var before := ops[..|ops| - 1];
    forall k ensures LastUse(before, k) < |ops| {
      UsesAreNumbered(before, k);
    }
  }

  /** Whatever the trace, expiry and invalidations included, the list is in the order of last use. */
  lemma {:induction false} ListedByLastUse<V>(capacity: int, ops: seq<Op<V>>)
    ensures Rising(After(capacity, ops), TimesIn(ops))
  {
    if ops != [] {
      var before, last := ops[..|ops| - 1], ops[|ops| - 1];
      var c := After(capacity, before);
      ListedByLastUse(capacity, before);
      AskingIsUsing(ops);
      match last {
        case Read(key, now) => GetKeepsRising(c, key, now, TimesIn(before), TimesIn(ops));
        case Write(key, value, ttl, now) => SetKeepsRising(c, capacity, key, value, ttl, now, TimesIn(before), TimesIn(ops));
        case Invalidate(key) => RemovalKeepsRising(c, {key}, TimesIn(before));
        case InvalidatePrefix(prefix) =>
          var gone := set k | k in Keys(c) && prefix <= k;
          PrefixRemoval(c, prefix, gone);
          RemovalKeepsRising(c, gone, TimesIn(before));
        case Compute(key, computed, ttl, now) =>
          GetKeepsRising(c, key, now, TimesIn(before), TimesIn(ops));
          if Misses(c, key, computed, now) {
            SetKeepsRising(Get(c, key, now).1, capacity, key, computed.value, ttl, now, TimesIn(before), TimesIn(ops));
          }
      }
    }
  }

  /** A write of a new key to a full cache evicts exactly the key whose last use is longest ago. */
  lemma WriteEvictsLeastRecent<V>(
    capacity: int, ops: seq<Op<V>>, key: Key, value: V, ttl: Option<real>, now: real) returns (gone: Key)
    requires var c := After(capacity, ops); key !in Keys(c) && c != [] && |c| >= capacity
    ensures var c := After(capacity, ops);
      && gone in Keys(c) && (forall k :: k in Keys(c) && k != gone ==> LastUse(ops, gone) < LastUse(ops, k))
      && forall e :: e in Set(c, capacity, key, value, ttl, now) <==>
           (e in c && e.key != gone) || e == Entry(key, value, Expiry(ttl, now))
  {
    var c := After(capacity, ops);
    ListedByLastUse(capacity, ops);
    RisingIsDistinct(c, TimesIn(ops));
    FindMember(c, key);
    EvictIsRemoval(c);
    WithoutMembers(c, {c[0].key});
    gone := c[0].key;
    assert c[0] in c;
    forall k | k in Keys(c) && k != gone ensures LastUse(ops, gone) < LastUse(ops, k) {
      var e :| e in c && e.key == k;
      var i :| 0 <= i < |c| && c[i] == e;
      assert TimesIn(ops)(c[0].key) < TimesIn(ops)(c[i].key);
    }
  }

  // ---- while nothing expires or is invalidated, exactly the most recently used keys are held

  /** Neither an invalidation, nor something stored for a limited time. */
  predicate Lasting<V>(op: Op<V>) {
    match op
    case Read(_, _) => true
    case Write(_, _, ttl, _) => ttl.None? || ttl.value == 0.0
    case Compute(_, _, ttl, _) => ttl.None? || ttl.value == 0.0
    case _ => false
  }

  predicate Stores<V>(op: Op<V>) {
    op.Write? || (op.Compute? && op.computed.Some?)
  }

  function AskedKeys<V>(ops: seq<Op<V>>): set<Key> {
    if ops == [] then {}
    else
      AskedKeys(ops[..|ops| - 1]) +
      match Asked(ops[|ops| - 1]) case Some(key) => {key} case None => {}
  }

  /** When a key was last stored, or asked for while remembered, counting from one; zero for never. */
  function LastHeld<V>(capacity: int, ops: seq<Op<V>>, key: Key): nat
    decreases |ops|, 0
  {
    if ops == [] then 0
    else
      var before, last := ops[..|ops| - 1], ops[|ops| - 1];
      if Asked(last) == Some(key) && (Stores(last) || Remembered(capacity, before, key)) then |ops|
      else LastHeld(capacity, before, key)
  }

  /** The keys used more recently. */
  function Newer<V>(capacity: int, ops: seq<Op<V>>, key: Key): set<Key>
    decreases |ops|, 1
  {
    set k | k in AskedKeys(ops) && LastHeld(capacity, ops, k) > LastHeld(capacity, ops, key)
  }

  /** A key is remembered while fewer than `capacity` others have been used since. */
  predicate Remembered<V>(capacity: int, ops: seq<Op<V>>, key: Key)
    decreases |ops|, 2
  {
    LastHeld(capacity, ops, key) > 0 && |Newer(capacity, ops, key)| < capacity
  }

  function HeldIn<V>(capacity: int, ops: seq<Op<V>>): Key -> nat {
    k => LastHeld(capacity, ops, k)
  }

  ghost predicate OlderThanAll<V>(k: Key, c: Entries<V>, time: Key -> nat) {
    forall e :: e in c ==> time(k) < time(e.key)
  }

  ghost predicate AllUsed<V>(c: Entries<V>, time: Key -> nat) {
    forall e :: e in c ==> time(e.key) > 0 && e.expiresAt.None?
  }

  /** What was used and is not held is older than all that is, and found no room. */
  ghost predicate OthersFoundNoRoom<V>(c: Entries<V>, capacity: int, time: Key -> nat) {
    forall k :: time(k) > 0 && k !in Keys(c) ==> |c| == capacity && OlderThanAll(k, c, time)
  }

  ghost predicate MostRecent<V>(c: Entries<V>, capacity: int, time: Key -> nat) {
    Rising(c, time) && |c| <= capacity && AllUsed(c, time) && OthersFoundNoRoom(c, capacity, time)
  }

  lemma {:induction false} HeldWasAsked<V>(capacity: int, ops: seq<Op<V>>, key: Key)
    ensures LastHeld(capacity, ops, key) <= |ops|
    ensures LastHeld(capacity, ops, key) > 0 ==> key in AskedKeys(ops)
  {
    if ops != [] {
      HeldWasAsked(capacity, ops[..|ops| - 1], key);
    }
  }

  lemma {:induction false} OneKeyEach<V>(c: Entries<V>)
    requires Distinct(c)
    ensures |Keys(c)| == |c|
  {
    if c == [] {
      assert Keys(c) == {};
    } else {
      OneKeyEach(c[1..]);
      assert forall e :: e in c <==> e == c[0] || e in c[1..];
      assert Keys(c) == Keys(c[1..]) + {c[0].key};
    }
  }

  lemma MostRecentIsRemembered<V>(c: Entries<V>, capacity: int, ops: seq<Op<V>>, key: Key)
    requires MostRecent(c, capacity, HeldIn(capacity, ops))
    ensures key in Keys(c) <==> Remembered(capacity, ops, key)
  {
    var time := HeldIn(capacity, ops);
    var newer := Newer(capacity, ops, key);
    RisingIsDistinct(c, time);
    OneKeyEach(c);
    if key in Keys(c) {
      var e :| e in c && e.key == key;
      forall k | k in newer ensures k in Keys(c) - {key} {
        assert time(k) > time(e.key);
      }
      SubsetIsSmaller(newer, Keys(c) - {key});
    } else if time(key) > 0 {
      forall k | k in Keys(c) ensures k in newer {
        var e :| e in c && e.key == k;
        HeldWasAsked(capacity, ops, k);
        assert time(key) < time(e.key);
      }
      SubsetIsSmaller(Keys(c), newer);
    }
  }

  lemma AppendedKeys<V>(c: Entries<V>, e: Entry<V>)
    ensures forall x :: x in c + [e] <==> x in c || x == e
    ensures Keys(c + [e]) == Keys(c) + {e.key}
  {
    assert forall x :: x in c + [e] <==> x in c || x == e;
    assert forall k :: k in Keys(c + [e]) <==> k in Keys(c) || k == e.key;
  }

  lemma RemovedKeys<V>(c: Entries<V>, key: Key)
    ensures forall x :: x in Without(c, {key}) <==> x in c && x.key != key
    ensures Keys(Without(c, {key})) == Keys(c) - {key}
  {
    WithoutMembers(c, {key});
    assert forall x :: x in Without(c, {key}) <==> x in c && x.key != key;
  }

  /** Keys that found no room before still are older than all. */
  lemma StillOlder<V>(k: Key, c: Entries<V>, c': Entries<V>, key: Key, before: Key -> nat, after: Key -> nat)
    requires OlderThanAll(k, c, before) && UsedNow(before, after, key) && k != key
    requires forall e :: e in c' ==> e in c || e.key == key
    ensures OlderThanAll(k, c', after)
  {
    forall e | e in c' ensures after(k) < after(e.key) {
      assert e.key == key || before(k) < before(e.key);
    }
  }

  lemma AllStillUsed<V>(c: Entries<V>, c': Entries<V>, e: Entry<V>, before: Key -> nat, after: Key -> nat)
    requires AllUsed(c, before) && UsedNow(before, after, e.key) && e.expiresAt.None?
    requires forall x :: x in c' ==> x in c || x == e
    ensures AllUsed(c', after)
  {
    forall x | x in c' ensures after(x.key) > 0 && x.expiresAt.None? {
      assert x.key == e.key || before(x.key) > 0;
    }
  }

  /** The entry of a held key, or a new value for it, goes to the end. */
  lemma HitKeepsMostRecent<V>(c: Entries<V>, capacity: int, e: Entry<V>, before: Key -> nat, after: Key -> nat)
    requires MostRecent(c, capacity, before) && UsedNow(before, after, e.key) && e.key in Keys(c) && e.expiresAt.None?
    ensures MostRecent(Without(c, {e.key}) + [e], capacity, after)
  {
    var rest := Without(c, {e.key});
    var moved := rest + [e];
    RisingIsDistinct(c, before);
    RemoveOne(c, e.key);
    assert Rising(moved, after) by {
      RemovalKeepsRising(c, {e.key}, before);
      RemovedKeys(c, e.key);
      AppendKeepsRising(rest, e, before, after);
    }
    RemovedKeys(c, e.key);
    AppendedKeys(rest, e);
    assert AllUsed(moved, after) by {
      AllStillUsed(c, moved, e, before, after);
    }
    assert OthersFoundNoRoom(moved, capacity, after) by {
      forall k | after(k) > 0 && k !in Keys(moved) ensures |moved| == capacity && OlderThanAll(k, moved, after) {
        assert before(k) > 0 && k !in Keys(c);
        StillOlder(k, c, moved, e.key, before, after);
      }
    }
  }

  /** A new key is added while there is room. */
  lemma RoomLeft<V>(c: Entries<V>, capacity: int, e: Entry<V>, before: Key -> nat, after: Key -> nat)
    requires MostRecent(c, capacity, before) && UsedNow(before, after, e.key) && e.key !in Keys(c) && e.expiresAt.None?
    requires |c| < capacity
    ensures MostRecent(c + [e], capacity, after)
  {
    AppendKeepsRising(c, e, before, after);
    AppendedKeys(c, e);
    AllStillUsed(c, c + [e], e, before, after);
  }

  /** And takes the place of the oldest when there is none. */
  lemma NoRoomLeft<V>(c: Entries<V>, capacity: int, e: Entry<V>, before: Key -> nat, after: Key -> nat)
    requires MostRecent(c, capacity, before) && UsedNow(before, after, e.key) && e.key !in Keys(c) && e.expiresAt.None?
    requires |c| == capacity >= 1
    ensures MostRecent(c[1..] + [e], capacity, after)
  {
    var rest, oldest := c[1..], c[0].key;
    RisingIsDistinct(c, before);
    RemovalKeepsRising(c, {oldest}, before);
    EvictIsRemoval(c);
    RemovedKeys(c, oldest);
    AppendedKeys(rest, e);
    AppendKeepsRising(rest, e, before, after);
    OldestIsOlder(c, before);
    AllStillUsed(c, rest + [e], e, before, after);
    forall k | after(k) > 0 && k !in Keys(rest + [e]) ensures OlderThanAll(k, rest + [e], after) {
      assert before(k) > 0;
      assert OlderThanAll(k, rest, before);
      StillOlder(k, rest, rest + [e], e.key, before, after);
    }
  }

  lemma OldestIsOlder<V>(c: Entries<V>, time: Key -> nat)
    requires Rising(c, time) && c != []
    ensures OlderThanAll(c[0].key, c[1..], time)
  {
  }

  lemma HoldingIsUsing<V>(capacity: int, ops: seq<Op<V>>)
    requires ops != []
    ensures match Asked(ops[|ops| - 1])
      case Some(key) =>
        if Stores(ops[|ops| - 1]) || Remembered(capacity, ops[..|ops| - 1], key)
        then UsedNow(HeldIn(capacity, ops[..|ops| - 1]), HeldIn(capacity, ops), key)
        else forall k :: HeldIn(capacity, ops)(k) == HeldIn(capacity, ops[..|ops| - 1])(k)
      case None => true
  {
    var before := ops[..|ops| - 1];
    forall k ensures LastHeld(capacity, before, k) < |ops| {
      HeldWasAsked(capacity, before, k);
    }
  }

  /** What storing a lasting value makes of the list. */
  lemma SettingKeepsMostRecent<V>(
    c: Entries<V>, capacity: int, key: Key, value: V, ttl: Option<real>, now: real, before: Key -> nat, after: Key -> nat)
    requires MostRecent(c, capacity, before) && capacity >= 1 && UsedNow(before, after, key) && (ttl.None? || ttl.value == 0.0)
    ensures MostRecent(Set(c, capacity, key, value, ttl, now), capacity, after)
  {
    var e := Entry(key, value, None);
    FindMember(c, key);
    if key in Keys(c) {
      HitKeepsMostRecent(c, capacity, e, before, after);
    } else if |c| < capacity {
      RoomLeft(c, capacity, e, before, after);
    } else {
      NoRoomLeft(c, capacity, e, before, after);
    }
  }

  /** Asking for a key uses it if it is held, and changes nothing otherwise. */
  lemma GettingKeepsMostRecent<V>(c: Entries<V>, capacity: int, key: Key, now: real, before: Key -> nat, after: Key -> nat)
    requires MostRecent(c, capacity, before)
    ensures Get(c, key, now).0.Some? <==> key in Keys(c)
    ensures key in Keys(c) && UsedNow(before, after, key) ==> MostRecent(Get(c, key, now).1, capacity, after)
    ensures key !in Keys(c) ==> Get(c, key, now).1 == c
  {
    FindMember(c, key);
    if key !in Keys(c) {
      WithoutAbsent(c, {key});
    } else if UsedNow(before, after, key) {
      HitKeepsMostRecent(c, capacity, Find(c, key).value, before, after);
    }
  }

  lemma SameTimesKeepMostRecent<V>(c: Entries<V>, capacity: int, before: Key -> nat, after: Key -> nat)
    requires MostRecent(c, capacity, before) && forall k :: after(k) == before(k)
    ensures MostRecent(c, capacity, after)
  {
  }

  /** A lasting operation uses its key if it stores it, or if it is held. */
  lemma ApplyKeepsMostRecent<V>(c: Entries<V>, capacity: int, op: Op<V>, before: Key -> nat, after: Key -> nat)
    requires MostRecent(c, capacity, before) && capacity >= 1 && Lasting(op)
    requires if Stores(op) || Asked(op).value in Keys(c) then UsedNow(before, after, Asked(op).value)
             else forall k :: after(k) == before(k)
    ensures MostRecent(Apply(c, capacity, op), capacity, after)
  {
    match op
    case Write(key, value, ttl, now) => SettingKeepsMostRecent(c, capacity, key, value, ttl, now, before, after);
    case Read(key, now) =>
      GettingKeepsMostRecent(c, capacity, key, now, before, after);
      if key !in Keys(c) {
        SameTimesKeepMostRecent(c, capacity, before, after);
      }
    case Compute(key, computed, ttl, now) =>
      GettingKeepsMostRecent(c, capacity, key, now, before, after);
      if Misses(c, key, computed, now) {
        SettingKeepsMostRecent(c, capacity, key, computed.value, ttl, now, before, after);
      } else if key !in Keys(c) {
        SameTimesKeepMostRecent(c, capacity, before, after);
      }
  }

  /**
    While nothing expires or is invalidated, the cache holds exactly the `capacity` keys used most recently: a read hits
    exactly if fewer than `capacity` other keys have been used since its key was.
   */
  lemma {:induction false} HoldsTheMostRecent<V>(capacity: int, ops: seq<Op<V>>, key: Key, now: real)
    requires capacity >= 1 && forall i :: 0 <= i < |ops| ==> Lasting(ops[i])
    ensures MostRecent(After(capacity, ops), capacity, HeldIn(capacity, ops))
    ensures key in Keys(After(capacity, ops)) <==> Remembered(capacity, ops, key)
    ensures Get(After(capacity, ops), key, now).0.Some? <==> Remembered(capacity, ops, key)
  {
    var c := After(capacity, ops);
    if ops != [] {
      var before, last := ops[..|ops| - 1], ops[|ops| - 1];
      HoldsTheMostRecent(capacity, before, Asked(last).value, now);
      HoldingIsUsing(capacity, ops);
      ApplyKeepsMostRecent(After(capacity, before), capacity, last, HeldIn(capacity, before), HeldIn(capacity, ops));
    }
    MostRecentIsRemembered(c, capacity, ops, key);
    FindMember(c, key);
  }

  // ---- what is served was stored

  predicate Replaces<V>(op: Op<V>, key: Key) {
    match op
    case Write(k, _, _, _) => k == key
    case Invalidate(k) => k == key
    case InvalidatePrefix(prefix) => prefix <= key
    case _ => false
  }

  /** The i-th operation stored this entry, and nothing after it has written or invalidated its key. */
  ghost predicate StoredAt<V>(ops: seq<Op<V>>, i: nat, e: Entry<V>) {
    && i < |ops|
    && (match ops[i]
        case Write(key, value, ttl, now) => e == Entry(key, value, Expiry(ttl, now))
        case Compute(key, computed, ttl, now) => computed.Some? && e == Entry(key, computed.value, Expiry(ttl, now))
        case _ => false)
    && forall j :: i < j < |ops| ==> !Replaces(ops[j], e.key)
  }

  lemma GetLeaves<V>(c: Entries<V>, key: Key, now: real, e: Entry<V>)
    requires e in Get(c, key, now).1
    ensures e in c
    ensures Get(c, key, now).0.None? ==> e.key != key
  {
    FindMember(c, key);
    WithoutMembers(c, {key});
  }

  lemma SetLeaves<V>(c: Entries<V>, capacity: int, key: Key, value: V, ttl: Option<real>, now: real, e: Entry<V>)
    requires Distinct(c) && e in Set(c, capacity, key, value, ttl, now)
    ensures (e in c && e.key != key) || e == Entry(key, value, Expiry(ttl, now))
  {
    RoomIsMade(c, capacity, key);
    WithoutMembers(c, {key});
    assert forall x :: x in MakeRoom(c, capacity, key) ==> x in c;
  }

  /** What an operation leaves was there and is not replaced, or is what it stores. */
  lemma ApplyLeaves<V>(c: Entries<V>, capacity: int, op: Op<V>, e: Entry<V>)
    requires Distinct(c) && e in Apply(c, capacity, op)
    ensures (e in c && !Replaces(op, e.key)) || StoredAt([op], 0, e)
  {
    match op
    case Read(key, now) => GetLeaves(c, key, now, e);
    case Write(key, value, ttl, now) => SetLeaves(c, capacity, key, value, ttl, now, e);
    case Invalidate(key) => WithoutMembers(c, {key});
    case InvalidatePrefix(prefix) =>
      var keys := set k | k in Keys(c) && prefix <= k;
      PrefixRemoval(c, prefix, keys);
      WithoutMembers(c, keys);
    case Compute(key, computed, ttl, now) =>
      if Misses(c, key, computed, now) {
        WithoutMembers(c, {key});
        SetLeaves(Without(c, {key}), capacity, key, computed.value, ttl, now, e);
      } else {
        GetLeaves(c, key, now, e);
      }
  }

  lemma StillStored<V>(ops: seq<Op<V>>, i: nat, e: Entry<V>)
    requires ops != [] && StoredAt(ops[..|ops| - 1], i, e) && !Replaces(ops[|ops| - 1], e.key)
    ensures StoredAt(ops, i, e)
  {
    forall j | i < j < |ops| ensures !Replaces(ops[j], e.key) {
      assert j < |ops| - 1 ==> ops[..|ops| - 1][j] == ops[j];
    }
  }

  lemma {:induction false} EntriesWereStored<V>(capacity: int, ops: seq<Op<V>>, e: Entry<V>) returns (i: nat)
    requires e in After(capacity, ops)
    ensures StoredAt(ops, i, e)
  {
    var n := |ops| - 1;
    ListedByLastUse(capacity, ops[..n]);
    RisingIsDistinct(After(capacity, ops[..n]), TimesIn(ops[..n]));
    ApplyLeaves(After(capacity, ops[..n]), capacity, ops[n], e);
    if StoredAt([ops[n]], 0, e) {
      i := n;
    } else {
      i := EntriesWereStored(capacity, ops[..n], e);
      StillStored(ops, i, e);
    }
  }

  /** A hit serves what some write or load stored, unexpired, with no write or invalidation of the key since. */
  lemma ServedWasStored<V>(capacity: int, ops: seq<Op<V>>, key: Key, now: real) returns (i: nat)
    requires Get(After(capacity, ops), key, now).0.Some?
    ensures i < |ops| && Stores(ops[i]) && ops[i].key == key
    ensures Get(After(capacity, ops), key, now).0 == if ops[i].Write? then Some(ops[i].value) else ops[i].computed
    ensures ops[i].ttl.None? || ops[i].ttl.value == 0.0 || now <= ops[i].now + ops[i].ttl.value
    ensures forall j :: i < j < |ops| ==> !Replaces(ops[j], key)
  {
    var c := After(capacity, ops);
    FindMember(c, key);
    i := EntriesWereStored(capacity, ops, Find(c, key).value);
  }
}
