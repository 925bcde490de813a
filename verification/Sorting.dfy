/** The built-in stable sort, by an order given as a strict comparison. */
module Sorting {
  ghost predicate StrictWeakOrder<T(!new)>(lt: (T, T) -> bool) {
    && (forall a, b :: lt(a, b) ==> !lt(b, a))
    && (forall a, b, c :: !lt(a, b) && !lt(b, c) ==> !lt(a, c))
  }

  ghost predicate Sorted<T>(s: seq<T>, lt: (T, T) -> bool) {
    forall i, j :: 0 <= i < j < |s| ==> !lt(s[j], s[i])
  }

  function Insert<T>(x: T, s: seq<T>, lt: (T, T) -> bool): seq<T> {
    if s == [] || !lt(s[0], x) then [x] + s else [s[0]] + Insert(x, s[1..], lt)
  }

  function Sort<T>(s: seq<T>, lt: (T, T) -> bool): seq<T> {
    if s == [] then [] else Insert(s[0], Sort(s[1..], lt), lt)
  }

  /** The elements of `s`, in order, that `lt` does not tell apart from `x`. */
  function Ties<T>(s: seq<T>, x: T, lt: (T, T) -> bool): seq<T> {
    if s == [] then []
    else (if !lt(s[0], x) && !lt(x, s[0]) then [s[0]] else []) + Ties(s[1..], x, lt)
  }

  lemma {:induction false} InsertPermutes<T>(x: T, s: seq<T>, lt: (T, T) -> bool)
    ensures multiset(Insert(x, s, lt)) == multiset(s) + multiset{x}
  {
    if s != [] && lt(s[0], x) {
      InsertPermutes(x, s[1..], lt);
      assert s == [s[0]] + s[1..];
    }
  }

  lemma {:induction false} InsertSorted<T(!new)>(x: T, s: seq<T>, lt: (T, T) -> bool)
    requires StrictWeakOrder(lt) && Sorted(s, lt)
    ensures Sorted(Insert(x, s, lt), lt)
  {
    if s != [] && lt(s[0], x) {
      InsertSorted(x, s[1..], lt);
      InsertPermutes(x, s[1..], lt);
      var r := Insert(x, s[1..], lt);
      forall j | 0 <= j < |r| ensures !lt(r[j], s[0]) {
        assert r[j] in multiset(r);
        if r[j] != x {
          var k :| 0 <= k < |s[1..]| && s[1..][k] == r[j];
        }
      }
    } else {
      forall j | 0 <= j < |s| ensures !lt(s[j], x) {
      }
    }
  }

  lemma {:induction false} InsertKeepsTies<T(!new)>(x: T, s: seq<T>, y: T, lt: (T, T) -> bool)
    requires StrictWeakOrder(lt)
    ensures Ties(Insert(x, s, lt), y, lt) == Ties([x] + s, y, lt)
  {
    assert ([x] + s)[1..] == s;
    if s != [] && lt(s[0], x) {
      InsertKeepsTies(x, s[1..], y, lt);
      assert ([x] + s[1..])[1..] == s[1..];
      assert Insert(x, s, lt)[1..] == Insert(x, s[1..], lt);
    }
  }

  /** The sort returns a sorted permutation that keeps the order of elements it cannot tell apart. */
  lemma {:induction false} SortIsStable<T(!new)>(s: seq<T>, lt: (T, T) -> bool)
    requires StrictWeakOrder(lt)
    ensures Sorted(Sort(s, lt), lt) && multiset(Sort(s, lt)) == multiset(s) && |Sort(s, lt)| == |s|
    ensures forall y :: Ties(Sort(s, lt), y, lt) == Ties(s, y, lt)
  {
    if s != [] {
      SortIsStable(s[1..], lt);
      var r := Sort(s[1..], lt);
      InsertSorted(s[0], r, lt);
      InsertPermutes(s[0], r, lt);
      assert s == [s[0]] + s[1..];
      assert ([s[0]] + r)[1..] == r;
      forall y ensures Ties(Sort(s, lt), y, lt) == Ties(s, y, lt) {
        InsertKeepsTies(s[0], r, y, lt);
      }
    }
    assert |multiset(Sort(s, lt))| == |multiset(s)|;
  }

  /** Where any two distinct elements compare, there is only one sorted arrangement. */
  lemma {:induction false} SortedIsUnique<T(!new)>(s: seq<T>, t: seq<T>, lt: (T, T) -> bool)
    requires StrictWeakOrder(lt) && Sorted(s, lt) && Sorted(t, lt) && multiset(s) == multiset(t)
    requires forall a, b :: a in s && b in s && a != b ==> lt(a, b) || lt(b, a)
    ensures s == t
  {
    assert |multiset(s)| == |multiset(t)|;
    if s != [] {
      HeadsAgree(s, t, lt);
      TailMultiset(s);
      TailMultiset(t);
      SortedIsUnique(s[1..], t[1..], lt);
    }
  }

  lemma TailMultiset<T>(s: seq<T>)
    requires s != []
    ensures multiset(s[1..]) == multiset(s) - multiset{s[0]}
  {
    assert s == [s[0]] + s[1..];
  }

  lemma HeadsAgree<T>(s: seq<T>, t: seq<T>, lt: (T, T) -> bool)
    requires s != [] && t != [] && Sorted(s, lt) && Sorted(t, lt) && multiset(s) == multiset(t)
    requires forall a, b :: a in s && b in s && a != b ==> lt(a, b) || lt(b, a)
    ensures s[0] == t[0]
  {
    assert s[0] in multiset(t) && t[0] in multiset(s);
    var i :| 0 <= i < |s| && s[i] == t[0];
    var j :| 0 <= j < |t| && t[j] == s[0];
  }

  ghost predicate DistinctBy<T, K>(s: seq<T>, key: T -> K) {
    forall i, j :: 0 <= i < j < |s| ==> key(s[i]) != key(s[j])
  }

  lemma AppearsTwice<T>(s: seq<T>, j: nat, k: nat)
    requires j < k < |s| && s[j] == s[k]
    ensures multiset(s)[s[j]] >= 2
  {
    assert s == s[..k] + [s[k]] + s[k + 1..];
    assert s[..k][j] == s[j];
    assert s[j] in multiset(s[..k]);
  }

  lemma AppearsOnce<T, K>(s: seq<T>, x: nat, key: T -> K)
    requires x < |s| && DistinctBy(s, key)
    ensures multiset(s)[s[x]] == 1
  {
    assert s == s[..x] + [s[x]] + s[x + 1..];
    assert s[x] !in s[..x] && s[x] !in s[x + 1..];
    assert s[x] !in multiset(s[..x]) && s[x] !in multiset(s[x + 1..]);
  }

  /** Rearranging elements with distinct keys keeps the keys distinct. */
  lemma PermutationKeepsDistinct<T, K>(s: seq<T>, t: seq<T>, key: T -> K)
    requires DistinctBy(s, key) && multiset(t) == multiset(s)
    ensures DistinctBy(t, key)
  {
    forall j, k | 0 <= j < k < |t| ensures key(t[j]) != key(t[k]) {
      assert t[j] in multiset(s) && t[k] in multiset(s);
      var x :| 0 <= x < |s| && s[x] == t[j];
      var y :| 0 <= y < |s| && s[y] == t[k];
      if x == y {
        AppearsTwice(t, j, k);
        AppearsOnce(s, x, key);
      }
    }
  }

  lemma PermutationKeepsMembers<T>(s: seq<T>, t: seq<T>)
    requires multiset(t) == multiset(s)
    ensures forall x :: x in t ==> x in s
    ensures forall x :: x in s ==> x in t
  {
    forall x ensures x in t <==> x in s {
      assert x in multiset(t) <==> x in multiset(s);
    }
  }

  /** The slice up to `limit`; a negative limit counts from the back. */
  function Cut<T>(s: seq<T>, limit: int): seq<T> {
    if limit >= |s| then s else if limit >= 0 then s[..limit] else if |s| + limit >= 0 then s[..|s| + limit] else []
  }

  /** It is the first `limit` elements, or all but the last few, never more than there are. */
  lemma CutIsPrefix<T>(s: seq<T>, limit: int)
    ensures Cut(s, limit) <= s
    ensures limit >= 0 ==> |Cut(s, limit)| == if limit < |s| then limit else |s|
    ensures limit < 0 ==> |Cut(s, limit)| == if |s| > -limit then |s| + limit else 0
  {
  }
}
