/** The JavaScript `Array.prototype` operations the in-memory store relies on:
    `filter`, `findIndex` and `find`, and the "no two entries share a key"
    invariant the store keeps for its ids. */
module JsArrays {
  import opened Wrappers

  /** `s.filter(p)`: the elements of `s` that satisfy `p`, in their order. */
  function Filter<T(!new)>(s: seq<T>, p: T -> bool): (r: seq<T>)
    ensures |r| <= |s|
    ensures forall x :: x in r <==> x in s && p(x)
  {
    if s == [] then []
    else
      assert s == [s[0]] + s[1..];
      (if p(s[0]) then [s[0]] else []) + Filter(s[1..], p)
  }

  /** `s.findIndex(p)`: the first index whose element satisfies `p`;
      `None` plays the part of JavaScript's `-1`. */
  function FindIndex<T>(s: seq<T>, p: T -> bool): (r: Option<nat>)
    ensures r.Some? ==> r.value < |s| && p(s[r.value])
    ensures r.Some? ==> forall j :: 0 <= j < r.value ==> !p(s[j])
    ensures r.None? <==> forall j :: 0 <= j < |s| ==> !p(s[j])
  {
    if s == [] then None
    else if p(s[0]) then Some(0)
    else match FindIndex(s[1..], p)
      case None => None
      case Some(i) => Some(i + 1)
  }

  /** `s.find(p)`: the first element that satisfies `p`; `None` is `undefined`. */
  function Find<T(!new)>(s: seq<T>, p: T -> bool): (r: Option<T>)
    ensures r.None? <==> forall x :: x in s ==> !p(x)
    ensures r.Some? ==> exists i :: 0 <= i < |s| && s[i] == r.value && p(s[i]) &&
                                    forall j :: 0 <= j < i ==> !p(s[j])
  {
    match FindIndex(s, p)
    case None => None
    case Some(i) => Some(s[i])
  }

  /** No two entries of `s` share a key. */
  ghost predicate UniqueBy<T, K>(s: seq<T>, key: T -> K) {
    forall i, j :: 0 <= i < j < |s| ==> key(s[i]) != key(s[j])
  }

  /** Under `UniqueBy`, a key names at most one entry. */
  lemma UniqueByOnly<T, K>(s: seq<T>, key: T -> K, x: T, y: T)
    requires UniqueBy(s, key) && x in s && y in s && key(x) == key(y)
    ensures x == y
  {
    var i :| 0 <= i < |s| && s[i] == x;
    var j :| 0 <= j < |s| && s[j] == y;
    assert i == j;
  }

  /** Filtering distributes over concatenation, so it keeps relative order. */
  lemma {:induction false} FilterAppend<T(!new)>(s: seq<T>, t: seq<T>, p: T -> bool)
    ensures Filter(s + t, p) == Filter(s, p) + Filter(t, p)
  {
    if s == [] {
      assert s + t == t;
    } else {
      assert (s + t)[1..] == s[1..] + t;
      FilterAppend(s[1..], t, p);
    }
  }

  /** A filter that every element passes changes nothing. */
  lemma {:induction false} FilterKeepsAll<T(!new)>(s: seq<T>, p: T -> bool)
    requires forall x :: x in s ==> p(x)
    ensures Filter(s, p) == s
  {
    if s != [] {
      assert forall x :: x in s[1..] ==> x in s;
      FilterKeepsAll(s[1..], p);
      assert s == [s[0]] + s[1..];
    }
  }

  /** A filter that no element passes leaves nothing. */
  lemma {:induction false} FilterKeepsNone<T(!new)>(s: seq<T>, p: T -> bool)
    requires forall x :: x in s ==> !p(x)
    ensures Filter(s, p) == []
  {
    if s != [] {
      assert forall x :: x in s[1..] ==> x in s;
      FilterKeepsNone(s[1..], p);
    }
  }

  /** Filtering by `q` after `p` is filtering by `q` alone when `q` implies `p`;
      with `q == p` this says that filtering is idempotent. */
  lemma {:induction false} FilterOfFilter<T(!new)>(s: seq<T>, p: T -> bool, q: T -> bool)
    requires forall x :: x in s && q(x) ==> p(x)
    ensures Filter(Filter(s, p), q) == Filter(s, q)
  {
    if s != [] {
      assert forall x :: x in s[1..] ==> x in s;
      FilterOfFilter(s[1..], p, q);
      if p(s[0]) {
        assert Filter(s, p) == [s[0]] + Filter(s[1..], p);
        assert Filter(s, p)[1..] == Filter(s[1..], p);
      } else {
        assert Filter(s, p) == Filter(s[1..], p);
      }
    }
  }

  /** Filtering by `p` and by its complement splits `s` into two parts that
      together hold every element of `s` exactly as often as `s` does. */
  lemma {:induction false} FilterPartition<T(!new)>(s: seq<T>, p: T -> bool, q: T -> bool)
    requires forall x :: x in s ==> q(x) == !p(x)
    ensures multiset(Filter(s, p)) + multiset(Filter(s, q)) == multiset(s)
  {
    if s != [] {
      var tail := s[1..];
      assert forall x :: x in tail ==> x in s;
      FilterPartition(tail, p, q);
      FilterPartitionStep(s, p, q);
    }
  }

  /** The first element of `s` goes to exactly one side of the partition. */
  lemma FilterPartitionStep<T(!new)>(s: seq<T>, p: T -> bool, q: T -> bool)
    requires s != [] && q(s[0]) == !p(s[0])
    requires multiset(Filter(s[1..], p)) + multiset(Filter(s[1..], q)) == multiset(s[1..])
    ensures multiset(Filter(s, p)) + multiset(Filter(s, q)) == multiset(s)
  {
    FilterHead(s, p);
    FilterHead(s, q);
    MultisetHead(s);
  }

  /** A non-empty sequence counted as its head plus its tail. */
  lemma MultisetHead<T>(s: seq<T>)
    requires s != []
    ensures multiset(s) == multiset{s[0]} + multiset(s[1..])
  {
    assert s == [s[0]] + s[1..];
  }

  /** The elements `Filter` keeps from a non-empty `s`, counted: the head if it
      passes, plus those kept from the tail. */
  lemma FilterHead<T(!new)>(s: seq<T>, p: T -> bool)
    requires s != []
    ensures multiset(Filter(s, p)) ==
            (if p(s[0]) then multiset{s[0]} else multiset{}) + multiset(Filter(s[1..], p))
  {
    var t := Filter(s[1..], p);
    if p(s[0]) {
      assert Filter(s, p) == [s[0]] + t;
    } else {
      assert Filter(s, p) == [] + t;
    }
  }

  /** After appending an element that is the only one satisfying `p`,
      `find` returns it. */
  lemma {:induction false} FindAppended<T(!new)>(s: seq<T>, x: T, p: T -> bool)
    requires forall y :: y in s ==> !p(y)
    requires p(x)
    ensures Find(s + [x], p) == Some(x)
  {
    var t := s + [x];
    assert forall j :: 0 <= j < |s| ==> !p(t[j]) by {
      forall j | 0 <= j < |s| ensures !p(t[j]) { assert t[j] == s[j]; }
    }
    assert p(t[|s|]);
    var i := FindIndex(t, p).value;
    assert i == |s|;
  }

  /** Appending an element whose key is new keeps the keys distinct. */
  lemma UniqueByAppend<T, K>(s: seq<T>, key: T -> K, x: T)
    requires UniqueBy(s, key)
    requires forall y :: y in s ==> key(y) != key(x)
    ensures UniqueBy(s + [x], key)
  {
    var t := s + [x];
    forall i, j | 0 <= i < j < |t| ensures key(t[i]) != key(t[j]) {
      if j == |s| {
        assert t[i] in s;
      } else {
        assert t[i] == s[i] && t[j] == s[j];
      }
    }
  }

  /** Replacing an entry by one with the same key keeps the keys distinct. */
  lemma UniqueByReplace<T, K>(s: seq<T>, key: T -> K, i: nat, x: T)
    requires UniqueBy(s, key)
    requires i < |s| && key(x) == key(s[i])
    ensures UniqueBy(s[i := x], key)
  {
    var t := s[i := x];
    forall a, b | 0 <= a < b < |t| ensures key(t[a]) != key(t[b]) {
      assert key(t[a]) == key(s[a]) && key(t[b]) == key(s[b]);
    }
  }

  /** Filtering keeps the keys distinct. */
  lemma {:induction false} UniqueByFilter<T(!new), K>(s: seq<T>, key: T -> K, p: T -> bool)
    requires UniqueBy(s, key)
    ensures UniqueBy(Filter(s, p), key)
  {
    if s != [] {
      var tail := s[1..];
      assert UniqueBy(tail, key) by {
        forall i, j | 0 <= i < j < |tail| ensures key(tail[i]) != key(tail[j]) {
          assert tail[i] == s[i + 1] && tail[j] == s[j + 1];
        }
      }
      UniqueByFilter(tail, key, p);
      if p(s[0]) {
        var r := Filter(s, p);
        assert r == [s[0]] + Filter(tail, p);
        forall y | y in Filter(tail, p) ensures key(y) != key(s[0]) {
          var k :| 0 <= k < |tail| && tail[k] == y;
          assert y == s[k + 1];
        }
        UniqueByPrepend(Filter(tail, p), key, s[0]);
      }
    }
  }

  /** Putting an element with a new key in front keeps the keys distinct. */
  lemma UniqueByPrepend<T, K>(s: seq<T>, key: T -> K, x: T)
    requires UniqueBy(s, key)
    requires forall y :: y in s ==> key(y) != key(x)
    ensures UniqueBy([x] + s, key)
  {
    var t := [x] + s;
    forall i, j | 0 <= i < j < |t| ensures key(t[i]) != key(t[j]) {
      if i == 0 {
        assert t[j] in s;
      } else {
        assert t[i] == s[i - 1] && t[j] == s[j - 1];
      }
    }
  }

  /** A prefix of a list with distinct keys has distinct keys. */
  lemma UniqueByPrefix<T, K>(s: seq<T>, key: T -> K, n: nat)
    requires UniqueBy(s, key)
    requires n <= |s|
    ensures UniqueBy(s[..n], key)
  {
    var t := s[..n];
    forall i, j | 0 <= i < j < |t| ensures key(t[i]) != key(t[j]) {
      assert t[i] == s[i] && t[j] == s[j];
    }
  }

  /** Replacing the first match by another element that matches keeps it the
      first match. */
  lemma FindIndexReplaced<T>(s: seq<T>, p: T -> bool, i: nat, x: T)
    requires FindIndex(s, p) == Some(i)
    requires p(x)
    ensures FindIndex(s[i := x], p) == Some(i)
  {
    var t := s[i := x];
    assert forall j :: 0 <= j < i ==> t[j] == s[j];
    assert p(t[i]);
    var k := FindIndex(t, p);
    assert k.Some?;
  }
}
