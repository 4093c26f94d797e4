/** The category listing order: `categories.sort((a, b) => a.order - b.order)`.
    JavaScript's sort is stable, so it is modelled as a stable insertion sort. */
module Ordering {
  import opened Records
  import opened JsArrays

  ghost predicate SortedByOrder(cs: seq<Category>) {
    forall i, j :: 0 <= i < j < |cs| ==> cs[i].order <= cs[j].order
  }

  /** Places `x` after every entry of `t` whose order is not greater than its own,
      scanning from the end of `t`. */
  function Insert(t: seq<Category>, x: Category): seq<Category> {
    if t == [] then [x]
    else if t[|t| - 1].order <= x.order then t + [x]
    else Insert(t[..|t| - 1], x) + [t[|t| - 1]]
  }

  /** Insertion adds exactly `x` and loses nothing. */
  lemma {:induction false} InsertPermutes(t: seq<Category>, x: Category)
    ensures multiset(Insert(t, x)) == multiset(t) + multiset{x}
  {
    if t != [] && t[|t| - 1].order > x.order {
      var init, last := t[..|t| - 1], t[|t| - 1];
      assert t == init + [last];
      InsertPermutes(init, x);
    }
  }

  /** Inserting into a sorted list keeps it sorted. */
  lemma {:induction false} InsertSorted(t: seq<Category>, x: Category)
    requires SortedByOrder(t)
    ensures SortedByOrder(Insert(t, x))
  {
    if t != [] && t[|t| - 1].order > x.order {
      var init, last := t[..|t| - 1], t[|t| - 1];
      InsertSorted(init, x);
      InsertPermutes(init, x);
      var m := Insert(init, x);
      forall y | y in m ensures y.order <= last.order {
        assert y in multiset(m);
        if y != x {
          assert y in multiset(init);
          var k :| 0 <= k < |init| && init[k] == y;
          assert t[k] == y;
        }
      }
      var r := m + [last];
      forall i, j | 0 <= i < j < |r| ensures r[i].order <= r[j].order {
        if j == |m| {
          assert r[i] == m[i] && r[i] in m;
        } else {
          assert r[i] == m[i] && r[j] == m[j];
        }
      }
    }
  }

  /** The stable sort of `cs` by ascending `order`. */
  function SortByOrder(cs: seq<Category>): (r: seq<Category>)
    ensures SortedByOrder(r)
    ensures multiset(r) == multiset(cs)
  {
    if cs == [] then []
    else
      assert cs == cs[..|cs| - 1] + [cs[|cs| - 1]];
      var sorted := SortByOrder(cs[..|cs| - 1]);
      InsertSorted(sorted, cs[|cs| - 1]);
      InsertPermutes(sorted, cs[|cs| - 1]);
      Insert(sorted, cs[|cs| - 1])
  }

  function HasOrder(k: int): Category -> bool {
    (c: Category) => c.order == k
  }

  /** The categories of order `k`, in their relative order. */
  function WithOrder(cs: seq<Category>, k: int): seq<Category> {
    Filter(cs, HasOrder(k))
  }

  /** The order-`k` entries of a list with one more entry at its end. */
  lemma WithOrderSnoc(s: seq<Category>, y: Category, k: int)
    ensures WithOrder(s + [y], k) == WithOrder(s, k) + if y.order == k then [y] else []
  {
    FilterAppend(s, [y], HasOrder(k));
    assert [y][1..] == [];
  }

  /** Inserting `x` adds it to the entries of its own order, after them,
      and leaves the entries of every other order as they were. */
  lemma {:induction false} InsertStable(t: seq<Category>, x: Category, k: int)
    ensures WithOrder(Insert(t, x), k) == WithOrder(t, k) + if x.order == k then [x] else []
  {
    if t == [] {
      assert Insert(t, x) == [] + [x];
      WithOrderSnoc([], x, k);
    } else if t[|t| - 1].order <= x.order {
      WithOrderSnoc(t, x, k);
    } else {
      var init, last := t[..|t| - 1], t[|t| - 1];
      assert t == init + [last];
      InsertStable(init, x, k);
      InsertStableStep(t, x, k);
    }
  }

  /** Insertion before the last entry of `t`, when that entry's order is greater. */
  lemma InsertBeforeLast(t: seq<Category>, x: Category)
    requires t != [] && t[|t| - 1].order > x.order
    ensures Insert(t, x) == Insert(t[..|t| - 1], x) + [t[|t| - 1]]
  {
  }

  /** The step of `InsertStable` where `x` moves in front of the last entry. */
  lemma {:induction false} InsertStableStep(t: seq<Category>, x: Category, k: int)
    requires t != [] && t[|t| - 1].order > x.order
    requires WithOrder(Insert(t[..|t| - 1], x), k) == WithOrder(t[..|t| - 1], k) + if x.order == k then [x] else []
    ensures WithOrder(Insert(t, x), k) == WithOrder(t, k) + if x.order == k then [x] else []
  {
    var init, last := t[..|t| - 1], t[|t| - 1];
    var m := Insert(init, x);
    InsertBeforeLast(t, x);
    assert t == init + [last];
    WithOrderSnoc(m, last, k);
    WithOrderSnoc(init, last, k);
    if x.order == k {
      assert last.order != k;
      assert WithOrder(Insert(t, x), k) == WithOrder(m, k) + [];
      assert WithOrder(t, k) == WithOrder(init, k) + [];
    } else {
      assert WithOrder(m, k) == WithOrder(init, k) + [];
    }
  }

  /** The sort is stable: for every order value, the categories with that
      order come out in the relative order they had before sorting. */
  lemma {:induction false} SortByOrderStable(cs: seq<Category>, k: int)
    ensures WithOrder(SortByOrder(cs), k) == WithOrder(cs, k)
  {
    if cs != [] {
      var init, x := cs[..|cs| - 1], cs[|cs| - 1];
      assert cs == init + [x];
      SortByOrderStable(init, k);
      InsertStable(SortByOrder(init), x, k);
      WithOrderSnoc(init, x, k);
    }
  }

  /** `r` is `t` with `x` placed at index `k`, after every entry of order at
      most `x.order` and before every entry of greater order. */
  ghost predicate LandsAt(t: seq<Category>, x: Category, r: seq<Category>, k: int) {
    && 0 <= k <= |t|
    && r == t[..k] + [x] + t[k..]
    && (forall i :: 0 <= i < k ==> t[i].order <= x.order)
    && (forall i :: k <= i < |t| ==> x.order < t[i].order)
  }

  /** Insertion into a sorted list puts `x` where the list splits into the
      entries of order at most `x.order` and the entries of greater order. */
  lemma {:induction false} InsertPosition(t: seq<Category>, x: Category)
    requires SortedByOrder(t)
    ensures exists k :: LandsAt(t, x, Insert(t, x), k)
  {
    if t == [] {
      assert LandsAt(t, x, Insert(t, x), 0);
    } else if t[|t| - 1].order <= x.order {
      assert t[..|t|] == t && t[|t|..] == [];
      assert LandsAt(t, x, Insert(t, x), |t|);
    } else {
      var init, last := t[..|t| - 1], t[|t| - 1];
      InsertPosition(init, x);
      var k :| LandsAt(init, x, Insert(init, x), k);
      assert Insert(t, x) == Insert(init, x) + [last];
      assert init[..k] == t[..k];
      assert init[k..] + [last] == t[k..];
      assert Insert(t, x) == t[..k] + [x] + t[k..];
      forall i | k <= i < |t| ensures x.order < t[i].order {
        if i < |init| { assert t[i] == init[i]; }
      }
      assert LandsAt(t, x, Insert(t, x), k);
    }
  }

  /** A category appended to the store is listed after every stored category
      whose order is not greater than its own and before every one whose
      order is greater; the others keep their listed order. */
  lemma CreatedCategoryPosition(cs: seq<Category>, x: Category)
    ensures exists k :: LandsAt(SortByOrder(cs), x, SortByOrder(cs + [x]), k)
  {
    assert (cs + [x])[..|cs|] == cs;
    assert SortByOrder(cs + [x]) == Insert(SortByOrder(cs), x);
    InsertPosition(SortByOrder(cs), x);
  }

  /** Inserting an entry whose id is new keeps the ids distinct. */
  lemma {:induction false} InsertUnique(t: seq<Category>, x: Category)
    requires UniqueBy(t, CategoryId)
    requires forall y :: y in t ==> y.id != x.id
    ensures UniqueBy(Insert(t, x), CategoryId)
  {
    if t == [] {
    } else if t[|t| - 1].order <= x.order {
      UniqueByAppend(t, CategoryId, x);
    } else {
      var init, last := t[..|t| - 1], t[|t| - 1];
      UniqueByPrefix(t, CategoryId, |t| - 1);
      InsertUnique(init, x);
      InsertPermutes(init, x);
      var m := Insert(init, x);
      forall y | y in m ensures CategoryId(y) != CategoryId(last) {
        assert y in multiset(m);
        if y != x {
          assert y in multiset(init);
          var k :| 0 <= k < |init| && init[k] == y;
          assert t[k] == y;
        }
      }
      UniqueByAppend(m, CategoryId, last);
    }
  }

  /** Sorting keeps the ids distinct. */
  lemma {:induction false} SortByOrderUnique(cs: seq<Category>)
    requires UniqueBy(cs, CategoryId)
    ensures UniqueBy(SortByOrder(cs), CategoryId)
  {
    if cs != [] {
      var init, x := cs[..|cs| - 1], cs[|cs| - 1];
      UniqueByPrefix(cs, CategoryId, |cs| - 1);
      SortByOrderUnique(init);
      var sorted := SortByOrder(init);
      forall y | y in sorted ensures y.id != x.id {
        assert y in multiset(sorted);
        var k :| 0 <= k < |init| && init[k] == y;
        assert cs[k] == y;
      }
      InsertUnique(sorted, x);
    }
  }
}
