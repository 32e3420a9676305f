/** Python's stable `list.sort(key=...)` on rows that carry their key
    (keys are computed once, then the rows are ordered by them), written as
    an insertion sort over Python's tuple order on three integers. */
module Sorting {

  /** A `(base position, -stars, rank position)` key. */
  datatype SortKey = SortKey(base: int, negStars: int, rank: int)

  /** Python's tuple order. */
  predicate KeyLt(a: SortKey, b: SortKey)
  {
    a.base < b.base
    || (a.base == b.base && a.negStars < b.negStars)
    || (a.base == b.base && a.negStars == b.negStars && a.rank < b.rank)
  }

  predicate KeyLe(a: SortKey, b: SortKey)
  {
    KeyLt(a, b) || a == b
  }

  /** A row together with its key. */
  datatype Keyed<T> = Keyed(key: SortKey, item: T)

  predicate Sorted<T>(s: seq<Keyed<T>>)
  {
    forall i, j :: 0 <= i < j < |s| ==> KeyLe(s[i].key, s[j].key)
  }

  /** Insert `x` behind every row whose key is not larger, so that rows with
      equal keys keep their order of arrival. */
  function Insert<T>(s: seq<Keyed<T>>, x: Keyed<T>): (r: seq<Keyed<T>>)
    ensures |r| == |s| + 1
    ensures multiset(r) == multiset(s) + multiset{x}
  {
    if |s| == 0 then [x]
    else if KeyLt(x.key, s[0].key) then [x] + s
    else
      assert s == [s[0]] + s[1..];
      [s[0]] + Insert(s[1..], x)
  }

  /** The sort: each row in turn inserted into the sorted prefix. */
  function Sort<T>(s: seq<Keyed<T>>): (r: seq<Keyed<T>>)
    ensures |r| == |s|
    ensures multiset(r) == multiset(s)
  {
    if |s| == 0 then []
    else
      assert s == s[..|s| - 1] + [s[|s| - 1]];
      Insert(Sort(s[..|s| - 1]), s[|s| - 1])
  }

  lemma {:induction false} InsertSorted<T>(s: seq<Keyed<T>>, x: Keyed<T>)
    requires Sorted(s)
    ensures Sorted(Insert(s, x))
    decreases |s|
  {
    if |s| > 0 && !KeyLt(x.key, s[0].key) {
      InsertSorted(s[1..], x);
      var t := Insert(s[1..], x);
      forall j | 0 <= j < |t|
        ensures KeyLe(s[0].key, t[j].key)
      {
        assert t[j] in multiset(t);
        assert t[j] == x || t[j] in multiset(s[1..]);
      }
    }
  }

  /** The sorted list is in key order. */
  lemma {:induction false} SortSorted<T>(s: seq<Keyed<T>>)
    ensures Sorted(Sort(s))
    decreases |s|
  {
    if |s| > 0 {
      SortSorted(s[..|s| - 1]);
      InsertSorted(Sort(s[..|s| - 1]), s[|s| - 1]);
    }
  }

  /** The rows of `s` whose key is `k`, in order. */
  function WithKey<T>(s: seq<Keyed<T>>, k: SortKey): seq<Keyed<T>>
  {
    if |s| == 0 then []
    else (if s[0].key == k then [s[0]] else []) + WithKey(s[1..], k)
  }

  lemma {:induction false} WithKeyAppend<T>(a: seq<Keyed<T>>, b: seq<Keyed<T>>, k: SortKey)
    ensures WithKey(a + b, k) == WithKey(a, k) + WithKey(b, k)
    decreases |a|
  {
    if |a| == 0 {
      assert a + b == b;
    } else {
      assert (a + b)[1..] == a[1..] + b;
      WithKeyAppend(a[1..], b, k);
    }
  }

  lemma {:induction false} WithKeyNone<T>(s: seq<Keyed<T>>, k: SortKey)
    requires forall i :: 0 <= i < |s| ==> s[i].key != k
    ensures WithKey(s, k) == []
    decreases |s|
  {
    if |s| > 0 {
      WithKeyNone(s[1..], k);
    }
  }

  lemma WithKeyCons<T>(x: Keyed<T>, s: seq<Keyed<T>>, k: SortKey)
    ensures WithKey([x] + s, k) == (if x.key == k then [x] else []) + WithKey(s, k)
  {
    assert ([x] + s)[1..] == s;
  }

  lemma WithKeyTail<T>(s: seq<Keyed<T>>, k: SortKey)
    requires |s| > 0
    ensures WithKey(s, k) == (if s[0].key == k then [s[0]] else []) + WithKey(s[1..], k)
  {
  }

  lemma SortedTail<T>(s: seq<Keyed<T>>)
    requires Sorted(s) && |s| > 0
    ensures Sorted(s[1..])
  {
  }

  /** A row placed in front of a sorted list with larger keys is the first,
      and only, row of its key. */
  lemma InsertWithKeyFront<T>(s: seq<Keyed<T>>, x: Keyed<T>, k: SortKey)
    requires Sorted(s) && |s| > 0 && KeyLt(x.key, s[0].key)
    ensures WithKey(Insert(s, x), k) == WithKey(s, k) + (if x.key == k then [x] else [])
  {
    assert Insert(s, x) == [x] + s;
    WithKeyCons(x, s, k);
    if x.key == k {
      forall i | 0 <= i < |s|
        ensures s[i].key != k
      {
        if i > 0 {
          assert KeyLe(s[0].key, s[i].key);
        }
      }
      WithKeyNone(s, k);
    }
  }

  /** Inserting into a sorted list appends `x` to the rows of its own key
      and leaves the rows of every other key as they were. */
  lemma {:induction false} InsertWithKey<T>(s: seq<Keyed<T>>, x: Keyed<T>, k: SortKey)
    requires Sorted(s)
    ensures WithKey(Insert(s, x), k) == WithKey(s, k) + (if x.key == k then [x] else [])
    decreases |s|
  {
    if |s| == 0 {
      WithKeyCons(x, [], k);
    } else if KeyLt(x.key, s[0].key) {
      InsertWithKeyFront(s, x, k);
    } else {
      assert Insert(s, x) == [s[0]] + Insert(s[1..], x);
      SortedTail(s);
      InsertWithKey(s[1..], x, k);
      WithKeyCons(s[0], Insert(s[1..], x), k);
      WithKeyTail(s, k);
    }
  }

  /** Sorting a list is inserting its last row into the sorted rest. */
  lemma SortSnoc<T>(s: seq<Keyed<T>>)
    requires |s| > 0
    ensures Sort(s) == Insert(Sort(s[..|s| - 1]), s[|s| - 1])
  {
  }

  /** Sorting `p + [x]` inserts `x` into the sorted `p`. */
  lemma SortAppendOne<T>(p: seq<Keyed<T>>, x: Keyed<T>)
    ensures Sort(p + [x]) == Insert(Sort(p), x)
  {
    SortSnoc(p + [x]);
    assert (p + [x])[..|p|] == p;
  }

  /** The rows of key `k` in `p + [x]`: those of `p`, then `x` if it has key `k`. */
  lemma WithKeySnoc<T>(p: seq<Keyed<T>>, x: Keyed<T>, k: SortKey)
    ensures WithKey(p + [x], k) == WithKey(p, k) + (if x.key == k then [x] else [])
  {
    WithKeyAppend(p, [x], k);
    WithKeyOne(x, k);
  }

  /** Stability: for every key, the rows with that key appear in the sorted
      list in the same order as in the input. */
  lemma {:induction false} SortStable<T>(s: seq<Keyed<T>>, k: SortKey)
    ensures WithKey(Sort(s), k) == WithKey(s, k)
    decreases |s|
  {
    if |s| > 0 {
      var n := |s| - 1;
      assert s == s[..n] + [s[n]];
      SortStable(s[..n], k);
      SortStableStep(s[..n], s[n], k);
    }
  }

  /** One step of stability: appending a row keeps the rows of every key in order. */
  lemma SortStableStep<T>(p: seq<Keyed<T>>, x: Keyed<T>, k: SortKey)
    requires WithKey(Sort(p), k) == WithKey(p, k)
    ensures WithKey(Sort(p + [x]), k) == WithKey(p + [x], k)
  {
    SortAppendOne(p, x);
    SortSorted(p);
    InsertWithKey(Sort(p), x, k);
    WithKeySnoc(p, x, k);
  }

  lemma WithKeyOne<T>(x: Keyed<T>, k: SortKey)
    ensures WithKey([x], k) == if x.key == k then [x] else []
  {
    assert [x][1..] == [];
  }

  /** Pair each row with its key: `keys[i]` belongs to `rows[i]`. */
  function Zip<T>(keys: seq<SortKey>, rows: seq<T>): (r: seq<Keyed<T>>)
    requires |keys| == |rows|
    ensures |r| == |rows|
    ensures forall i :: 0 <= i < |rows| ==> r[i] == Keyed(keys[i], rows[i])
  {
    if |rows| == 0 then []
    else
      var n := |rows| - 1;
      Zip(keys[..n], rows[..n]) + [Keyed(keys[n], rows[n])]
  }

  lemma ZipSnoc<T>(keys: seq<SortKey>, rows: seq<T>)
    requires |keys| == |rows| > 0
    ensures Zip(keys, rows) == Zip(keys[..|rows| - 1], rows[..|rows| - 1]) + [Keyed(keys[|rows| - 1], rows[|rows| - 1])]
  {
  }

  /** Drop the keys again. */
  function Items<T>(s: seq<Keyed<T>>): (r: seq<T>)
    ensures |r| == |s|
    ensures forall i :: 0 <= i < |s| ==> r[i] == s[i].item
  {
    if |s| == 0 then [] else [s[0].item] + Items(s[1..])
  }

  lemma {:induction false} ItemsInsert<T>(s: seq<Keyed<T>>, x: Keyed<T>)
    ensures multiset(Items(Insert(s, x))) == multiset(Items(s)) + multiset{x.item}
    decreases |s|
  {
    if |s| == 0 {
      assert Items([x]) == [x.item];
    } else if KeyLt(x.key, s[0].key) {
      assert Items([x] + s) == [x.item] + Items(s);
    } else {
      ItemsInsert(s[1..], x);
      assert Items([s[0]] + Insert(s[1..], x)) == [s[0].item] + Items(Insert(s[1..], x));
      assert Items(s) == [s[0].item] + Items(s[1..]);
    }
  }

  lemma ItemsSortSnoc<T>(p: seq<Keyed<T>>, x: Keyed<T>)
    ensures multiset(Items(Sort(p + [x]))) == multiset(Items(Sort(p))) + multiset{x.item}
  {
    SortAppendOne(p, x);
    ItemsInsert(Sort(p), x);
  }

  lemma MultisetSnoc<T>(s: seq<T>)
    requires |s| > 0
    ensures multiset(s) == multiset(s[..|s| - 1]) + multiset{s[|s| - 1]}
  {
    assert s == s[..|s| - 1] + [s[|s| - 1]];
  }

  /** Sorting keyed rows and dropping the keys permutes the rows. */
  lemma {:induction false} SortPermutesItems<T>(keys: seq<SortKey>, rows: seq<T>)
    requires |keys| == |rows|
    ensures multiset(Items(Sort(Zip(keys, rows)))) == multiset(rows)
    decreases |rows|
  {
    if |rows| == 0 {
      assert Zip(keys, rows) == [];
    } else {
      var n := |rows| - 1;
      var z0 := Zip(keys[..n], rows[..n]);
      var x := Keyed(keys[n], rows[n]);
      ZipSnoc(keys, rows);
      calc {
        multiset(Items(Sort(Zip(keys, rows))));
        multiset(Items(Sort(z0 + [x])));
        { ItemsSortSnoc(z0, x); }
        multiset(Items(Sort(z0))) + multiset{rows[n]};
        { SortPermutesItems(keys[..n], rows[..n]); }
        multiset(rows[..n]) + multiset{rows[n]};
        { MultisetSnoc(rows); }
        multiset(rows);
      }
    }
  }

  /** Every sorted keyed row is one of the input's rows with its own key. */
  lemma SortKeepsPairs<T>(keys: seq<SortKey>, rows: seq<T>, i: nat)
    requires |keys| == |rows|
    requires i < |rows|
    ensures exists j :: 0 <= j < |rows| && Sort(Zip(keys, rows))[i] == Keyed(keys[j], rows[j])
  {
    var t := Sort(Zip(keys, rows));
    assert t[i] in multiset(Zip(keys, rows));
  }
}
