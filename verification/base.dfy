/** Small generic helpers shared by every other module: an optional value and
    the list queries the bot performs with Python's `list.count`-like loops and
    `list.index`. */
module Base {

  /** Python's `None` or a present value. */
  datatype Option<T> = None | Some(value: T)

  /** Number of occurrences of `x` in `s`, counted from the back so that it
      unfolds the same way as the snoc-style folds elsewhere in the model. */
  function Count<T(==)>(s: seq<T>, x: T): nat
  {
    if |s| == 0 then 0 else Count(s[..|s| - 1], x) + (if s[|s| - 1] == x then 1 else 0)
  }

  /** The first position of `x` in `s`, with the length of the list as the
      fallback for a missing element (a guarded `list.index`). */
  function IndexOf<T(==)>(s: seq<T>, x: T): (r: nat)
    ensures r <= |s|
    ensures r < |s| ==> s[r] == x
    ensures forall j :: 0 <= j < r ==> s[j] != x
    ensures r == |s| <==> x !in s
  {
    if |s| == 0 then 0
    else if s[0] == x then 0
    else 1 + IndexOf(s[1..], x)
  }

  /** Python's `min` on two integers. */
  function Min(a: int, b: int): int
  {
    if a <= b then a else b
  }

  /** No element occurs twice. */
  predicate Distinct<T(==)>(s: seq<T>)
  {
    forall i, j :: 0 <= i < j < |s| ==> s[i] != s[j]
  }

  /** In a list without duplicates, looking up the element at `i` gives `i` back. */
  lemma IndexOfDistinct<T>(s: seq<T>, i: nat)
    requires Distinct(s)
    requires i < |s|
    ensures IndexOf(s, s[i]) == i
  {
  }

  /** Count distributes over concatenation. */
  lemma {:induction false} CountAppend<T>(a: seq<T>, b: seq<T>, x: T)
    ensures Count(a + b, x) == Count(a, x) + Count(b, x)
    decreases |b|
  {
    if |b| == 0 {
      assert a + b == a;
    } else {
      assert (a + b)[..|a + b| - 1] == a + b[..|b| - 1];
      CountAppend(a, b[..|b| - 1], x);
    }
  }

  /** An element is counted exactly when it occurs. */
  lemma {:induction false} CountZero<T>(s: seq<T>, x: T)
    ensures Count(s, x) == 0 <==> x !in s
    decreases |s|
  {
    if |s| > 0 {
      var n := |s| - 1;
      CountZero(s[..n], x);
      assert s == s[..n] + [s[n]];
    }
  }

  /** Keep the values `f` yields, in order, skipping the elements for which it
      yields `None`: a filtering list comprehension. */
  function Collect<A, B>(f: A -> Option<B>, s: seq<A>): seq<B>
  {
    if |s| == 0 then []
    else
      var rest := Collect(f, s[..|s| - 1]);
      match f(s[|s| - 1])
      case None => rest
      case Some(b) => rest + [b]
  }

  /** Collecting over two runs one after the other yields the two results in order. */
  lemma {:induction false} CollectAppend<A, B>(f: A -> Option<B>, a: seq<A>, b: seq<A>)
    ensures Collect(f, a + b) == Collect(f, a) + Collect(f, b)
    decreases |b|
  {
    if |b| == 0 {
      assert a + b == a;
    } else {
      var n := |b| - 1;
      CollectAppend(f, a, b[..n]);
      assert (a + b)[..|a + b| - 1] == a + b[..n];
      assert (a + b)[|a + b| - 1] == b[n];
    }
  }
}
