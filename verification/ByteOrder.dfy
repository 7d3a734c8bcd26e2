/** Byte strings in lexicographic order, and the one ascending arrangement of a list of them. */
module ByteOrder {

  predicate Precedes(a: string, b: string) {
    |b| > 0 && (|a| == 0 || a[0] < b[0] || (a[0] == b[0] && Precedes(a[1..], b[1..])))
  }

  lemma {:induction false} Trichotomy(a: string, b: string)
    ensures Precedes(a, b) || Precedes(b, a) || a == b
    ensures !(Precedes(a, b) && Precedes(b, a)) && (a == b ==> !Precedes(a, b))
  {
    if |a| > 0 && |b| > 0 && a[0] == b[0] {
      Trichotomy(a[1..], b[1..]);
      assert a == [a[0]] + a[1..] && b == [b[0]] + b[1..];
    }
  }

  lemma {:induction false} Transitive(a: string, b: string, c: string)
    requires Precedes(a, b) && Precedes(b, c)
    ensures Precedes(a, c)
  {
    if |a| > 0 && a[0] == b[0] && b[0] == c[0] { Transitive(a[1..], b[1..], c[1..]); }
  }

  predicate Ascending(xs: seq<string>) {
    forall i, j :: 0 <= i < j < |xs| ==> !Precedes(xs[j], xs[i])
  }

  function Insert(xs: seq<string>, x: string): seq<string> {
    if |xs| > 0 && Precedes(x, xs[|xs| - 1]) then Insert(xs[..|xs| - 1], x) + [xs[|xs| - 1]] else xs + [x]
  }

  function Sort(xs: seq<string>): seq<string> {
    if |xs| == 0 then [] else Insert(Sort(xs[..|xs| - 1]), xs[|xs| - 1])
  }

  lemma WithoutLast(xs: seq<string>)
    requires |xs| > 0
    ensures multiset(xs) == multiset(xs[..|xs| - 1]) + multiset{xs[|xs| - 1]}
  {
    assert xs == xs[..|xs| - 1] + [xs[|xs| - 1]];
  }

  lemma {:induction false} InsertKeeps(xs: seq<string>, x: string)
    ensures multiset(Insert(xs, x)) == multiset(xs) + multiset{x}
  {
    if |xs| > 0 && Precedes(x, xs[|xs| - 1]) {
      InsertKeeps(xs[..|xs| - 1], x);
      WithoutLast(xs);
    }
  }

  lemma InsertHolds(xs: seq<string>, x: string, y: string)
    requires y in Insert(xs, x)
    ensures y == x || y in xs
  {
    InsertKeeps(xs, x);
    assert y in multiset(Insert(xs, x));
  }

  lemma {:induction false} InsertOrders(xs: seq<string>, x: string)
    requires Ascending(xs)
    ensures Ascending(Insert(xs, x))
  {
    hide Precedes;
    if |xs| > 0 && Precedes(x, xs[|xs| - 1]) {
      var front, last := xs[..|xs| - 1], xs[|xs| - 1];
      InsertOrders(front, x);
      var inserted := Insert(front, x);
      forall k | 0 <= k < |inserted|
        ensures !Precedes(last, inserted[k])
      {
        InsertHolds(front, x, inserted[k]);
        Trichotomy(x, last);
      }
    } else {
      forall i | 0 <= i < |xs|
        ensures !Precedes(x, xs[i])
      {
        BelowLast(xs, x, i);
      }
    }
  }

  lemma BelowLast(xs: seq<string>, x: string, i: nat)
    requires Ascending(xs) && i < |xs| && !Precedes(x, xs[|xs| - 1])
    ensures !Precedes(x, xs[i])
  {
    if i < |xs| - 1 && Precedes(x, xs[i]) {
      Trichotomy(xs[i], xs[|xs| - 1]);
      if Precedes(xs[i], xs[|xs| - 1]) { Transitive(x, xs[i], xs[|xs| - 1]); }
    }
  }

  /** Sorting rearranges and orders. */
  lemma {:induction false} SortCorrect(xs: seq<string>)
    ensures multiset(Sort(xs)) == multiset(xs) && Ascending(Sort(xs)) && |Sort(xs)| == |xs|
  {
    if |xs| > 0 {
      SortCorrect(xs[..|xs| - 1]);
      InsertKeeps(Sort(xs[..|xs| - 1]), xs[|xs| - 1]);
      InsertOrders(Sort(xs[..|xs| - 1]), xs[|xs| - 1]);
      WithoutLast(xs);
    }
    assert |multiset(Sort(xs))| == |multiset(xs)|;
  }

  lemma LastIsGreatest(xs: seq<string>, ys: seq<string>)
    requires Ascending(xs) && Ascending(ys) && |xs| > 0 && |ys| > 0 && multiset(xs) == multiset(ys)
    ensures xs[|xs| - 1] == ys[|ys| - 1]
  {
    var x, y := xs[|xs| - 1], ys[|ys| - 1];
    assert x in multiset(ys) && y in multiset(xs);
    var i :| 0 <= i < |ys| && ys[i] == x;
    var j :| 0 <= j < |xs| && xs[j] == y;
    Trichotomy(x, y);
  }

  /** There is one ascending arrangement. */
  lemma {:induction false} AscendingUnique(xs: seq<string>, ys: seq<string>)
    requires Ascending(xs) && Ascending(ys) && multiset(xs) == multiset(ys)
    ensures xs == ys
  {
    hide Precedes;
    assert |multiset(xs)| == |multiset(ys)|;
    if |xs| > 0 {
      var m := |xs| - 1;
      LastIsGreatest(xs, ys);
      WithoutLast(xs);
      WithoutLast(ys);
      SameRest(multiset(xs[..m]), multiset(ys[..m]), xs[m]);
      AscendingUnique(xs[..m], ys[..m]);
    }
  }

  lemma SameRest<T>(a: multiset<T>, b: multiset<T>, x: T)
    requires a + multiset{x} == b + multiset{x}
    ensures a == b
  {
    forall y
      ensures a[y] == b[y]
    {
      assert (a + multiset{x})[y] == (b + multiset{x})[y];
    }
  }

  lemma SortCanonical(xs: seq<string>, ys: seq<string>)
    requires multiset(xs) == multiset(ys)
    ensures Sort(xs) == Sort(ys)
  {
    SortCorrect(xs);
    SortCorrect(ys);
    AscendingUnique(Sort(xs), Sort(ys));
  }

  predicate Distinct(xs: seq<string>) {
    forall i, j :: 0 <= i < j < |xs| ==> xs[i] != xs[j]
  }

  lemma {:induction false} DistinctCounts(xs: seq<string>)
    requires Distinct(xs)
    ensures forall x :: multiset(xs)[x] == if x in xs then 1 else 0
  {
    if |xs| > 0 {
      var front, last := xs[..|xs| - 1], xs[|xs| - 1];
      DistinctCounts(front);
      assert xs == front + [last];
    }
  }

  /** Lists without repetition that hold the same strings sort alike. */
  lemma SameSetSorts(xs: seq<string>, ys: seq<string>)
    requires Distinct(xs) && Distinct(ys) && forall x :: x in xs <==> x in ys
    ensures Sort(xs) == Sort(ys)
  {
    DistinctCounts(xs);
    DistinctCounts(ys);
    assert multiset(xs) == multiset(ys);
    SortCanonical(xs, ys);
  }

  lemma SortHolds(xs: seq<string>)
    ensures forall x :: x in Sort(xs) <==> x in xs
  {
    SortCorrect(xs);
    forall x
      ensures x in Sort(xs) <==> x in xs
    {
      assert x in Sort(xs) <==> x in multiset(Sort(xs));
      assert x in xs <==> x in multiset(xs);
    }
  }
}
