/** Ordering by a text key, as sort.Slice is used on names and identifiers. */
module Order {
  /** Strict lexicographic order of texts. */
  predicate Below(a: string, b: string)
    decreases |b|
  {
    if b == "" then false
    else if a == "" then true
    else a[0] < b[0] || (a[0] == b[0] && Below(a[1..], b[1..]))
  }

  /** The texts agree before position n, where a has the smaller character. */
  ghost predicate SmallerAt(a: string, b: string, n: nat) {
    n < |a| && n < |b| && (forall k | 0 <= k < n :: a[k] == b[k]) && a[n] < b[n]
  }

  lemma SmallerInTail(a: string, b: string, n: nat)
    requires a != "" && b != "" && a[0] == b[0]
    ensures SmallerAt(a, b, n + 1) <==> SmallerAt(a[1..], b[1..], n)
  {
    if SmallerAt(a[1..], b[1..], n) {
      forall k | 0 <= k < n + 1
        ensures a[k] == b[k]
      {
        assert k > 0 ==> a[k] == a[1..][k - 1] && b[k] == b[1..][k - 1];
      }
    }
  }

  /** One text is below another exactly when it is a proper beginning of it or smaller at the first difference. */
  lemma {:induction false} BelowMeaning(a: string, b: string)
    ensures Below(a, b) <==> a < b || exists n: nat :: SmallerAt(a, b, n)
    decreases |b|
  {
    if a != "" && b != "" {
      if a[0] != b[0] {
        assert SmallerAt(a, b, 0) <==> a[0] < b[0];
        if n: nat :| SmallerAt(a, b, n) {
          assert n == 0;
        }
      } else {
        BelowMeaning(a[1..], b[1..]);
        if n: nat :| SmallerAt(a, b, n) {
          assert n != 0;
          SmallerInTail(a, b, n - 1);
        }
        if n: nat :| SmallerAt(a[1..], b[1..], n) {
          SmallerInTail(a, b, n);
        }
        assert a == [a[0]] + a[1..] && b == [b[0]] + b[1..];
      }
    }
  }

  lemma {:induction false} BelowIsIrreflexive(a: string)
    ensures !Below(a, a)
    decreases |a|
  {
    if a != "" {
      BelowIsIrreflexive(a[1..]);
    }
  }

  lemma {:induction false} BelowIsTransitive(a: string, b: string, c: string)
    requires Below(a, b) && Below(b, c)
    ensures Below(a, c)
    decreases |c|
  {
    if a != "" && a[0] == b[0] == c[0] {
      BelowIsTransitive(a[1..], b[1..], c[1..]);
    }
  }

  lemma {:induction false} BelowIsTotal(a: string, b: string)
    ensures Below(a, b) || a == b || Below(b, a)
    decreases |a|
  {
    if a != "" && b != "" && a[0] == b[0] {
      BelowIsTotal(a[1..], b[1..]);
      assert a == [a[0]] + a[1..] && b == [b[0]] + b[1..];
    }
  }

  ghost predicate Ascending<T(!new)>(key: T -> string, xs: seq<T>) {
    forall i, j | 0 <= i < j < |xs| :: Below(key(xs[i]), key(xs[j]))
  }

  ghost predicate DistinctKeys<T(!new)>(key: T -> string, xs: seq<T>) {
    forall i, j | 0 <= i < j < |xs| :: key(xs[i]) != key(xs[j])
  }

  function Insert<T>(key: T -> string, x: T, xs: seq<T>): (r: seq<T>)
    ensures multiset(r) == multiset(xs) + multiset{x}
  {
    if xs == [] then [x]
    else if Below(key(x), key(xs[0])) then [x] + xs
    else
      assert xs == [xs[0]] + xs[1..];
      [xs[0]] + Insert(key, x, xs[1..])
  }

  function Sort<T>(key: T -> string, xs: seq<T>): (r: seq<T>)
    ensures multiset(r) == multiset(xs)
  {
    if xs == [] then []
    else
      assert xs == [xs[0]] + xs[1..];
      Insert(key, xs[0], Sort(key, xs[1..]))
  }

  lemma SameMembers<T>(xs: seq<T>, ys: seq<T>)
    requires multiset(xs) == multiset(ys)
    ensures |xs| == |ys| && forall x :: x in xs <==> x in ys
  {
    assert |multiset(xs)| == |xs| && |multiset(ys)| == |ys|;
    forall x: T
      ensures x in xs <==> x in ys
    {
      assert x in xs <==> x in multiset(xs);
      assert x in ys <==> x in multiset(ys);
    }
  }

  lemma {:induction false} InsertAscending<T(!new)>(key: T -> string, x: T, xs: seq<T>)
    requires Ascending(key, xs) && forall i | 0 <= i < |xs| :: key(xs[i]) != key(x)
    ensures Ascending(key, Insert(key, x, xs))
  {
    if xs != [] {
      if Below(key(x), key(xs[0])) {
        forall i | 0 < i < |xs|
          ensures Below(key(x), key(xs[i]))
        {
          BelowIsTransitive(key(x), key(xs[0]), key(xs[i]));
        }
      } else {
        BelowIsTotal(key(x), key(xs[0]));
        InsertAscending(key, x, xs[1..]);
        var rest := Insert(key, x, xs[1..]);
        forall i | 0 <= i < |rest|
          ensures Below(key(xs[0]), key(rest[i]))
        {
          assert rest[i] in multiset(rest);
          assert rest[i] == x || rest[i] in multiset(xs[1..]);
        }
      }
    }
  }

  /** Sorting by distinct keys gives the members in strictly ascending order. */
  lemma {:induction false} SortAscending<T(!new)>(key: T -> string, xs: seq<T>)
    requires DistinctKeys(key, xs)
    ensures Ascending(key, Sort(key, xs))
  {
    if xs != [] {
      var rest := Sort(key, xs[1..]);
      SortAscending(key, xs[1..]);
      SameMembers(rest, xs[1..]);
      forall i | 0 <= i < |rest|
        ensures key(rest[i]) != key(xs[0])
      {
        assert rest[i] in xs[1..];
      }
      InsertAscending(key, xs[0], rest);
    }
  }

  lemma SameFirst<T(!new)>(key: T -> string, xs: seq<T>, ys: seq<T>)
    requires Ascending(key, xs) && Ascending(key, ys) && xs != [] && ys != [] && xs[0] in ys && ys[0] in xs
    ensures xs[0] == ys[0]
  {
    var i :| 0 <= i < |xs| && xs[i] == ys[0];
    var j :| 0 <= j < |ys| && ys[j] == xs[0];
    if i > 0 && j > 0 {
      BelowIsTransitive(key(xs[0]), key(ys[0]), key(xs[0]));
      BelowIsIrreflexive(key(xs[0]));
    }
  }

  lemma WithoutFirst<T>(xs: seq<T>)
    requires xs != []
    ensures multiset(xs[1..]) == multiset(xs) - multiset{xs[0]}
  {
    assert xs == [xs[0]] + xs[1..];
  }

  /** There is one ascending sequence with given members. */
  lemma {:induction false} AscendingIsUnique<T(!new)>(key: T -> string, xs: seq<T>, ys: seq<T>)
    requires Ascending(key, xs) && Ascending(key, ys) && multiset(xs) == multiset(ys)
    ensures xs == ys
  {
    SameMembers(xs, ys);
    if xs != [] {
      assert xs[0] in ys && ys[0] in xs;
      SameFirst(key, xs, ys);
      WithoutFirst(xs);
      WithoutFirst(ys);
      AscendingIsUnique(key, xs[1..], ys[1..]);
      assert xs == [xs[0]] + xs[1..] && ys == [ys[0]] + ys[1..];
    }
  }

  // ---- Distinct keys of parts and extensions ----

  lemma DistinctPrefix<T(!new)>(key: T -> string, xs: seq<T>, n: nat)
    requires n <= |xs| && DistinctKeys(key, xs)
    ensures DistinctKeys(key, xs[..n])
    ensures n < |xs| ==> forall x | x in xs[..n] :: key(x) != key(xs[n])
  {
    forall i, j | 0 <= i < j < n
      ensures key(xs[..n][i]) != key(xs[..n][j])
    {
      assert key(xs[i]) != key(xs[j]);
    }
    if n < |xs| {
      forall x | x in xs[..n]
        ensures key(x) != key(xs[n])
      {
        var j :| 0 <= j < n && xs[..n][j] == x;
        assert key(xs[j]) != key(xs[n]);
      }
    }
  }

  lemma DistinctAppend<T(!new)>(key: T -> string, xs: seq<T>, x: T)
    requires DistinctKeys(key, xs) && forall y | y in xs :: key(y) != key(x)
    ensures DistinctKeys(key, xs + [x])
  {
    var all := xs + [x];
    forall i, j | 0 <= i < j < |all|
      ensures key(all[i]) != key(all[j])
    {
      if j < |xs| {
        assert key(xs[i]) != key(xs[j]);
      } else {
        assert xs[i] in xs;
      }
    }
  }

  // ---- Reordering ----

  lemma WithoutOne<T>(xs: seq<T>, i: nat)
    requires i < |xs|
    ensures multiset(xs[..i] + xs[i + 1..]) == multiset(xs) - multiset{xs[i]}
  {
    assert xs == xs[..i] + [xs[i]] + xs[i + 1..];
  }

  lemma TwoOccurrences<T>(xs: seq<T>, i: nat, j: nat)
    requires i < j < |xs|
    ensures multiset{xs[i], xs[j]} <= multiset(xs)
  {
    WithoutOne(xs, i);
    var rest := xs[..i] + xs[i + 1..];
    assert rest[j - 1] == xs[j];
    assert xs[j] in multiset(rest);
  }

  lemma TwoPlaces<T>(xs: seq<T>, a: T, b: T)
    requires multiset{a, b} <= multiset(xs)
    ensures exists i, j :: 0 <= i < |xs| && 0 <= j < |xs| && i != j && xs[i] == a && xs[j] == b
  {
    assert a in multiset(xs);
    var i :| 0 <= i < |xs| && xs[i] == a;
    WithoutOne(xs, i);
    var rest := xs[..i] + xs[i + 1..];
    assert multiset(rest)[b] >= 1;
    var k :| 0 <= k < |rest| && rest[k] == b;
    assert xs[if k < i then k else k + 1] == b;
  }

  /** Distinctness of keys does not depend on the order. */
  lemma DistinctPermuted<T(!new)>(key: T -> string, xs: seq<T>, ys: seq<T>)
    requires DistinctKeys(key, xs) && multiset(xs) == multiset(ys)
    ensures DistinctKeys(key, ys)
  {
    forall i, j | 0 <= i < j < |ys|
      ensures key(ys[i]) != key(ys[j])
    {
      TwoOccurrences(ys, i, j);
      TwoPlaces(xs, ys[i], ys[j]);
    }
  }

  lemma {:induction false} AtMostOnce<T(!new)>(key: T -> string, xs: seq<T>, x: T)
    requires DistinctKeys(key, xs)
    ensures multiset(xs)[x] == if x in xs then 1 else 0
  {
    if x in xs {
      var i :| 0 <= i < |xs| && xs[i] == x;
      WithoutOne(xs, i);
      var rest := xs[..i] + xs[i + 1..];
      assert x !in rest;
      assert x !in multiset(rest);
    }
  }

  /** Sequences with distinct keys and the same members are reorderings of each other, and sort to the same sequence. */
  lemma SameMembersSameSort<T(!new)>(key: T -> string, xs: seq<T>, ys: seq<T>)
    requires DistinctKeys(key, xs) && DistinctKeys(key, ys) && forall x :: x in xs <==> x in ys
    ensures Sort(key, xs) == Sort(key, ys)
  {
    forall x: T
      ensures multiset(xs)[x] == multiset(ys)[x]
    {
      AtMostOnce(key, xs, x);
      AtMostOnce(key, ys, x);
    }
    assert multiset(xs) == multiset(ys);
    SortAscending(key, xs);
    SortAscending(key, ys);
    AscendingIsUnique(key, Sort(key, xs), Sort(key, ys));
  }
}
