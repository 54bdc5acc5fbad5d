/** Python's stable `sorted` under a total preorder on the elements. */
module Sorting {
  ghost predicate TotalPreorder<T(!new)>(leq: (T, T) -> bool) {
    && (forall a, b :: leq(a, b) || leq(b, a))
    && (forall a, b, c :: leq(a, b) && leq(b, c) ==> leq(a, c))
  }

  ghost predicate Antisymmetric<T(!new)>(leq: (T, T) -> bool) {
    forall a, b :: leq(a, b) && leq(b, a) ==> a == b
  }

  predicate Sorted<T>(leq: (T, T) -> bool, xs: seq<T>) {
    forall i, j :: 0 <= i < j < |xs| ==> leq(xs[i], xs[j])
  }

  /** Puts x behind every element it does not precede. */
  function Insert<T>(leq: (T, T) -> bool, ys: seq<T>, x: T): (r: seq<T>)
    ensures |r| == |ys| + 1
  {
    if ys == [] || leq(ys[|ys| - 1], x) then ys + [x]
    else Insert(leq, ys[..|ys| - 1], x) + [ys[|ys| - 1]]
  }

  function SortBy<T>(leq: (T, T) -> bool, xs: seq<T>): (r: seq<T>)
    ensures |r| == |xs|
  {
    if xs == [] then [] else Insert(leq, SortBy(leq, xs[..|xs| - 1]), xs[|xs| - 1])
  }

  lemma {:induction false} InsertPermutes<T>(leq: (T, T) -> bool, ys: seq<T>, x: T)
    ensures multiset(Insert(leq, ys, x)) == multiset(ys) + multiset{x}
  {
    if ys != [] && !leq(ys[|ys| - 1], x) {
      assert ys == ys[..|ys| - 1] + [ys[|ys| - 1]];
      InsertPermutes(leq, ys[..|ys| - 1], x);
    }
  }

  /** Every element after an insertion is x or one of the old ones. */
  lemma {:induction false} InsertMembers<T>(leq: (T, T) -> bool, ys: seq<T>, x: T, i: nat)
    requires i <= |ys|
    ensures Insert(leq, ys, x)[i] == x || exists k :: 0 <= k < |ys| && ys[k] == Insert(leq, ys, x)[i]
  {
    if ys != [] && !leq(ys[|ys| - 1], x) {
      var n := |ys| - 1;
      if i < |ys| {
        InsertMembers(leq, ys[..n], x, i);
        if Insert(leq, ys, x)[i] != x {
          var k :| 0 <= k < n && ys[..n][k] == Insert(leq, ys[..n], x)[i];
          assert ys[k] == Insert(leq, ys, x)[i];
        }
      } else {
        assert ys[n] == Insert(leq, ys, x)[i];
      }
    } else if i < |ys| {
      assert ys[i] == Insert(leq, ys, x)[i];
    }
  }

  lemma {:induction false} InsertSorted<T(!new)>(leq: (T, T) -> bool, ys: seq<T>, x: T)
    requires TotalPreorder(leq) && Sorted(leq, ys)
    ensures Sorted(leq, Insert(leq, ys, x))
  {
    if ys == [] {
    } else {
      var n := |ys| - 1;
      var init, last := ys[..n], ys[n];
      if leq(last, x) {
        forall i | 0 <= i < |ys| ensures leq(ys[i], x) {
          if i < n { assert leq(ys[i], last); }
        }
      } else {
        InsertSorted(leq, init, x);
        var r := Insert(leq, init, x);
        forall i | 0 <= i < |r| ensures leq(r[i], last) {
          InsertMembers(leq, init, x, i);
          if r[i] != x {
            var k :| 0 <= k < n && init[k] == r[i];
            assert leq(ys[k], ys[n]);
          }
        }
      }
    }
  }

  /** `sorted` returns a sorted permutation. */
  lemma {:induction false} SortBySorts<T(!new)>(leq: (T, T) -> bool, xs: seq<T>)
    requires TotalPreorder(leq)
    ensures Sorted(leq, SortBy(leq, xs))
    ensures multiset(SortBy(leq, xs)) == multiset(xs)
  {
    if xs != [] {
      var init, last := xs[..|xs| - 1], xs[|xs| - 1];
      var before := SortBy(leq, init);
      SortBySorts(leq, init);
      InsertSorted(leq, before, last);
      InsertPermutes(leq, before, last);
      assert xs == init + [last];
    }
  }

  /** Being stable, `sorted` leaves a sorted list as it is, equal keys included. */
  lemma {:induction false} SortBySorted<T>(leq: (T, T) -> bool, xs: seq<T>)
    requires Sorted(leq, xs)
    ensures SortBy(leq, xs) == xs
  {
    if xs != [] {
      var n := |xs| - 1;
      var init := xs[..n];
      SortBySorted(leq, init);
      assert n > 0 ==> leq(init[n - 1], xs[n]);
      InsertLast(leq, init, xs[n]);
      assert xs == init + [xs[n]];
    }
  }

  lemma InsertLast<T>(leq: (T, T) -> bool, ys: seq<T>, x: T)
    requires ys != [] ==> leq(ys[|ys| - 1], x)
    ensures Insert(leq, ys, x) == ys + [x]
  {
  }

  /** Under an antisymmetric order a multiset has one sorted arrangement. */
  lemma {:induction false} SortedUnique<T(!new)>(leq: (T, T) -> bool, a: seq<T>, b: seq<T>)
    requires TotalPreorder(leq) && Antisymmetric(leq)
    requires Sorted(leq, a) && Sorted(leq, b) && multiset(a) == multiset(b)
    ensures a == b
  {
    assert |a| == |multiset(a)| == |multiset(b)| == |b|;
    if a != [] {
      var n := |a| - 1;
      DropLast(a);
      DropLast(b);
      assert a[n] == b[n] by {
        assert a[n] in multiset(a) && b[n] in multiset(b);
        LastIsGreatest(leq, a, b[n]);
        LastIsGreatest(leq, b, a[n]);
      }
      SortedUnique(leq, a[..n], b[..n]);
    }
  }

  lemma DropLast<T>(xs: seq<T>)
    requires xs != []
    ensures xs == xs[..|xs| - 1] + [xs[|xs| - 1]]
    ensures multiset(xs[..|xs| - 1]) == multiset(xs) - multiset{xs[|xs| - 1]}
  {
    assert xs == xs[..|xs| - 1] + [xs[|xs| - 1]];
  }

  lemma LastIsGreatest<T(!new)>(leq: (T, T) -> bool, xs: seq<T>, x: T)
    requires TotalPreorder(leq) && Sorted(leq, xs) && xs != []
    requires x in multiset(xs)
    ensures leq(x, xs[|xs| - 1])
  {
    var i :| 0 <= i < |xs| && xs[i] == x;
  }

  // ---------------------------------------------------------------- orders

  /** Python's order on `str`: by code point, a prefix first. */
  predicate StrLeq(a: string, b: string) {
    a == "" || (b != "" && (a[0] < b[0] || (a[0] == b[0] && StrLeq(a[1..], b[1..]))))
  }

  lemma {:induction false} StrLeqTotal(a: string, b: string)
    ensures StrLeq(a, b) || StrLeq(b, a)
    ensures StrLeq(a, b) && StrLeq(b, a) ==> a == b
  {
    if a != "" && b != "" {
      StrLeqTotal(a[1..], b[1..]);
      assert a == [a[0]] + a[1..] && b == [b[0]] + b[1..];
    }
  }

  lemma {:induction false} StrLeqTransitive(a: string, b: string, c: string)
    requires StrLeq(a, b) && StrLeq(b, c)
    ensures StrLeq(a, c)
  {
    if a != "" && a[0] == b[0] == c[0] {
      StrLeqTransitive(a[1..], b[1..], c[1..]);
    }
  }

  /** The texts agree up to n, where a ends or has the smaller code point. */
  predicate SmallerAt(a: string, b: string, n: nat) {
    n <= |a| && n < |b| && a[..n] == b[..n] && (n == |a| || a[n] < b[n])
  }

  predicate Precedes(a: string, b: string) {
    exists n: nat :: n <= |a| && SmallerAt(a, b, n)
  }

  /** The order is decided at the first difference. */
  lemma {:induction false} StrLeqIff(a: string, b: string)
    ensures StrLeq(a, b) <==> a == b || Precedes(a, b)
  {
    if a == "" {
      if b != "" { assert SmallerAt(a, b, 0); }
    } else if b != "" && a[0] == b[0] {
      StrLeqIff(a[1..], b[1..]);
      assert a == [a[0]] + a[1..] && b == [b[0]] + b[1..];
      PrecedesTail(a, b);
    } else {
      if b != "" && a[0] < b[0] { assert SmallerAt(a, b, 0); }
      PrecedesFirst(a, b);
    }
  }

  lemma PrecedesFirst(a: string, b: string)
    requires a != ""
    ensures Precedes(a, b) ==> b != "" && a[0] <= b[0]
  {
    if n: nat :| n <= |a| && SmallerAt(a, b, n) {
      if n > 0 { assert a[..n][0] == b[..n][0]; }
    }
  }

  lemma PrecedesTail(a: string, b: string)
    requires a != "" && b != "" && a[0] == b[0]
    ensures Precedes(a, b) <==> Precedes(a[1..], b[1..])
  {
    if Precedes(a, b) {
      var n: nat :| n <= |a| && SmallerAt(a, b, n);
      assert n > 0;
      assert a[1..][..n - 1] == a[..n][1..] && b[1..][..n - 1] == b[..n][1..];
      assert SmallerAt(a[1..], b[1..], n - 1);
    }
    if Precedes(a[1..], b[1..]) {
      var n: nat :| n <= |a[1..]| && SmallerAt(a[1..], b[1..], n);
      assert a[..n + 1] == [a[0]] + a[1..][..n] && b[..n + 1] == [b[0]] + b[1..][..n];
      assert SmallerAt(a, b, n + 1);
    }
  }
}
