/**
 * Sequence facts shared by the model: keeping the first occurrence of
 * each element (what a Python dict does with repeated keys), and reading
 * a sequence in an order that visits every position exactly once (what
 * `as_completed` does with the submitted futures).
 */
module Seqs {

  /** The position of the first occurrence of `x` in `s`. */
  function FirstIndex<T(==)>(s: seq<T>, x: T): (i: nat)
    requires x in s
    ensures i < |s| && s[i] == x
    ensures forall k | 0 <= k < i :: s[k] != x
  {
    if s[0] == x then 0
    else
      var j := FirstIndex(s[1..], x);
      assert forall k | 1 <= k < j + 1 :: s[k] == s[1..][k - 1];
      j + 1
  }

  /** A position holding `x` with no earlier `x` is the first occurrence. */
  lemma FirstIndexUnique<T>(s: seq<T>, x: T, i: nat)
    requires i < |s| && s[i] == x
    requires forall k | 0 <= k < i :: s[k] != x
    ensures FirstIndex(s, x) == i
  {
    var f := FirstIndex(s, x);
    assert !(f < i) && !(i < f);
  }

  /** Extending a sequence does not move the first occurrence of an element already present. */
  lemma FirstIndexInPrefix<T>(s: seq<T>, n: nat, x: T)
    requires n <= |s| && x in s[..n]
    ensures FirstIndex(s, x) == FirstIndex(s[..n], x)
  {
    var k := FirstIndex(s[..n], x);
    assert forall j | 0 <= j < k :: s[j] == s[..n][j];
    FirstIndexUnique(s, x, k);
  }

  /**
   * The elements of `s` without repetitions, each kept where it first
   * occurs: the keys of a dict built by inserting `s` from left to right.
   */
  function Distinct<T(==)>(s: seq<T>): (r: seq<T>)
    ensures |r| <= |s|
    ensures forall i | 0 <= i < |s| :: s[i] in r
    ensures forall i | 0 <= i < |r| :: r[i] in s
    ensures forall i, j | 0 <= i < j < |r| :: r[i] != r[j]
  {
    if s == [] then []
    else
      var d := Distinct(s[..|s| - 1]);
      assert s == s[..|s| - 1] + [s[|s| - 1]];
      if s[|s| - 1] in d then d else d + [s[|s| - 1]]
  }

  /** The elements of `Distinct(s)` come in the order of their first occurrence in `s`. */
  lemma {:induction false} DistinctFirstSeenOrder<T>(s: seq<T>)
    ensures forall i, j | 0 <= i < j < |Distinct(s)| ::
      FirstIndex(s, Distinct(s)[i]) < FirstIndex(s, Distinct(s)[j])
  {
    if s != [] {
      var p := s[..|s| - 1];
      DistinctFirstSeenOrder(p);
      DistinctOrderStep(s, p, Distinct(p));
    }
  }

  /** Order by first occurrence carries over from `Distinct` of all but the last element to `Distinct(s)`. */
  lemma DistinctOrderStep<T>(s: seq<T>, p: seq<T>, d: seq<T>)
    requires |s| > 0 && p == s[..|s| - 1] && d == Distinct(p)
    requires forall i, j | 0 <= i < j < |d| :: FirstIndex(p, d[i]) < FirstIndex(p, d[j])
    ensures forall i, j | 0 <= i < j < |Distinct(s)| ::
      FirstIndex(s, Distinct(s)[i]) < FirstIndex(s, Distinct(s)[j])
  {
    var n := |s|;
    OrderedInPrefix(s, p, d);
    DistinctStep(s);
    if s[n - 1] !in d {
      OrderedAppend(s, d, s[n - 1], n - 1);
    }
  }

  /** `Distinct(s)` adds the last element of `s` exactly when it is new, and then it first occurs last. */
  lemma DistinctStep<T>(s: seq<T>)
    requires |s| > 0
    ensures s[|s| - 1] in Distinct(s[..|s| - 1]) ==> Distinct(s) == Distinct(s[..|s| - 1])
    ensures s[|s| - 1] !in Distinct(s[..|s| - 1]) ==>
      Distinct(s) == Distinct(s[..|s| - 1]) + [s[|s| - 1]] && FirstIndex(s, s[|s| - 1]) == |s| - 1
  {
    var n := |s|;
    var p := s[..n - 1];
    var d := Distinct(p);
    if s[n - 1] !in d {
      forall k | 0 <= k < n - 1
        ensures s[k] != s[n - 1]
      {
        assert s[k] == p[k];
      }
      FirstIndexUnique(s, s[n - 1], n - 1);
    }
  }

  /** Elements ordered by first occurrence in a prefix `p` of `s` stay so ordered in `s`, inside the prefix. */
  lemma OrderedInPrefix<T>(s: seq<T>, p: seq<T>, d: seq<T>)
    requires |p| <= |s| && p == s[..|p|]
    requires forall i | 0 <= i < |d| :: d[i] in p
    requires forall i, j | 0 <= i < j < |d| :: FirstIndex(p, d[i]) < FirstIndex(p, d[j])
    ensures forall i | 0 <= i < |d| :: d[i] in s && FirstIndex(s, d[i]) < |p|
    ensures forall i, j | 0 <= i < j < |d| :: FirstIndex(s, d[i]) < FirstIndex(s, d[j])
  {
    forall i | 0 <= i < |d|
      ensures d[i] in s && FirstIndex(s, d[i]) == FirstIndex(p, d[i]) < |p|
    {
      FirstIndexInPrefix(s, |p|, d[i]);
    }
  }

  /** Appending an element that first occurs after all of `d`'s keeps the order by first occurrence. */
  lemma OrderedAppend<T>(s: seq<T>, d: seq<T>, x: T, m: nat)
    requires x in s && FirstIndex(s, x) == m
    requires forall i | 0 <= i < |d| :: d[i] in s && FirstIndex(s, d[i]) < m
    requires forall i, j | 0 <= i < j < |d| :: FirstIndex(s, d[i]) < FirstIndex(s, d[j])
    ensures forall i, j | 0 <= i < j < |d + [x]| :: FirstIndex(s, (d + [x])[i]) < FirstIndex(s, (d + [x])[j])
  {
    var r := d + [x];
    forall i, j | 0 <= i < j < |r|
      ensures FirstIndex(s, r[i]) < FirstIndex(s, r[j])
    {
      assert r[i] == d[i];
      if j < |d| {
        assert r[j] == d[j];
      }
    }
  }

  /** `[0, 1, ..., n - 1]`. */
  function Indices(n: nat): (r: seq<nat>)
    ensures |r| == n
    ensures forall i | 0 <= i < n :: r[i] == i
  {
    if n == 0 then [] else Indices(n - 1) + [n - 1]
  }

  /**
   * `order` visits each of the positions `0 .. n - 1` exactly once: the
   * order in which `as_completed` yields the `n` submitted futures.
   */
  predicate IsCompletionOrder(order: seq<nat>, n: nat)
  {
    && |order| == n
    && (forall k | 0 <= k < |order| :: order[k] < n)
    && multiset(order) == multiset(Indices(n))
  }

  /** The elements of `s` read in the order `idx`. */
  function Pick<T>(s: seq<T>, idx: seq<nat>): (r: seq<T>)
    requires forall k | 0 <= k < |idx| :: idx[k] < |s|
    ensures |r| == |idx|
    ensures forall k | 0 <= k < |idx| :: r[k] == s[idx[k]]
  {
    seq(|idx|, k requires 0 <= k < |idx| => s[idx[k]])
  }

  /** The last position `n - 1` occurs in a completion order; without it the rest is a completion order of `n - 1`. */
  lemma RemoveLastPosition(order: seq<nat>, n: nat) returns (j: nat, rest: seq<nat>)
    requires n > 0 && IsCompletionOrder(order, n)
    ensures j < |order| && order[j] == n - 1
    ensures rest == order[..j] + order[j + 1..]
    ensures IsCompletionOrder(rest, n - 1)
  {
    var others := multiset(Indices(n - 1));
    j := FindLast(order, n, others);
    rest := order[..j] + order[j + 1..];
    RemoveFound(order, j, others);
    assert |rest| == n - 1;
    BelowIndices(rest, n - 1);
  }

  /** A completion order of `n` positions holds `n - 1`, once besides the positions below it. */
  lemma FindLast(order: seq<nat>, n: nat, others: multiset<nat>) returns (j: nat)
    requires n > 0 && IsCompletionOrder(order, n)
    requires others == multiset(Indices(n - 1))
    ensures j < |order| && order[j] == n - 1
    ensures multiset(order) == others + multiset{order[j]}
  {
    IndicesLast(n);
    j := FindValue(order, n - 1);
  }

  /** A value of the multiset of `s` sits at some position of `s`. */
  lemma FindValue(s: seq<nat>, v: nat) returns (j: nat)
    requires v in multiset(s)
    ensures j < |s| && s[j] == v
  {
    assert v in s;
    j :| 0 <= j < |s| && s[j] == v;
  }

  /** Removing the element at `j` leaves the other elements' multiset. */
  lemma RemoveFound(s: seq<nat>, j: nat, others: multiset<nat>)
    requires j < |s|
    requires multiset(s) == others + multiset{s[j]}
    ensures multiset(s[..j] + s[j + 1..]) == others
  {
    RemoveAt(s, j);
  }

  /** `[0, ..., n - 1]` is `[0, ..., n - 2]` and then `n - 1`. */
  lemma IndicesLast(n: nat)
    requires n > 0
    ensures multiset(Indices(n)) == multiset(Indices(n - 1)) + multiset{(n - 1) as nat}
    ensures n - 1 in multiset(Indices(n))
  {
    assert Indices(n) == Indices(n - 1) + [n - 1];
  }

  /** Removing the element at `j` removes one occurrence of it from the multiset. */
  lemma RemoveAt(s: seq<nat>, j: nat)
    requires j < |s|
    ensures multiset(s[..j] + s[j + 1..]) == multiset(s) - multiset{s[j]}
  {
    assert s == s[..j] + [s[j]] + s[j + 1..];
  }

  /** A sequence with the elements of `[0, ..., n - 1]` holds only positions below `n`. */
  lemma BelowIndices(rest: seq<nat>, n: nat)
    requires multiset(rest) == multiset(Indices(n))
    ensures forall k | 0 <= k < |rest| :: rest[k] < n
  {
    forall k | 0 <= k < |rest|
      ensures rest[k] < n
    {
      assert rest[k] in multiset(Indices(n));
      var i :| 0 <= i < n && Indices(n)[i] == rest[k];
    }
  }

  /** Reading one more position adds its element to the multiset read. */
  lemma PickInsert<T>(s: seq<T>, a: seq<nat>, i: nat, b: seq<nat>)
    requires i < |s|
    requires forall k | 0 <= k < |a| :: a[k] < |s|
    requires forall k | 0 <= k < |b| :: b[k] < |s|
    ensures multiset(Pick(s, a + [i] + b)) == multiset(Pick(s, a + b)) + multiset{s[i]}
  {
    assert Pick(s, a + [i] + b) == Pick(s, a) + [s[i]] + Pick(s, b);
    assert Pick(s, a + b) == Pick(s, a) + Pick(s, b);
  }

  /** Reading positions below `m` from `s` or from its prefix of length `m` is the same. */
  lemma PickFromPrefix<T>(s: seq<T>, m: nat, idx: seq<nat>)
    requires m <= |s|
    requires forall k | 0 <= k < |idx| :: idx[k] < m
    ensures Pick(s[..m], idx) == Pick(s, idx)
  {
  }

  /** Reading a sequence in a completion order gives a permutation of it. */
  lemma {:induction false} PickPermutation<T>(s: seq<T>, order: seq<nat>)
    requires IsCompletionOrder(order, |s|)
    ensures multiset(Pick(s, order)) == multiset(s)
  {
    var n := |s|;
    if n > 0 {
      var j, rest := RemoveLastPosition(order, n);
      var front := s[..n - 1];
      assert |front| == n - 1;
      PickPermutation(front, rest);
      PickLastStep(s, order, j, front, rest);
    }
  }

  /** Reading `s` in `order` adds the last element to reading `s`'s front in `order` without the last position; so a permutation of the front gives one of `s`. */
  lemma PickLastStep<T>(s: seq<T>, order: seq<nat>, j: nat, front: seq<T>, rest: seq<nat>)
    requires |s| > 0 && j < |order| && order[j] == |s| - 1
    requires forall k | 0 <= k < |order| :: order[k] < |s|
    requires front == s[..|s| - 1] && rest == order[..j] + order[j + 1..]
    requires forall k | 0 <= k < |rest| :: rest[k] < |front|
    requires multiset(Pick(front, rest)) == multiset(front)
    ensures multiset(Pick(s, order)) == multiset(s)
  {
    var n, x := |s|, s[|s| - 1];
    var a, b := order[..j], order[j + 1..];
    assert order == a + [n - 1] + b;
    PickFromPrefix(s, n - 1, rest);
    PickInsert(s, a, n - 1, b);
    assert multiset(Pick(s, order)) == multiset(Pick(front, rest)) + multiset{x};
    assert s == front + [x];
  }

  /** The list comprehension `[f(x) for x in xs if keep(x)]`. */
  function FilterMap<T, U>(xs: seq<T>, keep: T -> bool, f: T -> U): (r: seq<U>)
    ensures |r| <= |xs|
  {
    if xs == [] then []
    else (if keep(xs[0]) then [f(xs[0])] else []) + FilterMap(xs[1..], keep, f)
  }

  /** The comprehension over two runs of elements is the two comprehensions concatenated. */
  lemma {:induction false} FilterMapAppend<T, U>(a: seq<T>, b: seq<T>, keep: T -> bool, f: T -> U)
    ensures FilterMap(a + b, keep, f) == FilterMap(a, keep, f) + FilterMap(b, keep, f)
  {
    if a == [] {
      assert a + b == b;
    } else {
      var tail := a[1..];
      var h := if keep(a[0]) then [f(a[0])] else [];
      var ft, fb := FilterMap(tail, keep, f), FilterMap(b, keep, f);
      assert (a + b)[0] == a[0] && (a + b)[1..] == tail + b;
      FilterMapAppend(tail, b, keep, f);
      assert FilterMap(a + b, keep, f) == h + (ft + fb);
      assert h + (ft + fb) == (h + ft) + fb;
    }
  }

  /** A comprehension over four elements of which it keeps the second and the last. */
  lemma FilterMapSecondAndLast<T, U>(x0: T, x1: T, x2: T, x3: T, keep: T -> bool, f: T -> U)
    requires !keep(x0) && keep(x1) && !keep(x2) && keep(x3)
    ensures FilterMap([x0, x1, x2, x3], keep, f) == [f(x1), f(x3)]
  {
    var d := [x3];
    assert d[1..] == [];
    assert FilterMap(d, keep, f) == [f(x3)];
    var c := [x2, x3];
    assert c[1..] == d;
    assert FilterMap(c, keep, f) == [f(x3)];
    var b := [x1, x2, x3];
    assert b[1..] == c;
    assert FilterMap(b, keep, f) == [f(x1)] + [f(x3)];
    var a := [x0, x1, x2, x3];
    assert a[1..] == b;
  }

  /** The positions of the elements the comprehension keeps, counted from `from`. */
  function KeptPositions<T>(xs: seq<T>, keep: T -> bool, from: nat): seq<nat>
  {
    if xs == [] then []
    else (if keep(xs[0]) then [from] else []) + KeptPositions(xs[1..], keep, from + 1)
  }

  /** There is one kept position per output element, each in range. */
  lemma {:induction false} KeptPositionsRange<T, U>(xs: seq<T>, keep: T -> bool, f: T -> U, from: nat)
    ensures var pos := KeptPositions(xs, keep, from);
      && |pos| == |FilterMap(xs, keep, f)|
      && (forall k | 0 <= k < |pos| :: from <= pos[k] < from + |xs|)
  {
    if xs != [] {
      KeptPositionsRange(xs[1..], keep, f, from + 1);
    }
  }

  /** The kept positions increase: the output keeps the input order. */
  lemma {:induction false} KeptPositionsIncrease<T>(xs: seq<T>, keep: T -> bool, from: nat)
    ensures var pos := KeptPositions(xs, keep, from);
      forall k, m | 0 <= k < m < |pos| :: pos[k] < pos[m]
  {
    if xs != [] {
      KeptPositionsIncrease(xs[1..], keep, from + 1);
      KeptPositionsRange(xs[1..], keep, x => x, from + 1);
    }
  }

  /** The k-th output element is `f` of the input at the k-th kept position. */
  lemma {:induction false} KeptPositionsValues<T, U>(xs: seq<T>, keep: T -> bool, f: T -> U, from: nat)
    ensures var pos := KeptPositions(xs, keep, from);
      |pos| == |FilterMap(xs, keep, f)|
      && forall k | 0 <= k < |pos| :: from <= pos[k] < from + |xs| && FilterMap(xs, keep, f)[k] == f(xs[pos[k] - from])
  {
    KeptPositionsRange(xs, keep, f, from);
    if xs != [] {
      KeptPositionsValues(xs[1..], keep, f, from + 1);
      KeptPositionsStep(xs, keep, f, from);
    }
  }

  /** One step of `KeptPositionsValues`: the claim for `xs[1..]` gives it for `xs`. */
  lemma KeptPositionsStep<T, U>(xs: seq<T>, keep: T -> bool, f: T -> U, from: nat)
    requires xs != []
    requires var rest := KeptPositions(xs[1..], keep, from + 1);
      |rest| == |FilterMap(xs[1..], keep, f)|
      && forall k | 0 <= k < |rest| :: from + 1 <= rest[k] < from + |xs| && FilterMap(xs[1..], keep, f)[k] == f(xs[1..][rest[k] - (from + 1)])
    ensures var pos := KeptPositions(xs, keep, from);
      |pos| == |FilterMap(xs, keep, f)|
      && forall k | 0 <= k < |pos| :: FilterMap(xs, keep, f)[k] == f(xs[pos[k] - from])
  {
    var rest := KeptPositions(xs[1..], keep, from + 1);
    var later := FilterMap(xs[1..], keep, f);
    var head := if keep(xs[0]) then [from] else [];
    var out := if keep(xs[0]) then [f(xs[0])] else [];
    assert KeptPositions(xs, keep, from) == head + rest;
    assert FilterMap(xs, keep, f) == out + later;
    forall k | 0 <= k < |rest|
      ensures later[k] == f(xs[rest[k] - from])
    {
      assert xs[1..][rest[k] - (from + 1)] == xs[rest[k] - from];
    }
  }

  /** A position is kept exactly when `keep` accepts the element there. */
  lemma {:induction false} KeptPositionsMembers<T>(xs: seq<T>, keep: T -> bool, from: nat)
    ensures var pos := KeptPositions(xs, keep, from);
      forall i | 0 <= i < |xs| :: from + i in pos <==> keep(xs[i])
  {
    if xs != [] {
      KeptPositionsMembers(xs[1..], keep, from + 1);
      KeptPositionsRange(xs[1..], keep, x => x, from + 1);
      var rest := KeptPositions(xs[1..], keep, from + 1);
      assert from !in rest;
      forall i | 1 <= i < |xs|
        ensures from + i in rest <==> keep(xs[i])
      {
        assert xs[1..][i - 1] == xs[i];
        assert from + 1 + (i - 1) == from + i;
      }
    }
  }

  /**
   * The comprehension keeps exactly the elements `keep` accepts, maps each
   * with `f`, and keeps their order.
   */
  lemma FilterMapSpec<T, U>(xs: seq<T>, keep: T -> bool, f: T -> U)
    ensures var pos := KeptPositions(xs, keep, 0);
      && |pos| == |FilterMap(xs, keep, f)|
      && (forall k | 0 <= k < |pos| :: pos[k] < |xs| && FilterMap(xs, keep, f)[k] == f(xs[pos[k]]))
      && (forall k, m | 0 <= k < m < |pos| :: pos[k] < pos[m])
      && (forall i | 0 <= i < |xs| :: i in pos <==> keep(xs[i]))
  {
    KeptPositionsValues(xs, keep, f, 0);
    KeptPositionsIncrease(xs, keep, 0);
    KeptPositionsMembers(xs, keep, 0);
  }

  /** After a head, the k-th element of `head + rest` is the k-th of `rest`. */
  lemma AfterHead<T>(t: seq<T>, head: seq<T>, off: nat, rest: seq<T>)
    requires t == head + rest && off == |head|
    ensures |t| == off + |rest|
    ensures forall k | 0 <= k < |rest| :: t[off + k] == rest[k]
  {
  }
}
