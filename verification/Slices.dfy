/** What the model needs from Go's sort package, from ranging over maps, and of option values. */
module Slices {

  datatype Option<+T> = None | Some(value: T)

  /** A less function sort.Slice accepts: a strict weak ordering. */
  ghost predicate WeakOrder<T(!new)>(less: (T, T) -> bool) {
    && (forall a, b :: less(a, b) ==> !less(b, a))
    && (forall a, b, c :: !less(b, a) && !less(c, b) ==> !less(c, a))
  }

  ghost predicate Sorted<T>(s: seq<T>, less: (T, T) -> bool) {
    forall i, j :: 0 <= i < j < |s| ==> !less(s[j], s[i])
  }

  ghost predicate NoDup<T>(s: seq<T>) {
    forall i, j :: 0 <= i < j < |s| ==> s[i] != s[j]
  }

  lemma FirstIsMember<T>(s: seq<T>)
    requires s != []
    ensures s[0] in s
  {
  }

  lemma NoDupAppend<T>(s: seq<T>, x: T)
    ensures NoDup(s + [x]) <==> NoDup(s) && x !in s
  {
    assert forall i :: 0 <= i < |s| ==> (s + [x])[i] == s[i];
    assert (s + [x])[|s|] == x;
  }

  lemma NoDupConcat<T>(a: seq<T>, b: seq<T>)
    requires NoDup(a) && NoDup(b) && forall x :: x in a ==> x !in b
    ensures NoDup(a + b)
  {
    assert forall i :: 0 <= i < |a| ==> a[i] in a;
    assert forall j :: 0 <= j < |b| ==> b[j] in b;
  }

  lemma {:induction false} NoDupCardinality<T>(s: seq<T>, all: set<T>)
    requires NoDup(s) && forall x :: x in s <==> x in all
    ensures |s| == |all|
  {
    if s == [] {
      assert all == {};
    } else {
      assert forall x :: x in s <==> x == s[0] || x in s[1..];
      assert forall x :: x in s[1..] ==> x != s[0];
      NoDupCardinality(s[1..], all - {s[0]});
    }
  }

  lemma {:induction false} Pigeonhole<T>(s: seq<T>, holes: set<T>)
    requires NoDup(s) && forall i :: 0 <= i < |s| ==> s[i] in holes
    ensures |s| <= |holes|
  {
    if s != [] {
      Pigeonhole(s[1..], holes - {s[0]});
    }
  }

  // ----- Filtering and concatenating -----

  function Filter<T>(s: seq<T>, p: T -> bool): seq<T> {
    if s == [] then [] else (if p(s[0]) then [s[0]] else []) + Filter(s[1..], p)
  }

  lemma {:induction false} FilterAppend<T>(s: seq<T>, x: T, p: T -> bool)
    ensures Filter(s + [x], p) == Filter(s, p) + if p(x) then [x] else []
  {
    if s != [] {
      assert (s + [x])[1..] == s[1..] + [x];
      FilterAppend(s[1..], x, p);
    }
  }

  lemma {:induction false} FilterMembers<T>(s: seq<T>, p: T -> bool, x: T)
    ensures x in Filter(s, p) <==> x in s && p(x)
  {
    if s != [] {
      FilterMembers(s[1..], p, x);
    }
  }

  /** r has, in the order of s and once for each, what `made` relates to the elements that satisfy `keep`. */
  ghost predicate Picked<T, U>(s: seq<T>, keep: T -> bool, made: (T, U) -> bool, r: seq<U>) {
    if s == [] then r == []
    else
      var n, x := |s| - 1, s[|s| - 1];
      if keep(x) then r != [] && made(x, r[|r| - 1]) && Picked(s[..n], keep, made, r[..|r| - 1])
      else Picked(s[..n], keep, made, r)
  }

  lemma PickedNext<T, U>(s: seq<T>, x: T, keep: T -> bool, made: (T, U) -> bool, r: seq<U>, y: U)
    requires Picked(s, keep, made, r)
    ensures keep(x) && made(x, y) ==> Picked(s + [x], keep, made, r + [y])
    ensures !keep(x) ==> Picked(s + [x], keep, made, r)
  {
    assert (s + [x])[..|s|] == s && (r + [y])[..|r|] == r;
  }

  lemma {:induction false} PickedMade<T, U, V>(s: seq<T>, keep: T -> bool, made: (T, U) -> bool, r: seq<U>,
                                               done: (T, V) -> bool, r': seq<V>)
    requires Picked(s, keep, made, r) && |r'| == |r|
    requires forall i, k :: 0 <= i < |s| && 0 <= k < |r| && made(s[i], r[k]) ==> done(s[i], r'[k])
    ensures Picked(s, keep, done, r')
  {
    if s != [] {
      var front, n := s[..|s| - 1], |r| - 1;
      assert forall i :: 0 <= i < |front| ==> front[i] == s[i];
      if keep(s[|s| - 1]) {
        PickedMade(front, keep, made, r[..n], done, r'[..n]);
      } else {
        PickedMade(front, keep, made, r, done, r');
      }
    }
  }

  /** What is picked in the same way twice is the same, if `made` leaves no choice. */
  lemma {:induction false} PickedUnique<T(!new), U(!new)>(s: seq<T>, keep: T -> bool, made: (T, U) -> bool,
                                                          a: seq<U>, b: seq<U>)
    requires Picked(s, keep, made, a) && Picked(s, keep, made, b)
    requires forall x, y, z :: made(x, y) && made(x, z) ==> y == z
    ensures a == b
  {
    if s != [] {
      var front := s[..|s| - 1];
      if keep(s[|s| - 1]) {
        PickedUnique(front, keep, made, a[..|a| - 1], b[..|b| - 1]);
        assert a == a[..|a| - 1] + [a[|a| - 1]] && b == b[..|b| - 1] + [b[|b| - 1]];
      } else {
        PickedUnique(front, keep, made, a, b);
      }
    }
  }

  ghost predicate Increasing(from: seq<nat>) {
    forall k, l :: 0 <= k < l < |from| ==> from[k] < from[l]
  }

  /** `from` has the indices of the elements kept, all of them and in order. */
  ghost predicate PickedFrom<T(!new), U>(s: seq<T>, keep: T -> bool, made: (T, U) -> bool, r: seq<U>,
                                         from: seq<nat>) {
    && |from| == |r| && Increasing(from)
    && (forall k :: 0 <= k < |from| ==> from[k] < |s| && keep(s[from[k]]) && made(s[from[k]], r[k]))
    && (forall i :: 0 <= i < |s| && keep(s[i]) ==> i in from)
  }

  lemma SkipLast<T(!new), U>(s: seq<T>, x: T, keep: T -> bool, made: (T, U) -> bool, r: seq<U>, from: seq<nat>)
    requires PickedFrom(s, keep, made, r, from) && !keep(x)
    ensures PickedFrom(s + [x], keep, made, r, from)
  {
    var all := s + [x];
    forall k | 0 <= k < |from|
      ensures from[k] < |all| && keep(all[from[k]]) && made(all[from[k]], r[k])
    {
      assert all[from[k]] == s[from[k]];
    }
    forall i | 0 <= i < |all| && keep(all[i])
      ensures i in from
    {
      assert i < |s| && all[i] == s[i];
    }
  }

  lemma PickLast<T(!new), U>(s: seq<T>, x: T, keep: T -> bool, made: (T, U) -> bool, r: seq<U>, y: U, from: seq<nat>)
    requires PickedFrom(s, keep, made, r, from) && keep(x) && made(x, y)
    ensures PickedFrom(s + [x], keep, made, r + [y], from + [|s|])
  {
    var all, longer: seq<nat> := s + [x], from + [|s|];
    forall k | 0 <= k < |longer|
      ensures longer[k] < |all| && keep(all[longer[k]]) && made(all[longer[k]], (r + [y])[k])
    {
      assert k < |from| ==> longer[k] == from[k] && all[from[k]] == s[from[k]];
    }
    forall i | 0 <= i < |all| && keep(all[i])
      ensures i in longer
    {
      assert i == |s| || (all[i] == s[i] && i in from);
    }
  }

  /** The same by indices. */
  lemma {:induction false} PickedAt<T(!new), U>(s: seq<T>, keep: T -> bool, made: (T, U) -> bool, r: seq<U>)
    returns (from: seq<nat>)
    requires Picked(s, keep, made, r)
    ensures PickedFrom(s, keep, made, r, from)
  {
    from := [];
    if s != [] {
      var front, x, n := s[..|s| - 1], s[|s| - 1], |r| - 1;
      assert s == front + [x];
      if keep(x) {
        from := PickedAt(front, keep, made, r[..n]);
        assert r == r[..n] + [r[n]];
        PickLast(front, x, keep, made, r[..n], r[n], from);
        from := from + [|front|];
      } else {
        from := PickedAt(front, keep, made, r);
        SkipLast(front, x, keep, made, r, from);
      }
    }
  }

  /** The numbers below n that satisfy `keep`, in order. */
  ghost predicate Indices(from: seq<nat>, n: nat, keep: nat -> bool) {
    && Increasing(from)
    && (forall k :: 0 <= k < |from| ==> from[k] < n && keep(from[k]))
    && (forall i: nat :: i < n && keep(i) ==> i in from)
  }

  lemma IndicesNext(from: seq<nat>, n: nat, keep: nat -> bool, keep': nat -> bool)
    requires Indices(from, n, keep) && forall i: nat :: i < n ==> keep(i) == keep'(i)
    ensures keep'(n) ==> Indices(from + [n], n + 1, keep')
    ensures !keep'(n) ==> Indices(from, n + 1, keep')
  {
    var longer := from + [n];
    assert forall k :: 0 <= k < |from| ==> longer[k] == from[k];
    assert longer[|from|] == n;
  }

  predicate Same<T(==)>(x: T, y: T) {
    x == y
  }

  lemma {:induction false} FilterPicks<T>(s: seq<T>, p: T -> bool)
    ensures Picked(s, p, Same, Filter(s, p))
  {
    if s != [] {
      var front, last := s[..|s| - 1], s[|s| - 1];
      assert s == front + [last];
      FilterPicks(front, p);
      FilterAppend(front, last, p);
      PickedNext(front, last, p, Same, Filter(front, p), last);
      assert Filter(front, p) + [] == Filter(front, p);
    }
  }

  function Flatten<T>(parts: seq<seq<T>>): seq<T> {
    if parts == [] then [] else Flatten(parts[..|parts| - 1]) + parts[|parts| - 1]
  }

  lemma FlattenSnoc<T>(parts: seq<seq<T>>, part: seq<T>)
    ensures Flatten(parts + [part]) == Flatten(parts) + part
  {
    assert (parts + [part])[..|parts + [part]| - 1] == parts;
  }

  lemma {:induction false} FlattenMembers<T>(parts: seq<seq<T>>, x: T)
    ensures x in Flatten(parts) <==> exists k :: 0 <= k < |parts| && x in parts[k]
  {
    if parts != [] {
      var n := |parts| - 1;
      FlattenMembers(parts[..n], x);
      assert forall k :: 0 <= k < n ==> parts[..n][k] == parts[k];
      assert x in parts[n] ==> 0 <= n < |parts|;
    }
  }

  lemma Regroup<T>(a: seq<T>, b: seq<T>, c: seq<T>)
    ensures (a + b) + c == a + (b + c)
  {
  }

  // ----- Permutations -----

  /** `perm` lists each index below n exactly once. */
  ghost predicate Permutation(perm: seq<nat>, n: nat) {
    && |perm| == n && NoDup(perm)
    && (forall i :: 0 <= i < n ==> perm[i] < n)
    && (forall k: nat :: k < n ==> k in perm)
  }

  ghost function Permute<T>(s: seq<T>, perm: seq<nat>): (r: seq<T>)
    requires forall i :: 0 <= i < |perm| ==> perm[i] < |s|
    ensures |r| == |perm|
  {
    seq(|perm|, i requires 0 <= i < |perm| => s[perm[i]])
  }

  lemma PermuteKeepsMembers<T>(s: seq<T>, perm: seq<nat>)
    requires Permutation(perm, |s|)
    ensures forall x :: x in Permute(s, perm) <==> x in s
    ensures NoDup(s) ==> NoDup(Permute(s, perm))
  {
    forall x | x in s
      ensures x in Permute(s, perm)
    {
      var i: nat :| i < |s| && s[i] == x;
      assert i in perm;
      var j :| 0 <= j < |perm| && perm[j] == i;
      assert Permute(s, perm)[j] == x;
    }
  }

  /** The order in which `range` visits the keys of a Go map: any order, each key once. */
  method RangeKeys<K>(keys: set<K>) returns (ks: seq<K>)
    ensures NoDup(ks)
    ensures forall k :: k in ks <==> k in keys
  {
    ks := [];
    var todo := keys;
    while todo != {}
      invariant todo <= keys
      invariant NoDup(ks)
      invariant forall k :: k in ks <==> k in keys - todo
    {
      var k :| k in todo;
      NoDupAppend(ks, k);
      ks, todo := ks + [k], todo - {k};
    }
  }

  lemma InsertNext(perm: seq<nat>, p: nat)
    requires Permutation(perm, |perm|) && p <= |perm|
    ensures Permutation(perm[..p] + [|perm|] + perm[p..], |perm| + 1)
  {
    var n := |perm|;
    var longer := perm[..p] + [n] + perm[p..];
    forall k: nat | k < n + 1
      ensures k in longer
    {
      if k < n {
        assert perm == perm[..p] + perm[p..] && k in perm;
      }
      assert longer[p] == n;
    }
  }

  lemma DropLast(perm: seq<nat>, p: nat)
    requires p < |perm| && perm[p] == |perm| - 1 && Permutation(perm, |perm|)
    ensures Permutation(perm[..p] + perm[p + 1..], |perm| - 1)
  {
    var fewer := perm[..p] + perm[p + 1..];
    assert perm == perm[..p] + [perm[p]] + perm[p + 1..];
    forall k: nat | k < |perm| - 1
      ensures k in fewer
    {
      assert k in perm;
    }
  }

  lemma {:induction false} PermuteMultiset<T>(s: seq<T>, perm: seq<nat>)
    requires Permutation(perm, |s|)
    ensures multiset(Permute(s, perm)) == multiset(s)
  {
    if s != [] {
      var n: nat := |s| - 1;
      assert n in perm;
      var p :| 0 <= p < |perm| && perm[p] == n;
      DropLast(perm, p);
      var fewer := perm[..p] + perm[p + 1..];
      PermuteMultiset(s[..n], fewer);
      PutBack(s, n, Permute(s[..n], fewer), Permute(s, perm), p);
    }
  }

  lemma PutBack<T>(s: seq<T>, n: nat, short: seq<T>, long: seq<T>, p: nat)
    requires |s| == n + 1 && |short| == n && p <= n
    requires long == short[..p] + [s[n]] + short[p..]
    requires multiset(short) == multiset(s[..n])
    ensures multiset(long) == multiset(s)
  {
    assert short == short[..p] + short[p..] && s == s[..n] + [s[n]];
  }

  lemma InsertSorted<T(!new)>(r: seq<T>, x: T, p: nat, less: (T, T) -> bool)
    requires WeakOrder(less) && Sorted(r, less) && p <= |r|
    requires forall i :: p <= i < |r| ==> less(x, r[i])
    requires p > 0 ==> !less(x, r[p - 1])
    ensures Sorted(r[..p] + [x] + r[p..], less)
  {
    forall i | 0 <= i < p
      ensures !less(x, r[i])
    {
      assert !less(r[p - 1], r[i]);
    }
  }

  /** sort.Slice: a sorted rearrangement. Elements the ordering does not separate
      may come out in any order, so callers may use only what is ensured here. */
  method SortSlice<T(!new)>(s: seq<T>, less: (T, T) -> bool) returns (r: seq<T>, ghost perm: seq<nat>)
    requires WeakOrder(less)
    ensures Permutation(perm, |s|)
    ensures r == Permute(s, perm)
    ensures multiset(r) == multiset(s)
    ensures Sorted(r, less)
  {
    r, perm := [], [];
    for n := 0 to |s|
      invariant Permutation(perm, n)
      invariant r == Permute(s, perm)
      invariant Sorted(r, less)
    {
      var p := n;
      while p > 0 && less(s[n], r[p - 1])
        invariant p <= n
        invariant forall i :: p <= i < n ==> less(s[n], r[i])
      {
        p := p - 1;
      }
      InsertNext(perm, p);
      InsertSorted(r, s[n], p, less);
      r, perm := r[..p] + [s[n]] + r[p..], perm[..p] + [n] + perm[p..];
    }
    PermuteMultiset(s, perm);
  }

  /** A sorted rearrangement is unique where the ordering separates distinct elements. */
  lemma {:induction false} SortedUnique<T(!new)>(a: seq<T>, b: seq<T>, less: (T, T) -> bool)
    requires multiset(a) == multiset(b) && Sorted(a, less) && Sorted(b, less)
    requires forall x, y :: x in a && y in a && x != y ==> less(x, y) || less(y, x)
    ensures a == b
  {
    assert |a| == |multiset(a)| == |multiset(b)| == |b|;
    if a != [] {
      SameHead(a, b, less);
      SameTail(a, b);
      SortedUnique(a[1..], b[1..], less);
      assert a == [a[0]] + a[1..] && b == [b[0]] + b[1..];
    }
  }

  lemma SameHead<T(!new)>(a: seq<T>, b: seq<T>, less: (T, T) -> bool)
    requires a != [] && |a| == |b|
    requires multiset(a) == multiset(b) && Sorted(a, less) && Sorted(b, less)
    requires forall x, y :: x in a && y in a && x != y ==> less(x, y) || less(y, x)
    ensures a[0] == b[0]
  {
    assert a[0] in multiset(b) && b[0] in multiset(a);
    var j :| 0 <= j < |b| && b[j] == a[0];
    var i :| 0 <= i < |a| && a[i] == b[0];
  }

  lemma SameTail<T>(a: seq<T>, b: seq<T>)
    requires a != [] && b != [] && a[0] == b[0] && multiset(a) == multiset(b)
    ensures multiset(a[1..]) == multiset(b[1..])
  {
    assert a == [a[0]] + a[1..] && b == [b[0]] + b[1..];
    assert multiset(a[1..]) == multiset(a) - multiset{a[0]};
    assert multiset(b[1..]) == multiset(b) - multiset{b[0]};
  }

  /** sort.Ints over the keys of a map. */
  method SortedKeys(keys: set<int>) returns (r: seq<int>)
    ensures forall k :: k in r <==> k in keys
    ensures forall i, j :: 0 <= i < j < |r| ==> r[i] < r[j]
  {
    var ks := RangeKeys(keys);
    ghost var perm;
    r, perm := SortSlice(ks, (a: int, b: int) => a < b);
    PermuteKeepsMembers(ks, perm);
  }
}
