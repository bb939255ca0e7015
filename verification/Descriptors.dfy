/** Spec and status descriptors of a generated description
    (internal/generate/clusterserviceversion/bases/definitions/crd.go and markers.go). */
module Descriptors {
  import opened Slices
  import opened FieldWalk
  import Text

  datatype Descriptor = Descriptor(path: string, body: int)

  datatype Ordered = Ordered(order: int, descriptor: Descriptor)

  /** What the markers of a field say for the descriptor type at hand: the order,
      whether some marker is of that type, and the remaining descriptor contents. */
  datatype MarkerValues = MarkerValues(order: int, seenDescType: bool, body: int)

  type ReadMarkers = Field -> MarkerValues

  // ----- Paths -----

  function TrimArraySuffix(segment: string): string {
    if |segment| >= 3 && segment[|segment| - 3..] == "[0]" then segment[..|segment| - 3] else segment
  }

  /** The segments of the path, or None if the field is not to be shown. */
  function PathParts(rawSegments: seq<string>): Option<seq<string>> {
    if rawSegments == [] then Some([])
    else
      var segment, isLast := rawSegments[0], |rawSegments| == 1;
      if segment == IGNORED_TAG || (segment == INLINED_TAG && isLast) then None
      else
        var rest := PathParts(rawSegments[1..]);
        if rest.None? then None
        else if segment == INLINED_TAG then rest
        else Some([if isLast then TrimArraySuffix(segment) else segment] + rest.value)
  }

  function PathOf(rawSegments: seq<string>): Option<string> {
    var parts := PathParts(rawSegments);
    if parts.None? then None else Some(Text.Join(parts.value, "."))
  }

  method MakePath(rawSegments: seq<string>) returns (path: Option<string>)
    ensures path == PathOf(rawSegments)
    ensures path.Some? ==> IsPath(rawSegments, path.value)
    ensures path.None? <==> IsLeftOut(rawSegments)
  {
    PathRead(rawSegments);
    PathLeftOut(rawSegments);
    var pathSegments: seq<string> := [];
    ghost var all := PathParts(rawSegments);
    assert rawSegments[0..] == rawSegments && (all.Some? ==> pathSegments + all.value == all.value);
    for i := 0 to |rawSegments|
      invariant PathParts(rawSegments) == Continued(pathSegments, PathParts(rawSegments[i..]))
    {
      var segment, isLast := rawSegments[i], i == |rawSegments| - 1;
      NextPart(pathSegments, rawSegments, i);
      if segment == IGNORED_TAG {
        return None;
      }
      if segment == INLINED_TAG {
        if isLast {
          return None;
        }
        continue;
      }
      if isLast {
        segment := TrimArraySuffix(segment);
      }
      pathSegments := pathSegments + [segment];
    }
    assert pathSegments + [] == pathSegments;
    return Some(Text.Join(pathSegments, "."));
  }

  function Continued(parts: seq<string>, rest: Option<seq<string>>): Option<seq<string>> {
    if rest.None? then None else Some(parts + rest.value)
  }

  lemma NextPart(parts: seq<string>, rawSegments: seq<string>, i: nat)
    requires i < |rawSegments|
    ensures var segment, isLast, rest := rawSegments[i], i == |rawSegments| - 1, PathParts(rawSegments[i + 1..]);
            Continued(parts, PathParts(rawSegments[i..])) ==
              if segment == IGNORED_TAG || (segment == INLINED_TAG && isLast) then None
              else if segment == INLINED_TAG then Continued(parts, rest)
              else Continued(parts + [if isLast then TrimArraySuffix(segment) else segment], rest)
  {
    assert rawSegments[i..][1..] == rawSegments[i + 1..];
    var rest := PathParts(rawSegments[i + 1..]);
    if rest.Some? {
      var segment := rawSegments[i];
      Regroup(parts, [if i == |rawSegments| - 1 then TrimArraySuffix(segment) else segment], rest.value);
    }
  }

  function SetDescriptorFields(fi: FieldInfo, markers: ReadMarkers): Option<Ordered> {
    var path := PathOf(fi.pathSegments);
    if path.None? || !markers(fi.field).seenDescType then None
    else Some(Ordered(markers(fi.field).order, Descriptor(path.value, markers(fi.field).body)))
  }

  // ----- Paths, read off the segments -----

  /** A field is not shown if it or a field above it is not serialized, or it is itself inlined. */
  ghost predicate IsLeftOut(rawSegments: seq<string>) {
    "##ignore##" in rawSegments || (rawSegments != [] && rawSegments[|rawSegments| - 1] == "##inline##")
  }

  /** A field is left out of the paths exactly then. */
  lemma {:induction false} PathLeftOut(rawSegments: seq<string>)
    ensures PathOf(rawSegments).None? <==> IsLeftOut(rawSegments)
  {
    if rawSegments != [] {
      PathLeftOut(rawSegments[1..]);
    }
  }

  ghost predicate NotInlined(segment: string) {
    segment != "##inline##"
  }

  /** The segment without the suffix of an array, if it has one. */
  ghost predicate IsBare(segment: string, part: string) {
    segment == part + "[0]" || (segment == part && !exists p :: segment == p + "[0]")
  }

  /** The segments that are not inlined, joined by dots, without the last one's array suffix. */
  ghost predicate IsPath(rawSegments: seq<string>, path: string) {
    if rawSegments == [] then path == ""
    else
      var n := |rawSegments| - 1;
      exists above, last ::
        && Picked(rawSegments[..n], NotInlined, Same, above) && IsBare(rawSegments[n], last)
        && path == Text.Join(above + [last], ".")
  }

  lemma TrimIsBare(segment: string)
    ensures IsBare(segment, TrimArraySuffix(segment))
  {
    var n := |segment| - 3;
    if n >= 0 && segment[n..] == "[0]" {
      assert segment == segment[..n] + segment[n..];
    } else {
      assert forall p: string :: (p + "[0]")[|p|..] == "[0]";
    }
  }

  lemma {:induction false} PartsRead(rawSegments: seq<string>)
    requires rawSegments != [] && PathParts(rawSegments).Some?
    ensures var n := |rawSegments| - 1;
            PathParts(rawSegments).value == Filter(rawSegments[..n], NotInlined) + [TrimArraySuffix(rawSegments[n])]
  {
    if |rawSegments| > 1 {
      var n := |rawSegments| - 1;
      PartsRead(rawSegments[1..]);
      assert rawSegments[..n][1..] == rawSegments[1..][..n - 1];
    }
  }

  lemma PathRead(rawSegments: seq<string>)
    ensures PathOf(rawSegments).Some? ==> IsPath(rawSegments, PathOf(rawSegments).value)
  {
    if rawSegments != [] && PathParts(rawSegments).Some? {
      var n := |rawSegments| - 1;
      PartsRead(rawSegments);
      FilterPicks(rawSegments[..n], NotInlined);
      TrimIsBare(rawSegments[n]);
    }
  }

  // ----- What the result should be -----

  function Included(fields: seq<FieldInfo>, markers: ReadMarkers): seq<Ordered> {
    if fields == [] then []
    else
      var rest := Included(fields[..|fields| - 1], markers);
      var d := SetDescriptorFields(fields[|fields| - 1], markers);
      if d.Some? then rest + [d.value] else rest
  }

  /** All included descriptors of the given types. */
  ghost function AllIncluded(markedFields: MarkedFields, types: set<TypeIdent>,
                             markers: ReadMarkers): multiset<Ordered> {
    if types == {} then multiset{}
    else
      var t :| t in types;
      AllIncluded(markedFields, types - {t}, markers) + multiset(Included(Listed(markedFields, t), markers))
  }

  predicate OrderedLess(a: Ordered, b: Ordered) {
    a.order < b.order || (a.order == b.order && Text.Less(a.descriptor.path, b.descriptor.path))
  }

  ghost function Strip(s: seq<Ordered>): (r: seq<Descriptor>)
    ensures |r| == |s| && forall i :: 0 <= i < |s| ==> r[i] == s[i].descriptor
  {
    seq(|s|, i requires 0 <= i < |s| => s[i].descriptor)
  }

  /** Smaller orders first; at equal order smaller paths. */
  ghost predicate MayPrecede(a: Ordered, b: Ordered) {
    || a.order < b.order
    || (a.order == b.order && (a.descriptor.path == b.descriptor.path
                               || Text.Smaller(a.descriptor.path, b.descriptor.path)))
  }

  ghost predicate InOrder(s: seq<Ordered>) {
    forall i, j :: 0 <= i < j < |s| ==> MayPrecede(s[i], s[j])
  }

  lemma InOrderIff(s: seq<Ordered>)
    ensures InOrder(s) <==> Sorted(s, OrderedLess)
  {
    forall i, j | 0 <= i < j < |s|
      ensures MayPrecede(s[i], s[j]) <==> !OrderedLess(s[j], s[i])
    {
      var p, q := s[i].descriptor.path, s[j].descriptor.path;
      Text.LessIff(p, q);
      if p != q { Text.LessTotal(p, q); }
      if Text.Less(q, p) { Text.LessAsymmetric(q, p); }
    }
  }

  /** The descriptors are all of these, as often as they occur, sorted by order and then by path. */
  ghost predicate Lists(descriptors: seq<Descriptor>, all: multiset<Ordered>) {
    exists sorted :: multiset(sorted) == all && InOrder(sorted) && descriptors == Strip(sorted)
  }

  // ----- The bucket sort -----

  function Bucket(buckets: map<int, seq<Ordered>>, o: int): seq<Ordered> {
    if o in buckets then buckets[o] else []
  }

  function OfOrder(visited: seq<Ordered>, o: int): seq<Ordered> {
    if visited == [] then []
    else
      var rest := OfOrder(visited[..|visited| - 1], o);
      if visited[|visited| - 1].order == o then rest + [visited[|visited| - 1]] else rest
  }

  /** Bucket o has the visited descriptors of order o; `orders` lists the orders, repeats included. */
  ghost predicate Bucketed(visited: seq<Ordered>, buckets: map<int, seq<Ordered>>, orders: seq<int>) {
    && (forall o :: o in orders <==> o in buckets)
    && (forall o :: Bucket(buckets, o) == OfOrder(visited, o))
  }

  lemma {:induction false} IncludeType(markedFields: MarkedFields, types: set<TypeIdent>, t: TypeIdent,
                                       markers: ReadMarkers)
    requires t in types
    ensures AllIncluded(markedFields, types, markers) ==
            AllIncluded(markedFields, types - {t}, markers) + multiset(Included(Listed(markedFields, t), markers))
    decreases |types|
  {
    var u :| u in types && AllIncluded(markedFields, types, markers) ==
             AllIncluded(markedFields, types - {u}, markers) + multiset(Included(Listed(markedFields, u), markers));
    if u != t {
      IncludeType(markedFields, types - {u}, t, markers);
      IncludeType(markedFields, types - {t}, u, markers);
      assert types - {t} - {u} == types - {u} - {t};
    }
  }

  method FillBuckets(markedFields: MarkedFields, markers: ReadMarkers)
    returns (buckets: map<int, seq<Ordered>>, orders: seq<int>, ghost visited: seq<Ordered>)
    ensures multiset(visited) == AllIncluded(markedFields, markedFields.Keys, markers)
    ensures Bucketed(visited, buckets, orders)
  {
    buckets, orders, visited := map[], [], [];
    var types := RangeKeys(markedFields.Keys);
    ghost var done: set<TypeIdent> := {};
    for n := 0 to |types|
      invariant forall t :: t in done <==> t in types[..n]
      invariant multiset(visited) == AllIncluded(markedFields, done, markers)
      invariant Bucketed(visited, buckets, orders)
    {
      var t := types[n];
      assert types[..n + 1] == types[..n] + [t];
      buckets, orders := FillFrom(markedFields[t], markers, buckets, orders, visited);
      visited := visited + Included(markedFields[t], markers);
      OneMoreType(markedFields, done, t, markers);
      done := done + {t};
    }
    assert types[..|types|] == types && done == markedFields.Keys;
  }

  lemma OneMoreType(markedFields: MarkedFields, done: set<TypeIdent>, t: TypeIdent, markers: ReadMarkers)
    requires t in markedFields && t !in done
    ensures AllIncluded(markedFields, done + {t}, markers) ==
            AllIncluded(markedFields, done, markers) + multiset(Included(markedFields[t], markers))
  {
    IncludeType(markedFields, done + {t}, t, markers);
    assert done + {t} - {t} == done;
  }

  method FillFrom(fields: seq<FieldInfo>, markers: ReadMarkers, buckets: map<int, seq<Ordered>>, orders: seq<int>,
                  ghost visited: seq<Ordered>)
    returns (buckets': map<int, seq<Ordered>>, orders': seq<int>)
    requires Bucketed(visited, buckets, orders)
    ensures Bucketed(visited + Included(fields, markers), buckets', orders')
  {
    buckets', orders' := buckets, orders;
    ghost var met: seq<Ordered> := [];
    assert visited + met == visited;
    for n := 0 to |fields|
      invariant met == Included(fields[..n], markers)
      invariant Bucketed(visited + met, buckets', orders')
    {
      assert fields[..n + 1][..n] == fields[..n];
      var d := SetDescriptorFields(fields[n], markers);
      if d.Some? {
        assert visited + met + [d.value] == visited + (met + [d.value]);
        BucketOne(visited + met, buckets', orders', d.value);
        buckets' := buckets'[d.value.order := Bucket(buckets', d.value.order) + [d.value]];
        orders' := orders' + [d.value.order];
        met := met + [d.value];
      }
    }
    assert fields[..|fields|] == fields;
  }

  lemma BucketOne(visited: seq<Ordered>, buckets: map<int, seq<Ordered>>, orders: seq<int>, d: Ordered)
    requires Bucketed(visited, buckets, orders)
    ensures Bucketed(visited + [d], buckets[d.order := Bucket(buckets, d.order) + [d]], orders + [d.order])
  {
    assert (visited + [d])[..|visited|] == visited;
    forall o
      ensures OfOrder(visited + [d], o) == OfOrder(visited, o) + if d.order == o then [d] else []
    {
    }
  }

  lemma {:induction false} OfOrderCounts(visited: seq<Ordered>, o: int, d: Ordered)
    ensures multiset(OfOrder(visited, o))[d] == if d.order == o then multiset(visited)[d] else 0
  {
    if visited != [] {
      var front, last := visited[..|visited| - 1], visited[|visited| - 1];
      OfOrderCounts(front, o, d);
      assert visited == front + [last];
    }
  }

  predicate PathLess(a: Ordered, b: Ordered) {
    Text.Less(a.descriptor.path, b.descriptor.path)
  }

  lemma PathOrderIsWeak(less: (Ordered, Ordered) -> bool)
    requires forall a, b :: less(a, b) <==> PathLess(a, b)
    ensures WeakOrder(less)
  {
    forall a: Ordered, b: Ordered | less(a, b)
      ensures !less(b, a)
    {
      Text.LessAsymmetric(a.descriptor.path, b.descriptor.path);
    }
    forall a: Ordered, b: Ordered, c: Ordered | !less(b, a) && !less(c, b)
      ensures !less(c, a)
    {
      Text.NotLessTransitive(a.descriptor.path, b.descriptor.path, c.descriptor.path);
    }
  }

  method SortBucket(bucket: seq<Ordered>, ghost o: int) returns (r: seq<Ordered>)
    requires forall i :: 0 <= i < |bucket| ==> bucket[i].order == o
    ensures multiset(r) == multiset(bucket)
    ensures Sorted(r, OrderedLess)
    ensures forall d :: d in r ==> d.order == o
  {
    var less := (a: Ordered, b: Ordered) => PathLess(a, b);
    PathOrderIsWeak(less);
    ghost var perm;
    r, perm := SortSlice(bucket, less);
    assert forall i, j :: 0 <= i < j < |r| ==> !PathLess(r[j], r[i]);
    PermuteKeepsMembers(bucket, perm);
    assert forall i :: 0 <= i < |r| ==> r[i] in r;
  }

  /** getTypedDescriptors: all included descriptors, sorted by order and then by path. */
  method GetTypedDescriptors(markedFields: MarkedFields, markers: ReadMarkers)
    returns (descriptors: seq<Descriptor>)
    ensures Lists(descriptors, AllIncluded(markedFields, markedFields.Keys, markers))
  {
    var buckets, orders;
    ghost var visited, perm, sorted;
    buckets, orders, visited := FillBuckets(markedFields, markers);
    ghost var unsorted := orders;
    orders, perm := SortSlice(orders, (a: int, b: int) => a < b);
    PermuteKeepsMembers(unsorted, perm);
    descriptors, sorted := CollectBuckets(buckets, orders, visited);
    InOrderIff(sorted);
  }

  method CollectBuckets(filled: map<int, seq<Ordered>>, orders: seq<int>, ghost visited: seq<Ordered>)
    returns (descriptors: seq<Descriptor>, ghost sorted: seq<Ordered>)
    requires Bucketed(visited, filled, orders)
    requires forall i, j :: 0 <= i < j < |orders| ==> orders[i] <= orders[j]
    ensures multiset(sorted) == multiset(visited)
    ensures Sorted(sorted, OrderedLess)
    ensures descriptors == Strip(sorted)
  {
    var buckets := filled;
    descriptors, sorted := [], [];
    for n := 0 to |orders|
      invariant descriptors == Strip(sorted)
      invariant Sorted(sorted, OrderedLess) && CountsUpTo(visited, sorted, orders[..n])
      invariant Remaining(buckets, visited, orders, n)
    {
      assert orders[..n + 1] == orders[..n] + [orders[n]];
      if orders[n] in buckets {
        var ds;
        ds, buckets, sorted := CollectBucket(buckets, orders, n, visited, sorted);
        descriptors := descriptors + ds;
      }
    }
    assert orders[..|orders|] == orders;
    AllCounted(visited, sorted, filled, orders);
  }

  /** The buckets of the first n orders have been deleted, the others are as filled. */
  ghost predicate Remaining(buckets: map<int, seq<Ordered>>, visited: seq<Ordered>, orders: seq<int>, n: nat)
    requires n <= |orders|
  {
    && (forall o :: o in buckets <==> o in orders && o !in orders[..n])
    && (forall o :: o in buckets ==> buckets[o] == OfOrder(visited, o))
  }

  method CollectBucket(buckets: map<int, seq<Ordered>>, orders: seq<int>, n: nat,
                       ghost visited: seq<Ordered>, ghost sorted: seq<Ordered>)
    returns (ds: seq<Descriptor>, buckets': map<int, seq<Ordered>>, ghost sorted': seq<Ordered>)
    requires n < |orders| && Remaining(buckets, visited, orders, n) && orders[n] in buckets
    requires forall i, j :: 0 <= i < j < |orders| ==> orders[i] <= orders[j]
    requires Sorted(sorted, OrderedLess) && CountsUpTo(visited, sorted, orders[..n])
    ensures Strip(sorted') == Strip(sorted) + ds
    ensures Sorted(sorted', OrderedLess) && CountsUpTo(visited, sorted', orders[..n + 1])
    ensures Remaining(buckets', visited, orders, n + 1)
  {
    var order := orders[n];
    OfOrderMembers(visited, order);
    var bucket := SortBucket(buckets[order], order);
    AppendSorted(visited, sorted, bucket, orders, n);
    ds := seq(|bucket|, i requires 0 <= i < |bucket| => bucket[i].descriptor);
    StripAppends(sorted, bucket, ds);
    sorted' := sorted + bucket;
    buckets' := buckets - {order};
    DeleteBucket(buckets, visited, orders, n);
  }

  lemma StripAppends(sorted: seq<Ordered>, bucket: seq<Ordered>, ds: seq<Descriptor>)
    requires |ds| == |bucket| && forall i :: 0 <= i < |ds| ==> ds[i] == bucket[i].descriptor
    ensures Strip(sorted + bucket) == Strip(sorted) + ds
  {
  }

  lemma DeleteBucket(buckets: map<int, seq<Ordered>>, visited: seq<Ordered>, orders: seq<int>, n: nat)
    requires n < |orders| && Remaining(buckets, visited, orders, n)
    ensures Remaining(buckets - {orders[n]}, visited, orders, n + 1)
  {
    assert orders[..n + 1] == orders[..n] + [orders[n]];
  }

  /** `sorted` has the visited descriptors of the given orders, as often as visited. */
  ghost predicate CountsUpTo(visited: seq<Ordered>, sorted: seq<Ordered>, orders: seq<int>) {
    forall d: Ordered :: multiset(sorted)[d] == if d.order in orders then multiset(visited)[d] else 0
  }

  lemma AllCounted(visited: seq<Ordered>, sorted: seq<Ordered>, filled: map<int, seq<Ordered>>, orders: seq<int>)
    requires Bucketed(visited, filled, orders) && CountsUpTo(visited, sorted, orders)
    ensures multiset(sorted) == multiset(visited)
  {
    forall d: Ordered
      ensures multiset(sorted)[d] == multiset(visited)[d]
    {
      assert Bucket(filled, d.order) == OfOrder(visited, d.order);
      OfOrderCounts(visited, d.order, d);
    }
  }

  lemma {:induction false} OfOrderMembers(visited: seq<Ordered>, o: int)
    ensures forall i :: 0 <= i < |OfOrder(visited, o)| ==> OfOrder(visited, o)[i].order == o
  {
    if visited != [] { OfOrderMembers(visited[..|visited| - 1], o); }
  }

  lemma AppendSorted(visited: seq<Ordered>, sorted: seq<Ordered>, bucket: seq<Ordered>, orders: seq<int>, n: nat)
    requires n < |orders| && orders[n] !in orders[..n]
    requires forall i, j :: 0 <= i < j < |orders| ==> orders[i] <= orders[j]
    requires CountsUpTo(visited, sorted, orders[..n])
    requires multiset(bucket) == multiset(OfOrder(visited, orders[n]))
    requires Sorted(sorted, OrderedLess) && Sorted(bucket, OrderedLess)
    ensures Sorted(sorted + bucket, OrderedLess)
    ensures CountsUpTo(visited, sorted + bucket, orders[..n + 1])
  {
    var o := orders[n];
    forall d: Ordered
      ensures multiset(bucket)[d] == if d.order == o then multiset(visited)[d] else 0
    {
      OfOrderCounts(visited, o, d);
    }
    forall i | 0 <= i < |sorted|
      ensures sorted[i].order < o
    {
      assert sorted[i] in multiset(sorted);
      assert sorted[i].order in orders[..n];
    }
    forall j | 0 <= j < |bucket|
      ensures bucket[j].order == o
    {
      assert bucket[j] in multiset(bucket);
    }
  }

  /** If no two included descriptors share order and path without being equal, the result
      does not depend on the iteration order of the map. */
  lemma DescriptorsDeterministic(all: multiset<Ordered>, a: seq<Descriptor>, b: seq<Descriptor>)
    requires Lists(a, all) && Lists(b, all)
    requires forall x, y :: x in all && y in all && x != y ==>
               x.order != y.order || x.descriptor.path != y.descriptor.path
    ensures a == b
  {
    var sortedA :| multiset(sortedA) == all && InOrder(sortedA) && a == Strip(sortedA);
    var sortedB :| multiset(sortedB) == all && InOrder(sortedB) && b == Strip(sortedB);
    InOrderIff(sortedA);
    InOrderIff(sortedB);
    forall x, y | x in sortedA && y in sortedA && x != y
      ensures OrderedLess(x, y) || OrderedLess(y, x)
    {
      assert x in all && y in all;
      if x.descriptor.path != y.descriptor.path { Text.LessTotal(x.descriptor.path, y.descriptor.path); }
    }
    SortedUnique(sortedA, sortedB, OrderedLess);
  }
}
