/** Repeated regeneration: where one run puts the hand-written descriptions, and
    when the owned list stops changing. */
module CrdConvergence {
  import opened CrdOrder
  import opened Slices

  // ----- One arrangement, as a merge -----

  predicate GenSorted(gens: seq<Item>) {
    && (forall i :: 0 <= i < |gens| ==> gens[i].Gen?)
    && (forall i, j :: 0 <= i < j < |gens| ==> gens[i].order <= gens[j].order)
  }

  predicate HandSorted(hands: seq<Item>) {
    && (forall i :: 0 <= i < |hands| ==> hands[i].Hand?)
    && (forall i, j :: 0 <= i < j < |hands| ==> hands[i].order <= hands[j].order)
  }

  /** Generated and hand-written entries, each in order, merged; generated first at equal order. */
  function Merge(gens: seq<Item>, hands: seq<Item>): seq<Item> {
    if gens == [] then hands
    else if hands == [] then gens
    else if gens[0].order <= hands[0].order then [gens[0]] + Merge(gens[1..], hands)
    else [hands[0]] + Merge(gens, hands[1..])
  }

  function Gens(items: seq<Item>): seq<Item> {
    if items == [] then [] else (if items[0].Gen? then [items[0]] else []) + Gens(items[1..])
  }

  function Hands(items: seq<Item>): seq<Item> {
    if items == [] then [] else (if items[0].Hand? then [items[0]] else []) + Hands(items[1..])
  }

  lemma SortedCons(cmp: VersionCompare, x: Item, s: seq<Item>)
    requires SortedItems(cmp, s)
    requires forall it :: it in s ==> it != x && !ItemLess(cmp, it, x)
    ensures SortedItems(cmp, [x] + s)
  {
    forall i | 0 <= i < |s|
      ensures s[i] != x && !ItemLess(cmp, s[i], x)
    {
      assert s[i] in s;
    }
  }

  lemma {:induction false} PartsMembers(items: seq<Item>)
    ensures forall it :: it in Gens(items) <==> it in items && it.Gen?
    ensures forall it :: it in Hands(items) <==> it in items && it.Hand?
  {
    if items != [] {
      PartsMembers(items[1..]);
      assert forall it :: it in items <==> it == items[0] || it in items[1..];
    }
  }

  lemma SortedTail(cmp: VersionCompare, items: seq<Item>)
    requires SortedItems(cmp, items) && items != []
    ensures SortedItems(cmp, items[1..])
    ensures forall it :: it in items[1..] ==> it != items[0] && !ItemLess(cmp, it, items[0])
  {
  }

  lemma {:induction false} PartsSorted(cmp: VersionCompare, items: seq<Item>)
    requires SortedItems(cmp, items)
    ensures SortedItems(cmp, Gens(items)) && SortedItems(cmp, Hands(items))
  {
    if items != [] {
      SortedTail(cmp, items);
      PartsSorted(cmp, items[1..]);
      PartsMembers(items[1..]);
      if items[0].Gen? {
        SortedCons(cmp, items[0], Gens(items[1..]));
      } else {
        SortedCons(cmp, items[0], Hands(items[1..]));
      }
    }
  }

  lemma PartsOrdered(cmp: VersionCompare, items: seq<Item>)
    requires SortedItems(cmp, items)
    ensures GenSorted(Gens(items)) && HandSorted(Hands(items))
  {
    PartsSorted(cmp, items);
    PartsMembers(items);
    assert forall i :: 0 <= i < |Gens(items)| ==> Gens(items)[i] in Gens(items);
    assert forall i :: 0 <= i < |Hands(items)| ==> Hands(items)[i] in Hands(items);
  }

  lemma MergeConsGen(x: Item, gens: seq<Item>, hands: seq<Item>)
    requires hands == [] || x.order <= hands[0].order
    ensures Merge([x] + gens, hands) == [x] + Merge(gens, hands)
  {
    assert ([x] + gens)[1..] == gens;
  }

  lemma MergeConsHand(x: Item, gens: seq<Item>, hands: seq<Item>)
    requires gens == [] || x.order < gens[0].order
    ensures Merge(gens, [x] + hands) == [x] + Merge(gens, hands)
  {
    assert ([x] + hands)[1..] == hands;
  }

  /** No entry precedes one of the other kind that should come first. */
  predicate Interleaved(items: seq<Item>) {
    items == [] ||
    (var g, h := Gens(items[1..]), Hands(items[1..]);
     && Interleaved(items[1..])
     && (items[0].Gen? && h != [] ==> items[0].order <= h[0].order)
     && (items[0].Hand? && g != [] ==> items[0].order < g[0].order))
  }

  lemma {:induction false} SortedIsInterleaved(cmp: VersionCompare, items: seq<Item>)
    requires SortedItems(cmp, items)
    ensures Interleaved(items)
  {
    if items != [] {
      SortedTail(cmp, items);
      SortedIsInterleaved(cmp, items[1..]);
      PartsMembers(items[1..]);
      var g, h := Gens(items[1..]), Hands(items[1..]);
      assert g != [] ==> g[0] in g;
      assert h != [] ==> h[0] in h;
    }
  }

  lemma {:induction false} InterleavedIsMerge(items: seq<Item>)
    requires Interleaved(items)
    ensures items == Merge(Gens(items), Hands(items))
  {
    if items != [] {
      var x, g, h := items[0], Gens(items[1..]), Hands(items[1..]);
      InterleavedIsMerge(items[1..]);
      assert items == [x] + items[1..];
      if x.Gen? {
        MergeConsGen(x, g, h);
        assert Hands(items) == h;
      } else {
        MergeConsHand(x, g, h);
        assert Gens(items) == g;
      }
    }
  }

  /** Two arrangements of the same entries agree, when the less function separates them. */
  lemma {:induction false} ArrangementUnique(cmp: VersionCompare, a: seq<Item>, b: seq<Item>)
    requires SortedItems(cmp, a) && SortedItems(cmp, b)
    requires forall it :: it in a <==> it in b
    requires forall x, y :: x in a && y in a && x != y ==> ItemLess(cmp, x, y) || ItemLess(cmp, y, x)
    ensures a == b
  {
    if a != [] {
      assert a[0] in a;
      var j :| 0 <= j < |b| && b[j] == a[0];
      assert b[0] in b;
      var i :| 0 <= i < |a| && a[i] == b[0];
      assert a[0] == b[0];
      SortedTail(cmp, a);
      SortedTail(cmp, b);
      assert a == [a[0]] + a[1..] && b == [b[0]] + b[1..];
      assert forall it :: it in a[1..] <==> it in a && it != a[0];
      assert forall it :: it in b[1..] <==> it in b && it != b[0];
      ArrangementUnique(cmp, a[1..], b[1..]);
    } else if b != [] {
      FirstIsMember(b);
    }
  }

  /** Generated descriptions of equal order are told apart by the less function. */
  ghost predicate Separated(defs: Definitions, cmp: VersionCompare) {
    forall j, k :: j in defs && k in defs && j != k && defs[j].crdOrder == defs[k].crdOrder
      ==> LessForCrd(cmp, defs[j].crd, defs[k].crd) || LessForCrd(cmp, defs[k].crd, defs[j].crd)
  }

  /** The hand-written entries of a list, under the indices they have in it. */
  function HandSeq(owned: seq<Crd>, base: nat, defs: Definitions): seq<Item> {
    if owned == [] then []
    else (if HandWritten(defs, owned[0]) then [Hand(base, owned[0])] else []) + HandSeq(owned[1..], base + 1, defs)
  }

  predicate AllHand(hands: seq<Item>, defs: Definitions) {
    forall i :: 0 <= i < |hands| ==> hands[i].Hand? && HandWritten(defs, hands[i].crd)
  }

  predicate IsHandAt(owned: seq<Crd>, base: nat, defs: Definitions, it: Item) {
    && it.Hand? && base <= it.order < base + |owned|
    && owned[it.order - base] == it.crd && HandWritten(defs, it.crd)
  }

  lemma {:induction false} HandSeqMembers(owned: seq<Crd>, base: nat, defs: Definitions)
    ensures forall it :: it in HandSeq(owned, base, defs) <==> IsHandAt(owned, base, defs, it)
  {
    if owned != [] {
      HandSeqMembers(owned[1..], base + 1, defs);
      forall it
        ensures it in HandSeq(owned, base, defs) <==> IsHandAt(owned, base, defs, it)
      {
        assert it.order > base ==>
               (IsHandAt(owned, base, defs, it) <==> IsHandAt(owned[1..], base + 1, defs, it));
      }
    }
  }

  lemma {:induction false} HandSeqSorted(owned: seq<Crd>, base: nat, defs: Definitions)
    ensures AllHand(HandSeq(owned, base, defs), defs)
    ensures forall i :: 0 <= i < |HandSeq(owned, base, defs)| ==> HandSeq(owned, base, defs)[i].order >= base
    ensures forall i, j :: 0 <= i < j < |HandSeq(owned, base, defs)| ==>
              HandSeq(owned, base, defs)[i].order < HandSeq(owned, base, defs)[j].order
  {
    if owned != [] {
      HandSeqSorted(owned[1..], base + 1, defs);
    }
  }

  lemma HandsOfStep(owned: seq<Crd>, defs: Definitions, cmp: VersionCompare, items: seq<Item>)
    requires Arranges(items, ItemsOf(owned, defs), cmp)
    ensures Hands(items) == HandSeq(owned, 0, defs)
  {
    var h := HandSeq(owned, 0, defs);
    PartsSorted(cmp, items);
    PartsMembers(items);
    HandSeqMembers(owned, 0, defs);
    HandSeqSorted(owned, 0, defs);
    assert forall it :: it in HandItems(owned, defs) <==> IsHandAt(owned, 0, defs, it);
    ArrangementUnique(cmp, Hands(items), h);
  }

  lemma GensOfStep(owned: seq<Crd>, defs: Definitions, cmp: VersionCompare, items: seq<Item>)
    requires Arranges(items, ItemsOf(owned, defs), cmp)
    ensures Arranges(Gens(items), GenItems(defs, defs.Keys), cmp)
    ensures GenSorted(Gens(items))
  {
    PartsSorted(cmp, items);
    PartsOrdered(cmp, items);
    PartsMembers(items);
  }

  /** One run merges some arrangement of the definitions with the hand-written entries. */
  lemma StepGens(owned: seq<Crd>, out: seq<Crd>, defs: Definitions, cmp: VersionCompare) returns (gens: seq<Item>)
    requires Step(owned, out, defs, cmp)
    ensures Arranges(gens, GenItems(defs, defs.Keys), cmp) && GenSorted(gens)
    ensures out == Crds(Merge(gens, HandSeq(owned, 0, defs)))
  {
    var items :| Arranges(items, ItemsOf(owned, defs), cmp) && out == Crds(items);
    gens := Gens(items);
    GensOfStep(owned, defs, cmp, items);
    HandsOfStep(owned, defs, cmp, items);
    SortedIsInterleaved(cmp, items);
    InterleavedIsMerge(items);
  }

  lemma StepIsMerge(owned: seq<Crd>, out: seq<Crd>, defs: Definitions, cmp: VersionCompare, gens: seq<Item>)
    requires Separated(defs, cmp) && Arranges(gens, GenItems(defs, defs.Keys), cmp)
    requires Step(owned, out, defs, cmp)
    ensures out == Crds(Merge(gens, HandSeq(owned, 0, defs)))
  {
    var gens' := StepGens(owned, out, defs, cmp);
    ArrangementUnique(cmp, gens, gens');
  }

  // ----- Where one run puts the hand-written entries -----

  /** Number of generated entries of order at most x. */
  function CountUpTo(gens: seq<Item>, x: int): (c: nat)
    ensures c <= |gens|
  {
    if gens == [] then 0 else (if gens[0].order <= x then 1 else 0) + CountUpTo(gens[1..], x)
  }

  lemma {:induction false} CountUpToMonotone(gens: seq<Item>, x: int, y: int)
    requires x <= y
    ensures CountUpTo(gens, x) <= CountUpTo(gens, y)
  {
    if gens != [] { CountUpToMonotone(gens[1..], x, y); }
  }

  lemma {:induction false} CountUpToNone(gens: seq<Item>, x: int)
    requires forall i :: 0 <= i < |gens| ==> gens[i].order > x
    ensures CountUpTo(gens, x) == 0
  {
    if gens != [] { CountUpToNone(gens[1..], x); }
  }

  /** None of the generated descriptions is taken for a hand-written one later. */
  predicate NoStrays(gens: seq<Item>, defs: Definitions) {
    forall i :: 0 <= i < |gens| ==> !HandWritten(defs, gens[i].crd)
  }

  /** The hand-written entries under their indices in the merge (counted from base). */
  function Places(gens: seq<Item>, hands: seq<Item>, base: nat): (r: seq<Item>)
    ensures |r| == |hands|
    decreases |gens| + |hands|
  {
    if hands == [] then []
    else if gens != [] && gens[0].order <= hands[0].order then Places(gens[1..], hands, base + 1)
    else [Hand(base, hands[0].crd)] + Places(gens, hands[1..], base + 1)
  }

  lemma HandSeqCons(x: Item, s: seq<Item>, base: nat, defs: Definitions)
    ensures HandSeq(Crds([x] + s), base, defs) ==
            (if HandWritten(defs, x.crd) then [Hand(base, x.crd)] else []) + HandSeq(Crds(s), base + 1, defs)
  {
    assert Crds([x] + s) == [x.crd] + Crds(s);
  }

  lemma {:induction false} MergePlaces(gens: seq<Item>, hands: seq<Item>, base: nat, defs: Definitions)
    requires NoStrays(gens, defs) && AllHand(hands, defs)
    ensures HandSeq(Crds(Merge(gens, hands)), base, defs) == Places(gens, hands, base)
    decreases |gens| + |hands|
  {
    if gens != [] && (hands == [] || gens[0].order <= hands[0].order) {
      MergePlaces(gens[1..], hands, base + 1, defs);
      assert gens == [gens[0]] + gens[1..];
      MergeConsGen(gens[0], gens[1..], hands);
      HandSeqCons(gens[0], Merge(gens[1..], hands), base, defs);
    } else if hands != [] {
      MergePlaces(gens, hands[1..], base + 1, defs);
      assert hands == [hands[0]] + hands[1..];
      MergeConsHand(hands[0], gens, hands[1..]);
      HandSeqCons(hands[0], Merge(gens, hands[1..]), base, defs);
    }
  }

  lemma {:induction false} PlacesAt(gens: seq<Item>, hands: seq<Item>, base: nat, k: nat)
    requires GenSorted(gens) && HandSorted(hands) && k < |hands|
    ensures Places(gens, hands, base)[k] == Hand(base + k + CountUpTo(gens, hands[k].order), hands[k].crd)
    decreases |gens| + |hands|
  {
    if gens != [] && gens[0].order <= hands[0].order {
      PlacesAt(gens[1..], hands, base + 1, k);
    } else if k > 0 {
      PlacesAt(gens, hands[1..], base + 1, k - 1);
    } else {
      CountUpToNone(gens, hands[0].order);
    }
  }

  lemma {:induction false} MergeLength(gens: seq<Item>, hands: seq<Item>)
    ensures |Merge(gens, hands)| == |gens| + |hands|
    decreases |gens| + |hands|
  {
    if gens != [] && hands != [] {
      MergeLength(gens[1..], hands);
      MergeLength(gens, hands[1..]);
    }
  }

  /** A merge depends on the orders of hand-written entries only through the counts below them. */
  lemma {:induction false} MergeByCounts(gens: seq<Item>, h1: seq<Item>, h2: seq<Item>)
    requires GenSorted(gens) && HandSorted(h1) && HandSorted(h2) && |h1| == |h2|
    requires forall k :: 0 <= k < |h1| ==> h1[k].crd == h2[k].crd
    requires forall k :: 0 <= k < |h1| ==> CountUpTo(gens, h1[k].order) == CountUpTo(gens, h2[k].order)
    ensures Crds(Merge(gens, h1)) == Crds(Merge(gens, h2))
    decreases |gens| + |h1|
  {
    if gens != [] && h1 != [] {
      FirstIsBelow(gens, h1[0].order);
      FirstIsBelow(gens, h2[0].order);
      if gens[0].order <= h1[0].order {
        MergeByCounts(gens[1..], h1, h2);
        assert Merge(gens, h1) == [gens[0]] + Merge(gens[1..], h1);
        assert Merge(gens, h2) == [gens[0]] + Merge(gens[1..], h2);
      } else {
        MergeByCounts(gens, h1[1..], h2[1..]);
        assert Merge(gens, h1) == [h1[0]] + Merge(gens, h1[1..]);
        assert Merge(gens, h2) == [h2[0]] + Merge(gens, h2[1..]);
      }
    }
  }

  lemma FirstIsBelow(gens: seq<Item>, x: int)
    requires GenSorted(gens) && gens != []
    ensures CountUpTo(gens, x) > 0 <==> gens[0].order <= x
  {
    if gens[0].order > x {
      CountUpToNone(gens, x);
    }
  }

  // ----- Repeated regeneration -----

  ghost predicate IsRun(run: seq<seq<Crd>>, defs: Definitions, cmp: VersionCompare) {
    forall i :: 0 <= i < |run| - 1 ==> Step(run[i], run[i + 1], defs, cmp)
  }

  /** xs records the index of the k-th hand-written entry after each run. */
  ghost predicate Tracks(xs: seq<int>, gens: seq<Item>, k: nat) {
    forall i :: 0 <= i < |xs| - 1 ==> xs[i + 1] == k + CountUpTo(gens, xs[i])
  }

  lemma {:induction false} Rises(xs: seq<int>, gens: seq<Item>, k: nat, i: nat)
    requires Tracks(xs, gens, k) && 1 <= i < |xs| - 1 && xs[1] <= xs[2]
    ensures xs[i] <= xs[i + 1] && (xs[i] == xs[i + 1] || xs[i] >= k + i - 1)
  {
    if i > 1 {
      Rises(xs, gens, k, i - 1);
      assert xs[i - 1 + 1] == k + CountUpTo(gens, xs[i - 1]);
      CountUpToMonotone(gens, xs[i - 1], xs[i]);
    } else {
      assert xs[0 + 1] == k + CountUpTo(gens, xs[0]);
    }
  }

  lemma {:induction false} Falls(xs: seq<int>, gens: seq<Item>, k: nat, i: nat)
    requires Tracks(xs, gens, k) && 1 <= i < |xs| - 1 && xs[2] <= xs[1]
    ensures xs[i + 1] <= xs[i] && (xs[i] == xs[i + 1] || xs[i] <= k + |gens| - (i - 1))
  {
    if i > 1 {
      Falls(xs, gens, k, i - 1);
      assert xs[i - 1 + 1] == k + CountUpTo(gens, xs[i - 1]);
      CountUpToMonotone(gens, xs[i], xs[i - 1]);
    } else {
      assert xs[0 + 1] == k + CountUpTo(gens, xs[0]);
    }
  }

  lemma Settles(xs: seq<int>, gens: seq<Item>, k: nat)
    requires Tracks(xs, gens, k) && |xs| == |gens| + 3
    ensures xs[|gens| + 1] == xs[|gens| + 2]
  {
    var n := |gens| + 1;
    assert xs[n + 1] == k + CountUpTo(gens, xs[n]);
    if xs[1] <= xs[2] { Rises(xs, gens, k, n); } else { Falls(xs, gens, k, n); }
  }

  function Strays(gens: seq<Item>, defs: Definitions): nat {
    if gens == [] then 0 else (if HandWritten(defs, gens[0].crd) then 1 else 0) + Strays(gens[1..], defs)
  }

  lemma {:induction false} StraysAccumulate(gens: seq<Item>, hands: seq<Item>, base: nat, defs: Definitions)
    requires AllHand(hands, defs)
    ensures |HandSeq(Crds(Merge(gens, hands)), base, defs)| == Strays(gens, defs) + |hands|
    decreases |gens| + |hands|
  {
    if gens != [] && (hands == [] || gens[0].order <= hands[0].order) {
      StraysAccumulate(gens[1..], hands, base + 1, defs);
      assert gens == [gens[0]] + gens[1..];
      MergeConsGen(gens[0], gens[1..], hands);
      HandSeqCons(gens[0], Merge(gens[1..], hands), base, defs);
    } else if hands != [] {
      StraysAccumulate(gens, hands[1..], base + 1, defs);
      assert hands == [hands[0]] + hands[1..];
      MergeConsHand(hands[0], gens, hands[1..]);
      HandSeqCons(hands[0], Merge(gens, hands[1..]), base, defs);
    }
  }

  /** Each generated description, read back, has the key of some definition. */
  ghost predicate Recognized(defs: Definitions) {
    forall k :: k in defs ==> DescToGvk(defs[k].crd) in defs
  }

  /** Every list is the merge of the generated entries with its predecessor's hand-written ones. */
  ghost predicate MergeRun(run: seq<seq<Crd>>, gens: seq<Item>, defs: Definitions) {
    GenSorted(gens) && forall i: nat :: i + 1 < |run| ==> MergesTo(run, i, gens, defs)
  }

  ghost predicate MergesTo(run: seq<seq<Crd>>, i: nat, gens: seq<Item>, defs: Definitions)
    requires i + 1 < |run|
  {
    run[i + 1] == Crds(Merge(gens, HandSeq(run[i], 0, defs)))
  }

  lemma RunIsMergeRun(run: seq<seq<Crd>>, defs: Definitions, cmp: VersionCompare) returns (gens: seq<Item>)
    requires IsRun(run, defs, cmp) && Separated(defs, cmp) && |run| >= 2
    ensures MergeRun(run, gens, defs)
    ensures |gens| == |defs|
    ensures Strays(gens, defs) == 0 <==> Recognized(defs)
    ensures NoDup(gens) && forall it :: it in gens <==> it in GenItems(defs, defs.Keys)
  {
    assert Step(run[0], run[0 + 1], defs, cmp);
    var items :| Arranges(items, ItemsOf(run[0], defs), cmp);
    GensOfStep(run[0], defs, cmp, items);
    gens := Gens(items);
    GensCount(gens, defs);
    StrayFree(gens, defs);
    forall i: nat | i + 1 < |run|
      ensures MergesTo(run, i, gens, defs)
    {
      assert Step(run[i], run[i + 1], defs, cmp);
      StepIsMerge(run[i], run[i + 1], defs, cmp, gens);
    }
  }

  lemma GensCount(gens: seq<Item>, defs: Definitions)
    requires NoDup(gens) && forall it :: it in gens <==> it in GenItems(defs, defs.Keys)
    ensures |gens| == |defs|
  {
    forall i | 0 <= i < |gens|
      ensures gens[i].Gen? && gens[i].key in defs && gens[i] == GenItem(defs, gens[i].key)
    {
      assert gens[i] in gens;
    }
    var keys := seq(|gens|, i requires 0 <= i < |gens| => gens[i].key);
    forall k | k in defs
      ensures k in keys
    {
      assert GenItem(defs, k) in gens;
      var i :| 0 <= i < |gens| && gens[i] == GenItem(defs, k);
      assert keys[i] == k;
    }
    NoDupCardinality(keys, defs.Keys);
  }

  lemma StrayFree(gens: seq<Item>, defs: Definitions)
    requires forall it :: it in gens <==> it in GenItems(defs, defs.Keys)
    ensures Strays(gens, defs) == 0 <==> Recognized(defs)
  {
    StraysZero(gens, defs);
    assert forall i :: 0 <= i < |gens| ==> gens[i] in gens;
    if NoStrays(gens, defs) {
      forall k | k in defs
        ensures DescToGvk(defs[k].crd) in defs
      {
        assert GenItem(defs, k) in gens;
      }
    }
  }

  lemma {:induction false} StraysZero(gens: seq<Item>, defs: Definitions)
    ensures Strays(gens, defs) == 0 <==> NoStrays(gens, defs)
  {
    if gens != [] {
      StraysZero(gens[1..], defs);
      assert forall i :: 1 <= i < |gens| ==> gens[i] == gens[1..][i - 1];
    }
  }

  lemma RunLengths(run: seq<seq<Crd>>, gens: seq<Item>, defs: Definitions, n: nat)
    requires MergeRun(run, gens, defs) && n + 1 < |run|
    ensures |run[n + 1]| == |gens| + |HandSeq(run[n], 0, defs)|
    ensures |HandSeq(run[n + 1], 0, defs)| == Strays(gens, defs) + |HandSeq(run[n], 0, defs)|
  {
    var h := HandSeq(run[n], 0, defs);
    assert MergesTo(run, n, gens, defs);
    HandSeqSorted(run[n], 0, defs);
    MergeLength(gens, h);
    StraysAccumulate(gens, h, 0, defs);
  }

  /** Hand-written entries keep their relative order; the k-th one moves to index
      k plus the number of generated entries whose order is at most its old index. */
  lemma HandWrittenMove(run: seq<seq<Crd>>, gens: seq<Item>, defs: Definitions, n: nat, k: nat)
    requires MergeRun(run, gens, defs) && Strays(gens, defs) == 0 && n + 1 < |run|
    requires k < |HandSeq(run[n], 0, defs)|
    ensures k < |HandSeq(run[n + 1], 0, defs)|
    ensures HandSeq(run[n + 1], 0, defs)[k] ==
            Hand(k + CountUpTo(gens, HandSeq(run[n], 0, defs)[k].order), HandSeq(run[n], 0, defs)[k].crd)
  {
    assert MergesTo(run, n, gens, defs);
    MergeMoves(run[n], run[n + 1], gens, defs, k);
  }

  /** The k-th entry goes to index k plus the number of generated entries up to its old index. */
  ghost predicate CountedMove(before: seq<Item>, after: seq<Item>, gens: seq<Item>, k: nat) {
    && k < |before| == |after|
    && after[k] == Hand(k + CountUpTo(gens, before[k].order), before[k].crd)
  }

  lemma MergeMoves(owned: seq<Crd>, out: seq<Crd>, gens: seq<Item>, defs: Definitions, k: nat)
    requires GenSorted(gens) && Strays(gens, defs) == 0
    requires out == Crds(Merge(gens, HandSeq(owned, 0, defs))) && k < |HandSeq(owned, 0, defs)|
    ensures CountedMove(HandSeq(owned, 0, defs), HandSeq(out, 0, defs), gens, k)
  {
    HandSeqSorted(owned, 0, defs);
    StraysZero(gens, defs);
    MergePlaces(gens, HandSeq(owned, 0, defs), 0, defs);
    PlacesMove(HandSeq(owned, 0, defs), gens, k);
  }

  lemma PlacesMove(hands: seq<Item>, gens: seq<Item>, k: nat)
    requires GenSorted(gens) && HandSorted(hands) && k < |hands|
    ensures CountedMove(hands, Places(gens, hands, 0), gens, k)
  {
    PlacesAt(gens, hands, 0, k);
  }

  lemma TrackNext(xs: seq<int>, gens: seq<Item>, k: nat, x: int) returns (ys: seq<int>)
    requires |xs| > 0 && Tracks(xs, gens, k) && x == k + CountUpTo(gens, xs[|xs| - 1])
    ensures ys == xs + [x] && Tracks(ys, gens, k)
  {
    ys := xs + [x];
  }

  /** The index of the k-th hand-written entry over the runs up to n. */
  lemma {:induction false} Track(run: seq<seq<Crd>>, gens: seq<Item>, defs: Definitions, k: nat, n: nat)
    returns (xs: seq<int>)
    requires MergeRun(run, gens, defs) && Strays(gens, defs) == 0 && n < |run|
    requires k < |HandSeq(run[n], 0, defs)|
    ensures |xs| == n + 1 && Tracks(xs, gens, k)
    ensures xs[n] == HandSeq(run[n], 0, defs)[k].order
    ensures n > 0 ==> |HandSeq(run[n - 1], 0, defs)| == |HandSeq(run[n], 0, defs)|
    ensures n > 0 ==> xs[n - 1] == HandSeq(run[n - 1], 0, defs)[k].order
  {
    if n == 0 {
      xs := [HandSeq(run[0], 0, defs)[k].order];
    } else {
      RunLengths(run, gens, defs, n - 1);
      xs := Track(run, gens, defs, k, n - 1);
      HandWrittenMove(run, gens, defs, n - 1, k);
      xs := TrackNext(xs, gens, k, HandSeq(run[n], 0, defs)[k].order);
    }
  }

  lemma SettledList(run: seq<seq<Crd>>, gens: seq<Item>, defs: Definitions)
    requires MergeRun(run, gens, defs) && Strays(gens, defs) == 0 && |run| >= |gens| + 3
    ensures run[|gens| + 2] == run[|gens| + 1]
  {
    var g := |gens|;
    var h0, h1 := HandSeq(run[g], 0, defs), HandSeq(run[g + 1], 0, defs);
    RunLengths(run, gens, defs, g);
    RunLengths(run, gens, defs, g + 1);
    HandSeqSorted(run[g], 0, defs);
    HandSeqSorted(run[g + 1], 0, defs);
    forall k | 0 <= k < |h0|
      ensures h0[k].crd == h1[k].crd
      ensures CountUpTo(gens, h0[k].order) == CountUpTo(gens, h1[k].order)
    {
      var xs := Track(run, gens, defs, k, g + 2);
      Settles(xs, gens, k);
      HandWrittenMove(run, gens, defs, g, k);
      HandWrittenMove(run, gens, defs, g + 1, k);
    }
    MergeByCounts(gens, h0, h1);
    assert MergesTo(run, g, gens, defs) && MergesTo(run, g + 1, gens, defs);
  }

  lemma {:induction false} StaysSettled(run: seq<seq<Crd>>, gens: seq<Item>, defs: Definitions, n: nat)
    requires MergeRun(run, gens, defs) && Strays(gens, defs) == 0
    requires |gens| + 1 <= n < |run|
    ensures run[n] == run[|gens| + 1]
  {
    if n == |gens| + 2 {
      SettledList(run, gens, defs);
    } else if n > |gens| + 2 {
      StaysSettled(run, gens, defs, n - 1);
      StaysSettled(run, gens, defs, n - 2);
      assert MergesTo(run, n - 1, gens, defs) && MergesTo(run, n - 2, gens, defs);
    }
  }

  lemma MergeRunConverges(run: seq<seq<Crd>>, gens: seq<Item>, defs: Definitions)
    requires MergeRun(run, gens, defs) && |run| >= |gens| + 3
    ensures Strays(gens, defs) == 0 <==> forall n :: |gens| + 1 <= n < |run| ==> run[n] == run[|gens| + 1]
    ensures Strays(gens, defs) != 0 ==> forall n {:trigger run[n]} :: 1 <= n < |run| - 1 ==> |run[n]| < |run[n + 1]|
  {
    if Strays(gens, defs) == 0 {
      forall n | |gens| + 1 <= n < |run|
        ensures run[n] == run[|gens| + 1]
      {
        StaysSettled(run, gens, defs, n);
      }
    } else {
      forall n {:trigger run[n]} | 1 <= n < |run| - 1
        ensures |run[n]| < |run[n + 1]|
      {
        RunLengths(run, gens, defs, n);
        RunLengths(run, gens, defs, n - 1);
      }
      assert |run[|gens| + 1]| < |run[|gens| + 1 + 1]|;
    }
  }

  /** With a fixed set of definitions the list stops changing after |defs| + 1
      regenerations exactly when every generated description is recognized as
      generated when it is read back; otherwise each further run makes it longer. */
  lemma RegenerationConverges(run: seq<seq<Crd>>, defs: Definitions, cmp: VersionCompare)
    requires IsRun(run, defs, cmp) && Separated(defs, cmp) && |run| >= |defs| + 3
    ensures Recognized(defs) <==> forall n :: |defs| + 1 <= n < |run| ==> run[n] == run[|defs| + 1]
    ensures !Recognized(defs) ==> forall n {:trigger run[n]} :: 1 <= n < |run| - 1 ==> |run[n]| < |run[n + 1]|
  {
    var gens := RunIsMergeRun(run, defs, cmp);
    MergeRunConverges(run, gens, defs);
  }

  // ----- The same in terms of the definitions map -----

  ghost function KeysUpTo(defs: Definitions, x: int): set<Gvk> {
    set k | k in defs && defs[k].crdOrder <= x
  }

  lemma {:induction false} CountIsCardinality(gens: seq<Item>, defs: Definitions, keys: set<Gvk>, x: int)
    requires keys <= defs.Keys && NoDup(gens)
    requires forall it :: it in gens <==> it in GenItems(defs, keys)
    ensures CountUpTo(gens, x) == |KeysUpTo(defs, x) * keys|
  {
    var below := KeysUpTo(defs, x) * keys;
    assert forall k :: k in keys ==> GenItem(defs, k) in gens;
    if gens != [] {
      FirstIsMember(gens);
      var k := gens[0].key;
      assert forall it :: it in gens[1..] <==> it in gens && it != gens[0];
      CountIsCardinality(gens[1..], defs, keys - {k}, x);
      assert KeysUpTo(defs, x) * (keys - {k}) == below - {k};
    } else {
      assert below == {};
    }
  }

  /** The k-th hand-written entry goes to index k plus the number of definitions whose order is at most its old
      index. */
  ghost predicate Moved(before: seq<Item>, after: seq<Item>, defs: Definitions, k: nat) {
    && k < |before| == |after|
    && after[k] == Hand(k + |KeysUpTo(defs, before[k].order)|, before[k].crd)
  }

  /** One regeneration moves every hand-written entry so, and so keeps their relative order,
      even where ties leave the order of generated descriptions open. */
  lemma OneRunPlacement(owned: seq<Crd>, out: seq<Crd>, defs: Definitions, cmp: VersionCompare, k: nat)
    requires Recognized(defs) && Step(owned, out, defs, cmp)
    requires k < |HandSeq(owned, 0, defs)|
    ensures Moved(HandSeq(owned, 0, defs), HandSeq(out, 0, defs), defs, k)
  {
    var gens := StepGens(owned, out, defs, cmp);
    StrayFree(gens, defs);
    MergeMoves(owned, out, gens, defs, k);
    Placed(gens, defs, HandSeq(owned, 0, defs), HandSeq(out, 0, defs), k);
  }

  lemma Placed(gens: seq<Item>, defs: Definitions, before: seq<Item>, after: seq<Item>, k: nat)
    requires NoDup(gens) && forall it :: it in gens <==> it in GenItems(defs, defs.Keys)
    requires CountedMove(before, after, gens, k)
    ensures Moved(before, after, defs, k)
  {
    CountBelow(gens, defs, before[k].order);
  }

  lemma CountBelow(gens: seq<Item>, defs: Definitions, x: int)
    requires NoDup(gens) && forall it :: it in gens <==> it in GenItems(defs, defs.Keys)
    ensures CountUpTo(gens, x) == |KeysUpTo(defs, x)|
  {
    CountIsCardinality(gens, defs, defs.Keys, x);
    assert KeysUpTo(defs, x) * defs.Keys == KeysUpTo(defs, x);
  }

  /** One regeneration keeps the number of hand-written entries or, if some generated description
      is not recognized, raises it. */
  lemma OneRunCount(owned: seq<Crd>, out: seq<Crd>, defs: Definitions, cmp: VersionCompare)
    requires Step(owned, out, defs, cmp)
    ensures var before, after := |HandSeq(owned, 0, defs)|, |HandSeq(out, 0, defs)|;
            if Recognized(defs) then after == before else after > before
  {
    var gens := StepGens(owned, out, defs, cmp);
    var h := HandSeq(owned, 0, defs);
    HandSeqSorted(owned, 0, defs);
    StrayFree(gens, defs);
    StraysAccumulate(gens, h, 0, defs);
  }

  /** The hand-written entries of every list of a run. */
  ghost function HandLists(run: seq<seq<Crd>>, defs: Definitions): (hs: seq<seq<Item>>)
    ensures |hs| == |run| && forall i :: 0 <= i < |run| ==> hs[i] == HandSeq(run[i], 0, defs)
  {
    seq(|run|, i requires 0 <= i < |run| => HandSeq(run[i], 0, defs))
  }

  ghost predicate MovesAt(hs: seq<seq<Item>>, i: nat, defs: Definitions)
    requires i + 1 < |hs|
  {
    MovesTo(hs[i], hs[i + 1], defs)
  }

  ghost predicate MovesTo(before: seq<Item>, after: seq<Item>, defs: Definitions) {
    |after| == |before| && forall k: nat :: k < |before| ==> Moved(before, after, defs, k)
  }

  ghost predicate AllMove(hs: seq<seq<Item>>, defs: Definitions) {
    forall i: nat :: i + 1 < |hs| ==> MovesAt(hs, i, defs)
  }

  lemma RunMoves(run: seq<seq<Crd>>, defs: Definitions, cmp: VersionCompare)
    requires IsRun(run, defs, cmp) && Recognized(defs)
    ensures AllMove(HandLists(run, defs), defs)
  {
    forall i: nat | i + 1 < |run|
      ensures MovesAt(HandLists(run, defs), i, defs)
    {
      assert Step(run[i], run[i + 1], defs, cmp);
      StepMoves(run[i], run[i + 1], defs, cmp);
    }
  }

  lemma StepMoves(owned: seq<Crd>, out: seq<Crd>, defs: Definitions, cmp: VersionCompare)
    requires Step(owned, out, defs, cmp) && Recognized(defs)
    ensures MovesTo(HandSeq(owned, 0, defs), HandSeq(out, 0, defs), defs)
  {
    OneRunCount(owned, out, defs, cmp);
    forall k: nat | k < |HandSeq(owned, 0, defs)|
      ensures Moved(HandSeq(owned, 0, defs), HandSeq(out, 0, defs), defs, k)
    {
      OneRunPlacement(owned, out, defs, cmp, k);
    }
  }

  lemma {:induction false} SameLength(hs: seq<seq<Item>>, defs: Definitions, i: nat)
    requires AllMove(hs, defs) && i < |hs|
    ensures |hs[i]| == |hs[0]|
  {
    if i > 0 {
      SameLength(hs, defs, i - 1);
      assert MovesAt(hs, i - 1, defs);
    }
  }

  lemma SettledIndex(hs: seq<seq<Item>>, gens: seq<Item>, defs: Definitions, k: nat)
    requires AllMove(hs, defs) && |hs| > |defs| + 2 && |gens| == |defs| && k < |hs[0]|
    requires NoDup(gens) && forall it :: it in gens <==> it in GenItems(defs, defs.Keys)
    ensures k < |hs[|defs| + 2]| && k < |hs[|defs| + 1]|
    ensures hs[|defs| + 2][k].order == hs[|defs| + 1][k].order
  {
    forall i: nat | i < |hs|
      ensures |hs[i]| == |hs[0]|
    {
      SameLength(hs, defs, i);
    }
    var xs := seq(|defs| + 3, i requires 0 <= i < |hs| => hs[i][k].order);
    forall i | 0 <= i < |xs| - 1
      ensures xs[i + 1] == k + CountUpTo(gens, xs[i])
    {
      assert MovesAt(hs, i, defs) && Moved(hs[i], hs[i + 1], defs, k);
      CountBelow(gens, defs, xs[i]);
    }
    Settles(xs, gens, k);
  }

  lemma {:induction false} PositionsStay(hs: seq<seq<Item>>, gens: seq<Item>, defs: Definitions, n: nat)
    requires AllMove(hs, defs) && |gens| == |defs| && |defs| + 2 <= n < |hs|
    requires NoDup(gens) && forall it :: it in gens <==> it in GenItems(defs, defs.Keys)
    ensures hs[n] == hs[n - 1]
  {
    assert MovesAt(hs, n - 1, defs) && MovesAt(hs, n - 2, defs);
    SameLength(hs, defs, n);
    if n > |defs| + 2 {
      PositionsStay(hs, gens, defs, n - 1);
    }
    forall k: nat | k < |hs[n]|
      ensures hs[n][k] == hs[n - 1][k]
    {
      assert Moved(hs[n - 1], hs[n], defs, k) && Moved(hs[n - 2], hs[n - 1], defs, k);
      if n == |defs| + 2 {
        SettledIndex(hs, gens, defs, k);
      }
    }
  }

  lemma {:induction false} PositionsSettled(hs: seq<seq<Item>>, gens: seq<Item>, defs: Definitions, n: nat)
    requires AllMove(hs, defs) && |gens| == |defs| && |defs| + 1 <= n < |hs|
    requires NoDup(gens) && forall it :: it in gens <==> it in GenItems(defs, defs.Keys)
    ensures hs[n] == hs[|defs| + 1]
  {
    if n > |defs| + 1 {
      PositionsStay(hs, gens, defs, n);
      PositionsSettled(hs, gens, defs, n - 1);
    }
  }

  /** Even where ties leave the generated order open, the hand-written entries and their indices stop changing
      after |defs| + 1 regenerations exactly when every generated description is recognized. */
  lemma PositionsConverge(run: seq<seq<Crd>>, defs: Definitions, cmp: VersionCompare)
    requires IsRun(run, defs, cmp) && |run| >= |defs| + 3
    ensures var hs := HandLists(run, defs);
            Recognized(defs) <==> forall n :: |defs| + 1 <= n < |hs| ==> hs[n] == hs[|defs| + 1]
  {
    var hs := HandLists(run, defs);
    if Recognized(defs) {
      RunMoves(run, defs, cmp);
      assert Step(run[0], run[0 + 1], defs, cmp);
      var gens := StepGens(run[0], run[1], defs, cmp);
      GensCount(gens, defs);
      forall n | |defs| + 1 <= n < |hs|
        ensures hs[n] == hs[|defs| + 1]
      {
        PositionsSettled(hs, gens, defs, n);
      }
    } else {
      var n := |defs| + 1;
      assert Step(run[n], run[n + 1], defs, cmp);
      OneRunCount(run[n], run[n + 1], defs, cmp);
      assert hs[n + 1] != hs[n];
    }
  }

  ghost predicate WellKeyed(defs: Definitions) {
    forall k :: k in defs ==> DescToGvk(defs[k].crd) == k
  }

  /** The less function separates descriptions that lead back to their own keys,
      if the version comparison separates the versions that occur. */
  lemma WellKeyedSeparated(defs: Definitions, cmp: VersionCompare)
    requires Comparator(cmp) && WellKeyed(defs)
    requires forall j, k :: j in defs && k in defs && j.version != k.version ==> cmp(j.version, k.version) != 0
    ensures Separated(defs, cmp) && Recognized(defs)
  {
    forall j, k | j in defs && k in defs && j != k
      ensures LessForCrd(cmp, defs[j].crd, defs[k].crd) || LessForCrd(cmp, defs[k].crd, defs[j].crd)
    {
      StringsOrdered(defs[j].crd.name, defs[k].crd.name, "");
      StringsOrdered(defs[j].crd.kind, defs[k].crd.kind, "");
    }
  }

  /** A generated description is named path.group; it leads back to its own key
      exactly when the resource path has no dot. */
  lemma OwnKeyRecovered(path: string, key: Gvk, body: int)
    ensures DescToGvk(Crd(path + "." + key.group, key.version, key.kind, body)) == key <==> '.' !in path
  {
    AfterFirstDotSplits(path, key.group);
  }

  /** The definitions of these resource paths: every description is named path.group. */
  ghost predicate NamedByPath(defs: Definitions, paths: map<Gvk, string>) {
    forall k :: k in defs ==>
      && k in paths && defs[k].crd.name == paths[k] + "." + k.group
      && defs[k].crd.version == k.version && defs[k].crd.kind == k.kind
  }

  /** With such names, the descriptions are recognized exactly when every path with a dot
      happens to lead to the key of another definition. */
  lemma RecognizedIff(defs: Definitions, paths: map<Gvk, string>)
    requires NamedByPath(defs, paths)
    ensures Recognized(defs) <==>
            forall k :: k in defs && '.' in paths[k] ==>
              Gvk(AfterFirstDot(paths[k]) + "." + k.group, k.version, k.kind) in defs
  {
    forall k | k in defs
      ensures DescToGvk(defs[k].crd) ==
              if '.' in paths[k] then Gvk(AfterFirstDot(paths[k]) + "." + k.group, k.version, k.kind) else k
    {
      AfterFirstDotSplits(paths[k], k.group);
    }
  }

  /** One definition whose path has a dot: the list grows with every run. */
  lemma DottedPathGrows(cmp: VersionCompare, run: seq<seq<Crd>>)
    requires IsRun(run, map[Gvk("g", "v1", "K") := DescriptionValues(0, Crd("a.b.g", "v1", "K", 0))], cmp) && |run| >= 4
    ensures forall n {:trigger run[n]} :: 1 <= n < |run| - 1 ==> |run[n]| < |run[n + 1]|
  {
    var k, d := Gvk("g", "v1", "K"), Crd("a.b.g", "v1", "K", 0);
    var defs: Definitions := map[k := DescriptionValues(0, d)];
    assert AfterFirstDot("a.b.g") == "b.g" && DescToGvk(d).group == "b.g";
    assert k in defs && DescToGvk(defs[k].crd) != k;
    RegenerationConverges(run, defs, cmp);
  }

  lemma {:induction false} AfterFirstDotSplits(path: string, group: string)
    ensures '.' in path + "." + group
    ensures '.' !in path ==> AfterFirstDot(path + "." + group) == group
    ensures '.' in path ==> AfterFirstDot(path + "." + group) == AfterFirstDot(path) + "." + group
  {
    var s := path + "." + group;
    assert s[|path|] == '.';
    if path == [] {
      assert s[1..] == group;
    } else {
      assert s[1..] == path[1..] + "." + group;
      AfterFirstDotSplits(path[1..], group);
    }
  }

  // ----- The bound is attained for every number of definitions -----

  function KindNo(i: nat): string {
    seq(i, _ => 'A')
  }

  function KeyNo(i: nat): Gvk {
    Gvk("b", "v1", KindNo(i))
  }

  function CrdNo(i: nat): Crd {
    Crd("a.b", "v1", KindNo(i), 0)
  }

  /** Definitions of order 2 to g + 1. */
  function ManyDefs(g: nat): Definitions {
    map k | k in set i: nat | 2 <= i < g + 2 :: KeyNo(i) :: DescriptionValues(|k.kind|, Crd("a.b", "v1", k.kind, 0))
  }

  const ByHand := Crd("c.b", "v1", "C", 0)

  /** The generated descriptions in order, with the hand-written one at index p. */
  function ListWith(g: nat, p: nat): seq<Crd> {
    seq(g + 1, j requires 0 <= j => if j < p then CrdNo(j + 2) else if j == p then ByHand else CrdNo(j + 1))
  }

  /** The list the runs begin with: the hand-written description at index g + 1. */
  function FirstList(g: nat): seq<Crd> {
    seq(g + 1, j requires 0 <= j => CrdNo(2)) + [ByHand]
  }

  lemma KeysRead(g: nat)
    ensures forall i: nat :: DescToGvk(CrdNo(i)) == KeyNo(i)
    ensures forall i: nat, j: nat :: KeyNo(i) == KeyNo(j) ==> i == j
    ensures forall i: nat :: KeyNo(i) in ManyDefs(g) <==> 2 <= i < g + 2
    ensures HandWritten(ManyDefs(g), ByHand)
  {
    assert AfterFirstDot("a.b") == "b" && AfterFirstDot("c.b") == "b";
    forall i: nat, j: nat | KeyNo(i) == KeyNo(j)
      ensures i == j
    {
      assert |KindNo(i)| == |KindNo(j)|;
    }
    forall i: nat
      ensures KeyNo(i) != DescToGvk(ByHand)
    {
      assert DescToGvk(ByHand).kind == "C";
      if i == 1 { assert KindNo(i)[0] == 'A'; } else { assert |KindNo(i)| != 1; }
    }
  }

  lemma DefsCount(g: nat)
    ensures |ManyDefs(g)| == g
  {
    KeysRead(g);
    var keys := seq(g, i requires 0 <= i => KeyNo(i + 2));
    forall k | k in ManyDefs(g)
      ensures k in keys
    {
      var i: nat :| 2 <= i < g + 2 && k == KeyNo(i);
      assert keys[i - 2] == k;
    }
    NoDupCardinality(keys, ManyDefs(g).Keys);
  }

  /** Where a hand-written description goes from index p. */
  function NextPlace(g: nat, p: nat): nat {
    if p < 2 then 0 else if p < g + 2 then p - 1 else g
  }

  function GenNo(i: nat): Item {
    Gen(KeyNo(i), i, CrdNo(i))
  }

  function ItemsWith(g: nat, p: nat, was: nat): (items: seq<Item>)
    ensures |items| == g + 1
  {
    seq(g + 1, j requires 0 <= j => if j < p then GenNo(j + 2) else if j == p then Hand(was, ByHand) else GenNo(j + 1))
  }

  /** The orders rise, except that the hand-written one may follow a generated one of the same order. */
  lemma OrdersRise(g: nat, p: nat, i: nat, j: nat)
    requires i < j < g + 1
    ensures var a, b := ItemsWith(g, NextPlace(g, p), p)[i], ItemsWith(g, NextPlace(g, p), p)[j];
            a.order < b.order || (a.order == b.order && a.Gen? && b.Hand?)
  {
  }

  lemma ItemsWithSorted(g: nat, p: nat, cmp: VersionCompare)
    ensures SortedItems(cmp, ItemsWith(g, NextPlace(g, p), p))
  {
    var items := ItemsWith(g, NextPlace(g, p), p);
    forall i, j | 0 <= i < j < |items|
      ensures items[i] != items[j] && !ItemLess(cmp, items[j], items[i])
    {
      OrdersRise(g, p, i, j);
    }
  }

  lemma GenNoMembers(g: nat, it: Item)
    ensures it in GenItems(ManyDefs(g), ManyDefs(g).Keys) <==> exists i: nat :: 2 <= i < g + 2 && it == GenNo(i)
  {
    KeysRead(g);
    var defs := ManyDefs(g);
    forall i: nat | 2 <= i < g + 2
      ensures KeyNo(i) in defs && GenItem(defs, KeyNo(i)) == GenNo(i)
    {
      assert |KindNo(i)| == i;
    }
    if it in GenItems(defs, defs.Keys) {
      var k :| k in defs.Keys && it == GenItem(defs, k);
      var i: nat :| 2 <= i < g + 2 && k == KeyNo(i);
      assert it == GenNo(i);
    }
  }

  lemma ItemsWithMembers(g: nat, p: nat, it: Item)
    ensures it in ItemsWith(g, NextPlace(g, p), p) <==>
            it == Hand(p, ByHand) || exists i: nat :: 2 <= i < g + 2 && it == GenNo(i)
  {
    var items, place := ItemsWith(g, NextPlace(g, p), p), NextPlace(g, p);
    assert items[place] == Hand(p, ByHand);
    if i: nat :| 2 <= i < g + 2 && it == GenNo(i) {
      assert items[if i - 2 < place then i - 2 else i - 1] == it;
    }
    if it in items {
      var j :| 0 <= j < |items| && items[j] == it;
      assert it == if j < place then GenNo(j + 2) else if j == place then Hand(p, ByHand) else GenNo(j + 1);
    }
  }

  /** One run on a list whose only hand-written description is at index p. */
  lemma StepDown(g: nat, owned: seq<Crd>, p: nat, cmp: VersionCompare)
    requires p < |owned| && owned[p] == ByHand
    requires forall i :: 0 <= i < |owned| ==> (HandWritten(ManyDefs(g), owned[i]) <==> i == p)
    ensures Step(owned, ListWith(g, NextPlace(g, p)), ManyDefs(g), cmp)
  {
    var items := ItemsWith(g, NextPlace(g, p), p);
    OneHandItem(owned, ManyDefs(g), p);
    ItemsWithSorted(g, p, cmp);
    forall it
      ensures it in items <==> it in ItemsOf(owned, ManyDefs(g))
    {
      ItemsWithMembers(g, p, it);
      GenNoMembers(g, it);
    }
    assert Arranges(items, ItemsOf(owned, ManyDefs(g)), cmp);
    assert Crds(items) == ListWith(g, NextPlace(g, p));
  }

  lemma OneHandItem(owned: seq<Crd>, defs: Definitions, p: nat)
    requires p < |owned| && forall i :: 0 <= i < |owned| ==> (HandWritten(defs, owned[i]) <==> i == p)
    ensures HandItems(owned, defs) == {Hand(p, owned[p])}
  {
    assert Hand(p, owned[p]) in HandItems(owned, defs);
  }

  lemma ListHands(g: nat, p: nat)
    requires p <= g
    ensures ListWith(g, p)[p] == ByHand
    ensures forall i :: 0 <= i < g + 1 ==> (HandWritten(ManyDefs(g), ListWith(g, p)[i]) <==> i == p)
  {
    KeysRead(g);
  }

  lemma FirstListHands(g: nat)
    requires g > 0
    ensures FirstList(g)[g + 1] == ByHand
    ensures forall i :: 0 <= i < g + 2 ==> (HandWritten(ManyDefs(g), FirstList(g)[i]) <==> i == g + 1)
  {
    KeysRead(g);
  }

  /** The list after run number i, for i > 0. */
  function ListNo(g: nat, i: nat): seq<Crd> {
    if i == 0 then FirstList(g) else ListWith(g, if i <= g then g + 1 - i else 0)
  }

  lemma ListStep(g: nat, i: nat, cmp: VersionCompare)
    requires g > 0
    ensures Step(ListNo(g, i), ListNo(g, i + 1), ManyDefs(g), cmp)
  {
    if i == 0 {
      FirstListHands(g);
      StepDown(g, FirstList(g), g + 1, cmp);
    } else {
      var p := if i <= g then g + 1 - i else 0;
      ListHands(g, p);
      StepDown(g, ListWith(g, p), p, cmp);
    }
  }

  /** The bound of RegenerationConverges is attained for every number of definitions: there are some,
      and a list, that run number |defs| + 1 still changes. */
  lemma BoundIsAttained(g: nat, cmp: VersionCompare) returns (run: seq<seq<Crd>>, defs: Definitions)
    requires g > 0
    ensures |defs| == g && Separated(defs, cmp) && WellKeyed(defs)
    ensures IsRun(run, defs, cmp) && |run| == g + 3 && run[g] != run[g + 1] && run[g + 1] == run[g + 2]
  {
    defs, run := ManyDefs(g), seq(g + 3, i requires 0 <= i => ListNo(g, i));
    KeysRead(g);
    DefsCount(g);
    forall i | 0 <= i < |run| - 1
      ensures Step(run[i], run[i + 1], defs, cmp)
    {
      ListStep(g, i, cmp);
    }
    assert run[g] == ListWith(g, 1) && run[g][0] == CrdNo(2);
    assert run[g + 1] == ListWith(g, 0) && run[g + 1][0] == ByHand;
    assert CrdNo(2).name != ByHand.name;
  }
}
