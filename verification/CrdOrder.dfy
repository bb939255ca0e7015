/** Ordering of the owned CRD descriptions of a ClusterServiceVersion
    (internal/generate/clusterserviceversion/bases/definitions/definitions.go). */
module CrdOrder {
  import opened Slices
  import Text

  datatype Gvk = Gvk(group: string, version: string, kind: string)

  /** A CRDDescription; `body` stands for everything the ordering does not look at. */
  datatype Crd = Crd(name: string, version: string, kind: string, body: int)

  datatype DescriptionValues = DescriptionValues(crdOrder: int, crd: Crd)

  type Definitions = map<Gvk, DescriptionValues>

  /** CompareKubeAwareVersionStrings: positive when the first version is the newer one. */
  type VersionCompare = (string, string) -> int

  ghost predicate Comparator(cmp: VersionCompare) {
    && (forall a, b :: cmp(a, b) > 0 <==> cmp(b, a) < 0)
    && (forall a, b, c :: cmp(a, b) >= 0 && cmp(b, c) >= 0 ==> cmp(a, c) >= 0)
  }

  function MakeFullGroupFromName(name: string): string {
    if '.' in name then AfterFirstDot(name) else name
  }

  function AfterFirstDot(s: string): string
    requires '.' in s
  {
    if s[0] == '.' then s[1..] else AfterFirstDot(s[1..])
  }

  function DescToGvk(desc: Crd): Gvk {
    Gvk(MakeFullGroupFromName(desc.name), desc.version, desc.kind)
  }

  predicate LessForCrd(cmp: VersionCompare, a: Crd, b: Crd) {
    if a.name == b.name then
      if a.kind == b.kind then cmp(a.version, b.version) > 0
      else Text.Less(a.kind, b.kind)
    else Text.Less(a.name, b.name)
  }

  // ----- What one regeneration should produce -----

  /** An entry of the new list: a generated description under its map key, or a
      hand-written one, whose order is the index it had in the old list. */
  datatype Item = Gen(key: Gvk, order: int, crd: Crd) | Hand(order: int, crd: Crd)

  function GenItem(defs: Definitions, k: Gvk): Item
    requires k in defs
  {
    Gen(k, defs[k].crdOrder, defs[k].crd)
  }

  predicate HandWritten(defs: Definitions, crd: Crd) {
    DescToGvk(crd) !in defs
  }

  ghost function GenItems(defs: Definitions, keys: set<Gvk>): set<Item>
    requires keys <= defs.Keys
  {
    set k | k in keys :: GenItem(defs, k)
  }

  ghost function HandItems(owned: seq<Crd>, defs: Definitions): set<Item> {
    set i | 0 <= i < |owned| && HandWritten(defs, owned[i]) :: Hand(i, owned[i])
  }

  ghost function ItemsOf(owned: seq<Crd>, defs: Definitions): set<Item> {
    GenItems(defs, defs.Keys) + HandItems(owned, defs)
  }

  /** By order; at equal order generated ones first, by the less function. */
  ghost predicate ItemLess(cmp: VersionCompare, a: Item, b: Item) {
    || a.order < b.order
    || (a.order == b.order && a.Gen? && (b.Hand? || LessForCrd(cmp, a.crd, b.crd)))
  }

  ghost predicate SortedItems(cmp: VersionCompare, items: seq<Item>) {
    && NoDup(items)
    && forall i, j :: 0 <= i < j < |items| ==> !ItemLess(cmp, items[j], items[i])
  }

  ghost predicate Arranges(items: seq<Item>, all: set<Item>, cmp: VersionCompare) {
    SortedItems(cmp, items) && forall it :: it in items <==> it in all
  }

  ghost function Crds(items: seq<Item>): (r: seq<Crd>)
    ensures |r| == |items|
    ensures forall i :: 0 <= i < |items| ==> r[i] == items[i].crd
  {
    seq(|items|, i requires 0 <= i < |items| => items[i].crd)
  }

  /** One regeneration: the outcome is some sorted arrangement of all entries. */
  ghost predicate Step(owned: seq<Crd>, out: seq<Crd>, defs: Definitions, cmp: VersionCompare) {
    exists items :: Arranges(items, ItemsOf(owned, defs), cmp) && out == Crds(items)
  }

  // ----- One regeneration, entry by entry -----

  /** The name ends in a dot and the group, or has no dot and is the group; the first dot counts. */
  ghost predicate NamesGroup(name: string, group: string) {
    if '.' in name then exists path: string :: '.' !in path && name == path + "." + group else name == group
  }

  /** Some definition has the group, version and kind of the description. */
  ghost predicate Defined(defs: Definitions, crd: Crd) {
    exists k :: k in defs && NamesGroup(crd.name, k.group) && crd.version == k.version && crd.kind == k.kind
  }

  /** A generated entry is a definition's own; a hand-written one, not defined, stood in the old list at its order. */
  ghost predicate IsEntry(owned: seq<Crd>, defs: Definitions, it: Item) {
    match it
    case Gen(k, order, crd) => k in defs && defs[k] == DescriptionValues(order, crd)
    case Hand(n, crd) => 0 <= n < |owned| && owned[n] == crd && !Defined(defs, crd)
  }

  /** What equal orders leave to the descriptions: smaller name, then smaller kind, then newer version first. */
  ghost predicate MayPrecede(cmp: VersionCompare, a: Crd, b: Crd) {
    if a.name != b.name then Text.Smaller(a.name, b.name)
    else if a.kind != b.kind then Text.Smaller(a.kind, b.kind)
    else cmp(a.version, b.version) >= 0
  }

  /** Smaller orders first; at equal order generated entries in their own order, and then the hand-written one. */
  ghost predicate InOrder(cmp: VersionCompare, a: Item, b: Item) {
    a.order < b.order || (a.order == b.order && a.Gen? && (b.Gen? ==> MayPrecede(cmp, a.crd, b.crd)))
  }

  /** The new list shows every entry once and in order. */
  ghost predicate IsRegenerated(owned: seq<Crd>, out: seq<Crd>, defs: Definitions, cmp: VersionCompare) {
    exists items: seq<Item> :: Regenerated(owned, out, defs, cmp, items)
  }

  ghost predicate Regenerated(owned: seq<Crd>, out: seq<Crd>, defs: Definitions, cmp: VersionCompare,
                              items: seq<Item>) {
    && |items| == |out| && (forall i :: 0 <= i < |out| ==> out[i] == items[i].crd)
    && (forall it :: it in items <==> IsEntry(owned, defs, it))
    && (forall i, j :: 0 <= i < j < |items| ==> items[i] != items[j] && InOrder(cmp, items[i], items[j]))
  }

  lemma {:induction false} GroupIff(name: string, group: string)
    ensures MakeFullGroupFromName(name) == group <==> NamesGroup(name, group)
    decreases |name|, 1
  {
    if '.' in name && name[0] == '.' {
      assert name == "" + "." + name[1..];
      assert forall path: string :: name == path + "." + group && path != "" ==> path[0] == '.';
    } else if '.' in name {
      AfterDot(name, group);
    }
  }

  lemma AfterDot(name: string, group: string)
    requires '.' in name && name[0] != '.'
    ensures AfterFirstDot(name) == group <==> NamesGroup(name, group)
    decreases |name|, 0
  {
    GroupIff(name[1..], group);
    if path: string :| '.' !in path && name[1..] == path + "." + group {
      assert name == ([name[0]] + path) + "." + group;
    }
    if path: string :| '.' !in path && name == path + "." + group {
      assert path[0] == name[0] && name[1..] == path[1..] + "." + group;
    }
  }

  lemma DefinedIff(defs: Definitions, crd: Crd)
    ensures Defined(defs, crd) <==> !HandWritten(defs, crd)
  {
    GroupIff(crd.name, MakeFullGroupFromName(crd.name));
    if k :| k in defs && NamesGroup(crd.name, k.group) && crd.version == k.version && crd.kind == k.kind {
      GroupIff(crd.name, k.group);
    }
  }

  lemma EntryIff(owned: seq<Crd>, defs: Definitions, it: Item)
    ensures IsEntry(owned, defs, it) <==> it in ItemsOf(owned, defs)
  {
    DefinedIff(defs, it.crd);
  }

  lemma MayPrecedeIff(cmp: VersionCompare, a: Crd, b: Crd)
    requires Comparator(cmp)
    ensures MayPrecede(cmp, a, b) <==> !LessForCrd(cmp, b, a)
  {
    StringsOrdered(a.name, b.name, a.name);
    StringsOrdered(b.name, a.name, b.name);
    StringsOrdered(a.kind, b.kind, a.kind);
    StringsOrdered(b.kind, a.kind, b.kind);
    Text.LessIff(a.name, b.name);
    Text.LessIff(a.kind, b.kind);
  }

  /** Step is regeneration as read off the entries. */
  lemma StepIff(owned: seq<Crd>, out: seq<Crd>, defs: Definitions, cmp: VersionCompare)
    requires Comparator(cmp)
    ensures Step(owned, out, defs, cmp) <==> IsRegenerated(owned, out, defs, cmp)
  {
    forall it
      ensures IsEntry(owned, defs, it) <==> it in ItemsOf(owned, defs)
    {
      EntryIff(owned, defs, it);
    }
    if items :| Arranges(items, ItemsOf(owned, defs), cmp) && out == Crds(items) {
      InOrderIff(owned, defs, cmp, items);
      assert Regenerated(owned, out, defs, cmp, items);
    }
    if items :| Regenerated(owned, out, defs, cmp, items) {
      InOrderIff(owned, defs, cmp, items);
      assert Arranges(items, ItemsOf(owned, defs), cmp) && out == Crds(items);
    }
  }

  lemma InOrderIff(owned: seq<Crd>, defs: Definitions, cmp: VersionCompare, items: seq<Item>)
    requires Comparator(cmp) && forall it :: it in items ==> IsEntry(owned, defs, it)
    ensures SortedItems(cmp, items) <==>
            forall i, j :: 0 <= i < j < |items| ==> items[i] != items[j] && InOrder(cmp, items[i], items[j])
  {
    forall i, j | 0 <= i < j < |items| && items[i] != items[j]
      ensures InOrder(cmp, items[i], items[j]) <==> !ItemLess(cmp, items[j], items[i])
    {
      assert items[i] in items && items[j] in items;
      MayPrecedeIff(cmp, items[i].crd, items[j].crd);
    }
  }

  // ----- The less function -----

  lemma LessForCrdIsWeakOrder(cmp: VersionCompare)
    requires Comparator(cmp)
    ensures WeakOrder((a: Crd, b: Crd) => LessForCrd(cmp, a, b))
  {
    forall a: Crd, b: Crd | LessForCrd(cmp, a, b)
      ensures !LessForCrd(cmp, b, a)
    {
      StringsOrdered(a.name, b.name, a.name);
      StringsOrdered(a.kind, b.kind, a.kind);
    }
    forall a: Crd, b: Crd, c: Crd | !LessForCrd(cmp, b, a) && !LessForCrd(cmp, c, b)
      ensures !LessForCrd(cmp, c, a)
    {
      StringsOrdered(a.name, b.name, c.name);
      StringsOrdered(a.kind, b.kind, c.kind);
      assert cmp(a.version, b.version) >= 0 && cmp(b.version, c.version) >= 0 ==> cmp(a.version, c.version) >= 0;
    }
  }

  lemma StringsOrdered(a: string, b: string, c: string)
    ensures Text.Less(a, b) ==> !Text.Less(b, a) && a != b
    ensures a != b ==> Text.Less(a, b) || Text.Less(b, a)
    ensures !Text.Less(b, a) && !Text.Less(c, b) ==> !Text.Less(c, a) && (a == c ==> a == b)
  {
    if Text.Less(a, b) { Text.LessAsymmetric(a, b); }
    if a != b { Text.LessTotal(a, b); }
    if !Text.Less(b, a) && !Text.Less(c, b) {
      if a != b && b != c {
        Text.LessTotal(b, c);
        Text.LessTransitive(a, b, c);
        Text.LessAsymmetric(a, c);
      }
    }
  }

  // ----- Buckets -----

  /** Bucket o lists, without repeats, exactly the members of `all` of order o. */
  ghost predicate Holds(buckets: map<int, seq<Item>>, all: set<Item>) {
    && (forall o :: o in buckets ==> HoldsOrder(buckets[o], all, o))
    && (forall it :: it in all ==> it.order in buckets)
  }

  ghost predicate HoldsOrder(bucket: seq<Item>, all: set<Item>, o: int) {
    NoDup(bucket) && forall it :: it in bucket <==> it in all && it.order == o
  }

  ghost predicate Shows(crdBuckets: map<int, seq<Crd>>, buckets: map<int, seq<Item>>) {
    crdBuckets.Keys == buckets.Keys && forall o :: o in buckets ==> crdBuckets[o] == Crds(buckets[o])
  }

  ghost function Bucket(buckets: map<int, seq<Item>>, o: int): seq<Item> {
    if o in buckets then buckets[o] else []
  }

  /** crdBuckets[order] = append(crdBuckets[order], crd) */
  method AppendTo(crdBuckets: map<int, seq<Crd>>, order: int, crd: Crd,
                  ghost buckets: map<int, seq<Item>>, ghost all: set<Item>, ghost it: Item)
    returns (r: map<int, seq<Crd>>, ghost rb: map<int, seq<Item>>)
    requires Shows(crdBuckets, buckets) && Holds(buckets, all)
    requires it !in all && it.order == order && it.crd == crd
    ensures Shows(r, rb) && Holds(rb, all + {it})
    ensures rb == buckets[order := Bucket(buckets, order) + [it]]
  {
    r := crdBuckets[order := (if order in crdBuckets then crdBuckets[order] else []) + [crd]];
    rb := buckets[order := Bucket(buckets, order) + [it]];
    NoDupAppend(Bucket(buckets, order), it);
  }

  method BucketGenerated(defs: Definitions)
    returns (crdBuckets: map<int, seq<Crd>>, ghost buckets: map<int, seq<Item>>)
    ensures Shows(crdBuckets, buckets) && Holds(buckets, GenItems(defs, defs.Keys))
  {
    crdBuckets, buckets := map[], map[];
    var ks := RangeKeys(defs.Keys);
    ghost var all: set<Item> := {};
    for n := 0 to |ks|
      invariant Shows(crdBuckets, buckets)
      invariant all == set k | k in ks[..n] :: GenItem(defs, k)
      invariant Holds(buckets, all)
    {
      var k := ks[n];
      crdBuckets, buckets := AppendTo(crdBuckets, defs[k].crdOrder, defs[k].crd, buckets, all, GenItem(defs, k));
      all := all + {GenItem(defs, k)};
    }
    assert all == GenItems(defs, defs.Keys);
  }

  /** for _, bucket := range crdBuckets { sort.Slice(bucket, lessForCRDDescription(bucket)) } */
  method SortBuckets(crdBuckets: map<int, seq<Crd>>, cmp: VersionCompare,
                     ghost buckets: map<int, seq<Item>>, ghost all: set<Item>)
    returns (r: map<int, seq<Crd>>, ghost rb: map<int, seq<Item>>)
    requires Comparator(cmp)
    requires Shows(crdBuckets, buckets) && Holds(buckets, all)
    requires forall it :: it in all ==> it.Gen?
    ensures Shows(r, rb) && Holds(rb, all)
    ensures forall o :: o in rb ==> SortedItems(cmp, rb[o])
  {
    r, rb := crdBuckets, buckets;
    var orders := RangeKeys(crdBuckets.Keys);
    for n := 0 to |orders|
      invariant rb.Keys == buckets.Keys
      invariant Shows(r, rb) && Holds(rb, all)
      invariant forall o :: o in orders[..n] ==> SortedItems(cmp, rb[o])
    {
      var o := orders[n];
      var bucket, sorted := SortBucket(r[o], cmp, rb[o], o);
      r, rb := r[o := bucket], rb[o := sorted];
    }
  }

  method SortBucket(bucket: seq<Crd>, cmp: VersionCompare, ghost items: seq<Item>, ghost o: int)
    returns (r: seq<Crd>, ghost sorted: seq<Item>)
    requires Comparator(cmp)
    requires bucket == Crds(items) && NoDup(items)
    requires forall it :: it in items ==> it.Gen? && it.order == o
    ensures r == Crds(sorted) && SortedItems(cmp, sorted)
    ensures forall it :: it in sorted <==> it in items
  {
    LessForCrdIsWeakOrder(cmp);
    ghost var perm;
    r, perm := SortSlice(bucket, (a: Crd, b: Crd) => LessForCrd(cmp, a, b));
    sorted := Permute(items, perm);
    PermuteKeepsMembers(items, perm);
    assert forall i :: 0 <= i < |sorted| ==> sorted[i] in items;
    assert forall i, j :: 0 <= i < j < |r| ==> !LessForCrd(cmp, r[j], r[i]);
  }

  class Csv {
    var owned: seq<Crd>

    method UpdateDefinitionsByKey(defs: Definitions, cmp: VersionCompare)
      requires Comparator(cmp)
      modifies this
      ensures Step(old(owned), owned, defs, cmp) && IsRegenerated(old(owned), owned, defs, cmp)
    {
      var crdBuckets, buckets := BucketGenerated(defs);
      crdBuckets, buckets := SortBuckets(crdBuckets, cmp, buckets, GenItems(defs, defs.Keys));
      crdBuckets, buckets := AddHandWritten(defs, cmp, crdBuckets, buckets);
      var crdOrders := SortedKeys(crdBuckets.Keys);

      ghost var all, items := ItemsOf(owned, defs), [];
      items := Rebuild(cmp, crdBuckets, crdOrders, buckets, all);
      StepIff(old(owned), owned, defs, cmp);
    }

    /** Puts the buckets one after the other into the emptied list. */
    method Rebuild(cmp: VersionCompare, crdBuckets: map<int, seq<Crd>>, crdOrders: seq<int>,
                   ghost buckets: map<int, seq<Item>>, ghost all: set<Item>)
      returns (ghost items: seq<Item>)
      requires Shows(crdBuckets, buckets) && Holds(buckets, all)
      requires forall o :: o in buckets ==> SortedItems(cmp, buckets[o])
      requires forall o :: o in crdOrders <==> o in crdBuckets
      requires forall i, j :: 0 <= i < j < |crdOrders| ==> crdOrders[i] < crdOrders[j]
      modifies this
      ensures owned == Crds(items) && Arranges(items, all, cmp)
    {
      owned, items := [], [];
      for n := 0 to |crdOrders|
        invariant owned == Crds(items)
        invariant SortedItems(cmp, items)
        invariant forall it :: it in items <==> it in all && it.order in crdOrders[..n]
      {
        var o := crdOrders[n];
        AppendBucket(cmp, items, buckets[o], o);
        owned, items := owned + crdBuckets[o], items + buckets[o];
      }
    }

    /** Appends hand-written descriptions to their buckets, treating their indices as order. */
    method AddHandWritten(defs: Definitions, cmp: VersionCompare,
                          crdBuckets: map<int, seq<Crd>>, ghost buckets: map<int, seq<Item>>)
      returns (r: map<int, seq<Crd>>, ghost rb: map<int, seq<Item>>)
      requires Shows(crdBuckets, buckets) && Holds(buckets, GenItems(defs, defs.Keys))
      requires forall o :: o in buckets ==> SortedItems(cmp, buckets[o])
      ensures Shows(r, rb) && Holds(rb, ItemsOf(owned, defs))
      ensures forall o :: o in rb ==> SortedItems(cmp, rb[o])
    {
      r, rb := crdBuckets, buckets;
      ghost var all := GenItems(defs, defs.Keys);
      for i := 0 to |owned|
        invariant Shows(r, rb) && Holds(rb, all)
        invariant all == GenItems(defs, defs.Keys) + HandItems(owned[..i], defs)
        invariant forall o :: o in rb ==> SortedItems(cmp, rb[o])
      {
        HandItemsStep(owned, defs, i);
        if DescToGvk(owned[i]) !in defs {
          AppendBucket(cmp, Bucket(rb, i), [Hand(i, owned[i])], i);
          r, rb := AppendTo(r, i, owned[i], rb, all, Hand(i, owned[i]));
          all := all + {Hand(i, owned[i])};
        }
      }
      assert owned[..|owned|] == owned;
    }
  }

  lemma HandItemsStep(owned: seq<Crd>, defs: Definitions, i: nat)
    requires i < |owned|
    ensures HandItems(owned[..i + 1], defs) ==
            HandItems(owned[..i], defs) + if HandWritten(defs, owned[i]) then {Hand(i, owned[i])} else {}
    ensures forall it :: it in HandItems(owned[..i], defs) ==> it.order < i
  {
  }

  lemma AppendBucket(cmp: VersionCompare, items: seq<Item>, bucket: seq<Item>, o: int)
    requires SortedItems(cmp, items) && SortedItems(cmp, bucket)
    requires forall it :: it in bucket ==> it.order == o
    requires forall it :: it in items ==>
               it.order < o || (it.Gen? && it.order == o && forall b :: b in bucket ==> b.Hand?)
    ensures SortedItems(cmp, items + bucket)
  {
    var s := items + bucket;
    forall i, j | 0 <= i < j < |s|
      ensures s[i] != s[j] && !ItemLess(cmp, s[j], s[i])
    {
      if i < |items| {
        assert s[i] in items;
        assert j >= |items| ==> s[j] in bucket;
      }
    }
  }
}
