/** Packing a sequence of documents into consecutive parts, first come first served. */
module GreedyPacking {
  import opened Slices

  /** Whether part number k has room for these documents. */
  type Room = (nat, seq<string>) -> bool

  /** Every document but the first found room when it was added. */
  ghost predicate Filled(fits: Room, k: nat, docs: seq<string>) {
    forall j :: 2 <= j <= |docs| ==> fits(k, docs[..j])
  }

  /** Part k had no room for the document that begins part k + 1. */
  ghost predicate Full(fits: Room, parts: seq<seq<string>>, k: nat)
    requires k + 1 < |parts|
  {
    parts[k] != [] && parts[k + 1] != [] && !fits(k, parts[k] + [parts[k + 1][0]])
  }

  ghost predicate Packing(fits: Room, parts: seq<seq<string>>) {
    && |parts| > 0
    && (forall k: nat :: k < |parts| ==> Filled(fits, k, parts[k]))
    && (forall k: nat :: k + 1 < |parts| ==> Full(fits, parts, k))
  }

  function Last(parts: seq<seq<string>>): seq<string>
    requires parts != []
  {
    parts[|parts| - 1]
  }

  function ExtendLast(parts: seq<seq<string>>, doc: string): (r: seq<seq<string>>)
    requires parts != []
    ensures |r| == |parts| && Last(r) == Last(parts) + [doc]
  {
    parts[..|parts| - 1] + [Last(parts) + [doc]]
  }

  lemma BeginPart(fits: Room, parts: seq<seq<string>>, doc: string)
    requires Packing(fits, parts) && Last(parts) != []
    requires !fits(|parts| - 1, Last(parts) + [doc])
    ensures Packing(fits, parts + [[doc]])
    ensures Flatten(parts + [[doc]]) == Flatten(parts) + [doc]
  {
    FlattenSnoc(parts, [doc]);
    var longer := parts + [[doc]];
    forall k: nat | k + 1 < |longer|
      ensures Full(fits, longer, k)
    {
      assert k + 1 < |parts| ==> Full(fits, parts, k);
    }
  }

  lemma FilledSnoc(fits: Room, k: nat, docs: seq<string>, doc: string)
    requires Filled(fits, k, docs) && (docs != [] ==> fits(k, docs + [doc]))
    ensures Filled(fits, k, docs + [doc])
  {
    forall j | 2 <= j <= |docs| + 1
      ensures fits(k, (docs + [doc])[..j])
    {
      if j <= |docs| {
        assert (docs + [doc])[..j] == docs[..j];
      } else {
        assert (docs + [doc])[..j] == docs + [doc];
      }
    }
  }

  lemma FullStays(fits: Room, parts: seq<seq<string>>, longer: seq<seq<string>>, k: nat)
    requires k + 1 < |parts| == |longer| && Full(fits, parts, k)
    requires longer[k] == parts[k] && parts[k + 1] <= longer[k + 1]
    ensures Full(fits, longer, k)
  {
    assert parts[k + 1][0] == longer[k + 1][0];
  }

  lemma ExtendFilled(fits: Room, parts: seq<seq<string>>, doc: string, k: nat)
    requires Packing(fits, parts) && k < |parts|
    requires Last(parts) != [] ==> fits(|parts| - 1, Last(parts) + [doc])
    ensures Filled(fits, k, ExtendLast(parts, doc)[k])
  {
    assert Filled(fits, k, parts[k]);
    if k == |parts| - 1 {
      FilledSnoc(fits, k, Last(parts), doc);
    }
  }

  lemma ExtendFlatten(parts: seq<seq<string>>, doc: string)
    requires parts != []
    ensures Flatten(ExtendLast(parts, doc)) == Flatten(parts) + [doc]
  {
    FlattenSnoc(parts[..|parts| - 1], Last(parts) + [doc]);
  }

  lemma ExtendPart(fits: Room, parts: seq<seq<string>>, doc: string)
    requires Packing(fits, parts)
    requires Last(parts) != [] ==> fits(|parts| - 1, Last(parts) + [doc])
    ensures Packing(fits, ExtendLast(parts, doc))
    ensures Flatten(ExtendLast(parts, doc)) == Flatten(parts) + [doc]
  {
    var longer := ExtendLast(parts, doc);
    ExtendFlatten(parts, doc);
    forall k: nat | k < |longer|
      ensures Filled(fits, k, longer[k])
    {
      ExtendFilled(fits, parts, doc, k);
    }
    forall k: nat | k + 1 < |longer|
      ensures Full(fits, longer, k)
    {
      FullStays(fits, parts, longer, k);
    }
  }

  // ----- There is only one way -----

  /** All parts hold documents, unless there are no documents at all. */
  lemma NoEmptyPart(fits: Room, parts: seq<seq<string>>, k: nat)
    requires Packing(fits, parts) && |parts| > 1 && k < |parts|
    ensures parts[k] != []
  {
    if k > 0 { assert Full(fits, parts, k - 1); } else { assert Full(fits, parts, k); }
  }

  lemma {:induction false} FlattenPrefix(parts: seq<seq<string>>, k: nat)
    requires k < |parts|
    ensures Flatten(parts[..k]) + parts[k] <= Flatten(parts)
    ensures k + 1 < |parts| ==> Flatten(parts[..k]) + parts[k] + parts[k + 1] <= Flatten(parts)
    ensures k + 1 == |parts| ==> Flatten(parts[..k]) + parts[k] == Flatten(parts)
  {
    var front := parts[..|parts| - 1];
    if k + 1 < |parts| {
      FlattenPrefix(front, k);
      assert front[..k] == parts[..k];
      if k + 2 == |parts| {
        assert Flatten(parts) == Flatten(front) + parts[k + 1];
      }
    }
  }

  /** Of two packings of the same documents that agree so far, neither's next part is shorter. */
  lemma NotShorter(fits: Room, a: seq<seq<string>>, b: seq<seq<string>>, k: nat)
    requires Packing(fits, a) && Packing(fits, b) && Flatten(a) == Flatten(b)
    requires k < |a| && k < |b| && a[..k] == b[..k]
    ensures |a[k]| >= |b[k]|
  {
    FlattenPrefix(a, k);
    FlattenPrefix(b, k);
    assert k + 1 < |a| ==> Full(fits, a, k);
    if k + 1 == |a| {
      assert |Flatten(a[..k]) + b[k]| <= |Flatten(a[..k]) + a[k]|;
    } else if |a[k]| < |b[k]| {
      NextBelongs(Flatten(a), Flatten(a[..k]), a[k], a[k + 1], b[k]);
      HadNoRoom(fits, a, b, k);
    }
  }

  lemma HadNoRoom(fits: Room, a: seq<seq<string>>, b: seq<seq<string>>, k: nat)
    requires Packing(fits, a) && Packing(fits, b) && k + 1 < |a| && k < |b|
    requires |a[k]| < |b[k]| && a[k + 1] != []
    ensures b[k][..|a[k]| + 1] != a[k] + [a[k + 1][0]]
  {
    assert Full(fits, a, k) && Filled(fits, k, b[k]);
    assert |a[k]| >= 1 && fits(k, b[k][..|a[k]| + 1]);
  }

  lemma NextBelongs(all: seq<string>, before: seq<string>, part: seq<string>, next: seq<string>, longer: seq<string>)
    requires before + part + next <= all && before + longer <= all
    requires next != [] && |part| < |longer|
    ensures longer[..|part| + 1] == part + [next[0]]
  {
    forall i | 0 <= i < |part| + 1
      ensures longer[i] == (part + [next[0]])[i]
    {
      assert (before + longer)[|before| + i] == all[|before| + i] == (before + part + next)[|before| + i];
    }
  }

  lemma {:induction false} AgreeUpTo(fits: Room, a: seq<seq<string>>, b: seq<seq<string>>, k: nat)
    requires Packing(fits, a) && Packing(fits, b) && Flatten(a) == Flatten(b)
    requires k <= |a| && k <= |b|
    ensures a[..k] == b[..k]
  {
    if k > 0 {
      AgreeUpTo(fits, a, b, k - 1);
      NotShorter(fits, a, b, k - 1);
      NotShorter(fits, b, a, k - 1);
      FlattenPrefix(a, k - 1);
      FlattenPrefix(b, k - 1);
      SamePart(Flatten(a), Flatten(a[..k - 1]), a[k - 1], b[k - 1]);
      assert a[..k] == a[..k - 1] + [a[k - 1]] && b[..k] == b[..k - 1] + [b[k - 1]];
    }
  }

  lemma SamePart(all: seq<string>, before: seq<string>, a: seq<string>, b: seq<string>)
    requires before + a <= all && before + b <= all && |a| == |b|
    ensures a == b
  {
    forall i | 0 <= i < |a|
      ensures a[i] == b[i]
    {
      assert (before + a)[|before| + i] == all[|before| + i] == (before + b)[|before| + i];
    }
  }

  lemma NoMoreParts(fits: Room, a: seq<seq<string>>, b: seq<seq<string>>)
    requires Packing(fits, a) && Packing(fits, b) && Flatten(a) == Flatten(b)
    ensures |b| <= |a|
  {
    if |b| > |a| {
      AgreeUpTo(fits, a, b, |a|);
      assert a[..|a|] == a;
      FlattenPrefix(b, |a|);
      NoEmptyPart(fits, b, |a|);
    }
  }

  /** A packing is determined by the documents and by what fits. */
  lemma PackingUnique(fits: Room, a: seq<seq<string>>, b: seq<seq<string>>)
    requires Packing(fits, a) && Packing(fits, b) && Flatten(a) == Flatten(b)
    ensures a == b
  {
    NoMoreParts(fits, a, b);
    NoMoreParts(fits, b, a);
    AgreeUpTo(fits, a, b, |a|);
    assert a[..|a|] == a && b[..|b|] == b;
  }
}
