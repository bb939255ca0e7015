/** Merging override values into the values of a resource (mergeMaps in internal/helm/release/manager_factory.go). */
module MergeMaps {
  import opened Slices

  /** A value of a Helm values file: a nested map, or anything else. */
  datatype Value = Scalar(text: string) | Map(entries: map<string, Value>)

  type Values = map<string, Value>

  // ----- The merge -----

  /** Maps met under one key are merged; otherwise b's value counts. */
  function Merge(a: Values, b: Values): (r: Values)
    ensures r.Keys == a.Keys + b.Keys
    decreases Map(b)
  {
    map k | k in a.Keys + b.Keys ::
      if k !in b then a[k]
      else if k in a && a[k].Map? && b[k].Map? then Map(Merge(a[k].entries, b[k].entries))
      else b[k]
  }

  // ----- Go maps in memory -----

  /** A Go map; whoever holds it shares it. */
  class GoMap {
    var entries: map<string, Slot>

    constructor ()
      ensures entries == map[]
    {
      entries := map[];
    }
  }

  datatype Slot = Text(text: string) | Nested(m: GoMap)

  /** m and the maps below it, nested less than d deep, are among `all`. */
  ghost predicate Tree(m: GoMap, all: set<GoMap>, d: nat)
    reads all
    decreases d, 0
  {
    d > 0 && m in all && forall k :: k in m.entries ==> SlotTree(m.entries[k], all, d - 1)
  }

  ghost predicate SlotTree(slot: Slot, all: set<GoMap>, d: nat)
    reads all
    decreases d, 1
  {
    slot.Nested? ==> Tree(slot.m, all, d)
  }

  /** The values a map stands for. */
  ghost function Content(m: GoMap, all: set<GoMap>, d: nat): Values
    requires Tree(m, all, d)
    reads all
    decreases d, 0
  {
    map k | k in m.entries :: SlotValue(m.entries[k], all, d - 1)
  }

  ghost function SlotValue(slot: Slot, all: set<GoMap>, d: nat): Value
    requires SlotTree(slot, all, d)
    reads all
    decreases d, 1
  {
    match slot
    case Text(text) => Scalar(text)
    case Nested(m) => Map(Content(m, all, d))
  }

  lemma {:induction false} MoreMaps(m: GoMap, all: set<GoMap>, more: set<GoMap>, d: nat)
    requires Tree(m, all, d) && all <= more
    ensures Tree(m, more, d) && Content(m, more, d) == Content(m, all, d)
    decreases d, 0
  {
    forall k | k in m.entries
      ensures SlotTree(m.entries[k], more, d - 1)
      ensures SlotValue(m.entries[k], more, d - 1) == SlotValue(m.entries[k], all, d - 1)
    {
      if m.entries[k].Nested? {
        MoreMaps(m.entries[k].m, all, more, d - 1);
      }
    }
  }

  ghost predicate SlotIs(slot: Slot, v: Value, all: set<GoMap>, d: nat)
    reads all
  {
    SlotTree(slot, all, d) && SlotValue(slot, all, d) == v
  }

  lemma SlotStays(slot: Slot, v: Value, all: set<GoMap>, more: set<GoMap>, d: nat)
    requires SlotIs(slot, v, all, d) && all <= more
    ensures SlotIs(slot, v, more, d)
  {
    if slot.Nested? {
      MoreMaps(slot.m, all, more, d);
    }
  }

  /** What is under a key of the result: a new map where both had one, else the very slot of b or,
      if b has none, of a. */
  predicate Shares(slot: Slot, k: string, a: map<string, Slot>, b: map<string, Slot>, made: set<GoMap>)
    requires k in a || k in b
  {
    if k !in b then slot == a[k]
    else if k in a && a[k].Nested? && b[k].Nested? then slot.Nested? && slot.m in made
    else slot == b[k]
  }

  /** The entries when those of b under `done` have been merged into those of a: a has the values va, and
      `merged` are those aimed at. */
  ghost predicate Partly(entries: map<string, Slot>, a: map<string, Slot>, b: map<string, Slot>, va: Values,
                         merged: Values, done: set<string>, all: set<GoMap>, made: set<GoMap>, d: nat)
    reads all, made
  {
    && va.Keys == a.Keys && merged.Keys == a.Keys + b.Keys && done <= b.Keys && entries.Keys == a.Keys + done
    && (forall k :: k in entries ==> SlotIs(entries[k], if k in done then merged[k] else va[k], all + made, d))
    && PartlyShares(entries, a, b, done, made)
  }

  predicate PartlyShares(entries: map<string, Slot>, a: map<string, Slot>, b: map<string, Slot>, done: set<string>,
                         made: set<GoMap>)
    requires done <= b.Keys && entries.Keys == a.Keys + done
  {
    forall k :: k in entries ==> if k in done then Shares(entries[k], k, a, b, made) else entries[k] == a[k]
  }

  /** The result stands for the merge; it shares what it can and is new where it cannot. */
  ghost predicate IsMerge(out: GoMap, a: GoMap, b: GoMap, all: set<GoMap>, made: set<GoMap>, d: nat)
    reads all, made
  {
    && Tree(a, all, d) && Tree(b, all, d) && Tree(out, all + made, d)
    && Content(out, all + made, d) == Merge(Content(a, all, d), Content(b, all, d))
    && out.entries.Keys == a.entries.Keys + b.entries.Keys
    && forall k :: k in out.entries ==> Shares(out.entries[k], k, a.entries, b.entries, made)
  }

  /** The two loops. Nothing that exists is modified; the result and the maps in `made` are new. */
  method MergeMaps(a: GoMap, b: GoMap, ghost all: set<GoMap>, ghost d: nat) returns (out: GoMap, ghost made: set<GoMap>)
    requires Tree(a, all, d) && Tree(b, all, d)
    ensures fresh(made) && out in made && IsMerge(out, a, b, all, made, d)
    decreases d, 3
  {
    ghost var va, merged := Content(a, all, d), Merge(Content(a, all, d), Content(b, all, d));
    assert Sources(a, b, va, merged, all, d);
    out := new GoMap();
    CopyEntries(a, out);
    ghost var below := MergeEntries(out, a, b, va, merged, all, d);
    made := below + {out};
    MergeDone(out, a, b, va, merged, all, below, d);
  }

  /** Both are trees, a has the values va, and `merged` are those of the merge. */
  ghost predicate Sources(a: GoMap, b: GoMap, va: Values, merged: Values, all: set<GoMap>, d: nat)
    reads all
  {
    && Tree(a, all, d) && Tree(b, all, d)
    && va == Content(a, all, d) && merged == Merge(va, Content(b, all, d))
  }

  /** The first i of the keys are done. */
  ghost predicate DoneUpTo(done: set<string>, ks: seq<string>, i: nat)
    requires i <= |ks|
  {
    forall k :: k in done <==> k in ks[..i]
  }

  lemma OneMoreDone(done: set<string>, ks: seq<string>, i: nat)
    requires i < |ks| && NoDup(ks) && DoneUpTo(done, ks, i)
    ensures ks[i] in ks && ks[i] !in done && DoneUpTo(done + {ks[i]}, ks, i + 1)
  {
    assert ks[..i + 1] == ks[..i] + [ks[i]];
  }

  lemma AllDone(done: set<string>, ks: seq<string>, keys: set<string>)
    requires DoneUpTo(done, ks, |ks|) && forall k :: k in ks <==> k in keys
    ensures done == keys
  {
    assert ks[..|ks|] == ks;
  }

  /** The second loop. */
  method MergeEntries(out: GoMap, a: GoMap, b: GoMap, ghost va: Values, ghost merged: Values, ghost all: set<GoMap>,
                      ghost d: nat)
    returns (ghost below: set<GoMap>)
    requires Sources(a, b, va, merged, all, d)
    requires out !in all && out.entries == a.entries
    modifies out
    ensures fresh(below) && out !in below
    ensures Partly(out.entries, a.entries, b.entries, va, merged, b.entries.Keys, all, below, d - 1)
    decreases d, 2
  {
    var ks := RangeKeys(b.entries.Keys);
    ghost var done: set<string> := {};
    below := {};
    NothingMergedYet(a, b, va, merged, all, d);
    for i := 0 to |ks|
      invariant fresh(below) && out !in below && DoneUpTo(done, ks, i)
      invariant Partly(out.entries, a.entries, b.entries, va, merged, done, all, below, d - 1)
    {
      OneMoreDone(done, ks, i);
      below := MergeKey(out, a, b, ks[i], va, merged, done, all, below, d);
      done := done + {ks[i]};
    }
    AllDone(done, ks, b.entries.Keys);
  }

  /** The body of the second loop. */
  method MergeKey(out: GoMap, a: GoMap, b: GoMap, k: string, ghost va: Values, ghost merged: Values,
                  ghost done: set<string>, ghost all: set<GoMap>, ghost below: set<GoMap>, ghost d: nat)
    returns (ghost below': set<GoMap>)
    requires Sources(a, b, va, merged, all, d)
    requires out !in all && out !in below && k in b.entries.Keys && k !in done
    requires Partly(out.entries, a.entries, b.entries, va, merged, done, all, below, d - 1)
    modifies out
    ensures below <= below' && fresh(below' - below) && out !in below'
    ensures Partly(out.entries, a.entries, b.entries, va, merged, done + {k}, all, below', d - 1)
    decreases d, 1
  {
    ghost var ea, eb := a.entries, b.entries;
    var v;
    ghost var more;
    v, more := MergeSlot(out, a, b, k, va, merged, all, d);
    below' := below + more;
    SlotStays(v, merged[k], all + more, all + below', d - 1);
    PartlyMore(out.entries, ea, eb, va, merged, done, all, below, below', d - 1, k, v);
    out.entries := out.entries[k := v];
    assert a.entries == ea && b.entries == eb;
  }

  /** What goes under key k, whose entry is still that of a, if it has one. */
  method MergeSlot(out: GoMap, a: GoMap, b: GoMap, k: string, ghost va: Values, ghost merged: Values,
                   ghost all: set<GoMap>, ghost d: nat)
    returns (slot: Slot, ghost made: set<GoMap>)
    requires Sources(a, b, va, merged, all, d) && k in b.entries.Keys
    requires k in out.entries <==> k in a.entries
    requires k in out.entries ==> out.entries[k] == a.entries[k]
    ensures fresh(made) && Shares(slot, k, a.entries, b.entries, made)
    ensures k in merged && d > 0 && SlotIs(slot, merged[k], all + made, d - 1)
    decreases d, 0
  {
    slot, made := b.entries[k], {};
    BelowBoth(a, b, all, d, k);
    if slot.Nested? && k in out.entries && out.entries[k].Nested? {
      var nested;
      nested, made := MergeMaps(out.entries[k].m, slot.m, all, d - 1);
      slot := Nested(nested);
    }
  }

  method CopyEntries(a: GoMap, out: GoMap)
    requires a != out && out.entries == map[]
    modifies out
    ensures out.entries == a.entries
  {
    var ks := RangeKeys(a.entries.Keys);
    for i := 0 to |ks|
      invariant a.entries == old(a.entries)
      invariant forall k :: k in out.entries <==> k in ks[..i]
      invariant forall k :: k in out.entries ==> k in a.entries && out.entries[k] == a.entries[k]
    {
      assert ks[..i + 1] == ks[..i] + [ks[i]];
      assert ks[i] in a.entries.Keys;
      out.entries := out.entries[ks[i] := a.entries[ks[i]]];
    }
    assert ks[..|ks|] == ks;
  }

  lemma NothingMergedYet(a: GoMap, b: GoMap, va: Values, merged: Values, all: set<GoMap>, d: nat)
    requires Sources(a, b, va, merged, all, d)
    ensures Partly(a.entries, a.entries, b.entries, va, merged, {}, all, {}, d - 1)
  {
    assert all + {} == all;
  }

  /** What a key of b stands for in the merge. */
  lemma BelowBoth(a: GoMap, b: GoMap, all: set<GoMap>, d: nat, k: string)
    requires Tree(a, all, d) && Tree(b, all, d) && k in b.entries
    ensures SlotTree(b.entries[k], all, d - 1)
    ensures var va, vb := Content(a, all, d), Content(b, all, d);
            if k in a.entries && a.entries[k].Nested? && b.entries[k].Nested? then
              && SlotTree(a.entries[k], all, d - 1)
              && Merge(va, vb)[k] ==
                 Map(Merge(Content(a.entries[k].m, all, d - 1), Content(b.entries[k].m, all, d - 1)))
            else SlotIs(b.entries[k], Merge(va, vb)[k], all + {}, d - 1)
  {
    assert all + {} == all;
    if k in a.entries {
      assert SlotTree(a.entries[k], all, d - 1);
    }
  }

  lemma PartlyMore(entries: map<string, Slot>, a: map<string, Slot>, b: map<string, Slot>, va: Values, merged: Values,
                   done: set<string>, all: set<GoMap>, made: set<GoMap>, made': set<GoMap>, d: nat, k: string, v: Slot)
    requires Partly(entries, a, b, va, merged, done, all, made, d) && made <= made' && k in b && k !in done
    requires SlotIs(v, merged[k], all + made', d) && Shares(v, k, a, b, made')
    ensures Partly(entries[k := v], a, b, va, merged, done + {k}, all, made', d)
  {
    assert entries[k := v].Keys == a.Keys + (done + {k});
    forall j | j in entries && j != k
      ensures SlotIs(entries[j], if j in done then merged[j] else va[j], all + made', d)
    {
      SlotStays(entries[j], if j in done then merged[j] else va[j], all + made, all + made', d);
    }
    MoreShares(entries, a, b, done, made, made', k, v);
  }

  lemma MoreShares(entries: map<string, Slot>, a: map<string, Slot>, b: map<string, Slot>, done: set<string>,
                   made: set<GoMap>, made': set<GoMap>, k: string, v: Slot)
    requires done <= b.Keys && entries.Keys == a.Keys + done && PartlyShares(entries, a, b, done, made)
    requires made <= made' && k in b && k !in done && Shares(v, k, a, b, made')
    ensures entries[k := v].Keys == a.Keys + (done + {k})
    ensures PartlyShares(entries[k := v], a, b, done + {k}, made')
  {
  }

  lemma MergeDone(out: GoMap, a: GoMap, b: GoMap, va: Values, merged: Values, all: set<GoMap>, below: set<GoMap>,
                  d: nat)
    requires Sources(a, b, va, merged, all, d)
    requires Partly(out.entries, a.entries, b.entries, va, merged, b.entries.Keys, all, below, d - 1)
    ensures IsMerge(out, a, b, all, below + {out}, d)
  {
    forall k | k in out.entries
      ensures SlotIs(out.entries[k], merged[k], all + (below + {out}), d - 1)
    {
      SlotStays(out.entries[k], merged[k], all + below, all + (below + {out}), d - 1);
    }
  }

  // ----- Looking up paths -----

  function Lookup(v: Values, path: seq<string>): Option<Value>
    requires path != []
    decreases path
  {
    if path[0] !in v then None
    else if |path| == 1 then Some(v[path[0]])
    else if v[path[0]].Map? then Lookup(v[path[0]].entries, path[1..])
    else None
  }

  /** v has something other than a map further up the path. */
  predicate Shadows(v: Values, path: seq<string>)
    requires path != []
    decreases path
  {
    && |path| > 1 && path[0] in v
    && (v[path[0]].Scalar? || Shadows(v[path[0]].entries, path[1..]))
  }

  /** The merge at any path: b's value there, merged if both are maps, and a's if b has none and does not shadow it. */
  lemma {:induction false} MergeAt(a: Values, b: Values, path: seq<string>)
    requires path != []
    ensures Lookup(Merge(a, b), path) ==
            match Lookup(b, path)
            case Some(Scalar(_)) => Lookup(b, path)
            case Some(Map(mine)) =>
              (match Lookup(a, path) case Some(Map(theirs)) => Some(Map(Merge(theirs, mine))) case _ => Lookup(b, path))
            case None => if Shadows(b, path) then None else Lookup(a, path)
    decreases path
  {
    var k := path[0];
    if |path| > 1 && k in a && k in b && a[k].Map? && b[k].Map? {
      MergeAt(a[k].entries, b[k].entries, path[1..]);
    }
  }

  // ----- Laws -----

  /** b has every key of a, at every level where both have maps. */
  ghost predicate Covers(b: Values, a: Values)
    decreases Map(a)
  {
    forall k :: k in a ==> k in b && (a[k].Map? && b[k].Map? ==> Covers(b[k].entries, a[k].entries))
  }

  /** Merging changes nothing exactly when b covers a. */
  lemma {:induction false} AbsorbsIff(a: Values, b: Values)
    ensures Merge(a, b) == b <==> Covers(b, a)
    decreases Map(a)
  {
    forall k | k in a && k in b && a[k].Map? && b[k].Map?
      ensures Merge(a, b)[k] == b[k] <==> Covers(b[k].entries, a[k].entries)
    {
      AbsorbsIff(a[k].entries, b[k].entries);
    }
    if Merge(a, b) == b {
      assert forall k :: k in a ==> k in Merge(a, b);
    }
    if Covers(b, a) {
      assert Merge(a, b).Keys == b.Keys;
    }
  }

  /** Merging the same overrides again changes nothing. */
  lemma {:induction false} MergeTwice(a: Values, b: Values)
    ensures Merge(Merge(a, b), b) == Merge(a, b)
    decreases Map(b)
  {
    forall k | k in b
      ensures Merge(Merge(a, b), b)[k] == Merge(a, b)[k]
    {
      if k in a && a[k].Map? && b[k].Map? {
        MergeTwice(a[k].entries, b[k].entries);
      } else if b[k].Map? {
        MergeSelf(b[k].entries);
      }
    }
  }

  lemma {:induction false} MergeSelf(b: Values)
    ensures Merge(b, b) == b
    decreases Map(b)
  {
    forall k | k in b && b[k].Map?
      ensures Merge(b, b)[k] == b[k]
    {
      MergeSelf(b[k].entries);
    }
  }

  /** Nowhere does b put another value between a map of a and a map of c that does not cover it. */
  ghost predicate NothingBetween(a: Values, b: Values, c: Values)
    decreases Map(c)
  {
    forall k :: k in c && k in a && k in b && c[k].Map? && a[k].Map? ==>
      if b[k].Map? then NothingBetween(a[k].entries, b[k].entries, c[k].entries) else Covers(c[k].entries, a[k].entries)
  }

  /** Exactly then the order in which overrides are merged does not matter. */
  lemma AssociativeIff(a: Values, b: Values, c: Values)
    ensures Merge(Merge(a, b), c) == Merge(a, Merge(b, c)) <==> NothingBetween(a, b, c)
    decreases Map(c)
  {
    var left, right := Merge(Merge(a, b), c), Merge(a, Merge(b, c));
    assert left.Keys == right.Keys;
    forall k | k in left
      ensures left[k] == right[k] <==> AgreeAt(a, b, c, k)
    {
      AssociativeAt(a, b, c, k);
    }
    if NothingBetween(a, b, c) {
      assert forall k :: k in left ==> left[k] == right[k];
    } else {
      var k :| k in c && k in a && k in b && c[k].Map? && a[k].Map? && !AgreeAt(a, b, c, k);
      assert k in left && left[k] != right[k];
    }
  }

  ghost predicate AgreeAt(a: Values, b: Values, c: Values, k: string) {
    k in c && k in a && k in b && c[k].Map? && a[k].Map? ==>
      if b[k].Map? then NothingBetween(a[k].entries, b[k].entries, c[k].entries) else Covers(c[k].entries, a[k].entries)
  }

  lemma AssociativeAt(a: Values, b: Values, c: Values, k: string)
    requires k in a.Keys + b.Keys + c.Keys
    ensures Merge(Merge(a, b), c)[k] == Merge(a, Merge(b, c))[k] <==> AgreeAt(a, b, c, k)
    decreases Map(c), 0
  {
    if k in c && k in a && k in b && c[k].Map? && a[k].Map? {
      if b[k].Map? {
        AssociativeIff(a[k].entries, b[k].entries, c[k].entries);
      } else {
        AbsorbsIff(a[k].entries, c[k].entries);
      }
    }
  }

  /** Two maps with a scalar between them: the order matters. */
  lemma OrderMatters()
    ensures var a, b, c := map["x" := Map(map["y" := Scalar("1")])], map["x" := Scalar("2")], map["x" := Map(map[])];
            Merge(Merge(a, b), c) != Merge(a, Merge(b, c))
  {
    var inner := map["y" := Scalar("1")];
    var a, b, c := map["x" := Map(inner)], map["x" := Scalar("2")], map["x" := Map(map[])];
    assert "x" in a && "x" in b && "x" in c && "y" in inner;
    assert !Covers(map[], inner);
    assert !NothingBetween(a, b, c);
    AssociativeIff(a, b, c);
  }
}
