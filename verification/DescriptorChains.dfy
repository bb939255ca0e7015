/** The descriptors of a spec or status field: the walk to the marked fields below it, then
    the sort of what they show (getTypedDescriptors of the generator,
    internal/generate/clusterserviceversion/bases/definitions/crd.go). */
module DescriptorChains {
  import opened Slices
  import opened FieldWalk
  import opened Descriptors

  /** What the field at the end of a chain shows, if it is marked and not left out. */
  function DescriptorAt(types: Types, root: Field, markers: ReadMarkers, c: Chain): Option<Ordered> {
    if c != [] && IsChain(types, root, c) && Resolve(types, root, c).value.marked
    then SetDescriptorFields(Entry(types, root, c), markers)
    else None
  }

  type Shows = Chain -> Option<Ordered>

  function Shown(types: Types, root: Field, markers: ReadMarkers): Shows {
    c => DescriptorAt(types, root, markers, c)
  }

  ghost predicate AllShown(shows: Shows, cs: seq<Chain>) {
    forall i :: 0 <= i < |cs| ==> shows(cs[i]).Some?
  }

  ghost function Values(shows: Shows, cs: seq<Chain>): (r: seq<Ordered>)
    requires AllShown(shows, cs)
    ensures |r| == |cs|
  {
    seq(|cs|, i requires 0 <= i < |cs| => shows(cs[i]).value)
  }

  /** The chains that show something, each once. */
  ghost predicate EachOnce(shows: Shows, cs: seq<Chain>) {
    NoDup(cs) && forall c :: c in cs <==> shows(c).Some?
  }

  /** The descriptors are those of the chains that show one, each chain once, sorted by order and then by path. */
  ghost predicate ListsChains(shows: Shows, descriptors: seq<Descriptor>) {
    exists cs: seq<Chain> ::
      && EachOnce(shows, cs) && AllShown(shows, cs)
      && InOrder(Values(shows, cs)) && descriptors == Strip(Values(shows, cs))
  }

  /** getTypedDescriptors of the generator, for the child field found. */
  method DescriptorsOfField(types: Types, child: Field, priorErrors: bool, markers: ReadMarkers)
    returns (descriptors: Option<seq<Descriptor>>)
    requires Acyclic(types, child)
    ensures descriptors.None? <==> priorErrors || HasBadTag(types, child)
    ensures descriptors.Some? ==> ListsChains(Shown(types, child, markers), descriptors.value)
  {
    var markedFields := GetMarkedChildrenOfField(types, child, priorErrors);
    if markedFields.None? {
      return None;
    }
    var listed := GetTypedDescriptors(markedFields.value, markers);
    OneForEachChain(types, child, markers, markedFields.value, listed);
    return Some(listed);
  }

  /** What is listed from the entries filed under every type is listed from the chains. */
  lemma OneForEachChain(types: Types, root: Field, markers: ReadMarkers, markedFields: MarkedFields,
                        descriptors: seq<Descriptor>)
    requires Acyclic(types, root) && FilesAllChains(types, root, markedFields)
    requires Lists(descriptors, AllIncluded(markedFields, markedFields.Keys, markers))
    ensures ListsChains(Shown(types, root, markers), descriptors)
  {
    var shows := Shown(types, root, markers);
    var all := AllIncluded(markedFields, markedFields.Keys, markers);
    var sorted :| multiset(sorted) == all && InOrder(sorted) && descriptors == Strip(sorted);
    var cs := ChainsOfTypes(types, root, markers, markedFields, markedFields.Keys);
    var aligned := Align(shows, cs, sorted);
    AllTypes(types, root, markers, markedFields, aligned);
  }

  /** The chains to a field of one of the given types that show a descriptor. */
  ghost predicate ChainsInto(types: Types, root: Field, shows: Shows, into: set<TypeIdent>, cs: seq<Chain>) {
    && NoDup(cs)
    && forall c :: c in cs <==> c != [] && IsChain(types, root, c) && Owner(types, root, c) in into && shows(c).Some?
  }

  lemma {:induction false} ChainsOfTypes(types: Types, root: Field, markers: ReadMarkers, markedFields: MarkedFields,
                                         into: set<TypeIdent>)
    returns (cs: seq<Chain>)
    requires Acyclic(types, root) && FilesAllChains(types, root, markedFields)
    ensures var shows := Shown(types, root, markers);
            && ChainsInto(types, root, shows, into, cs) && AllShown(shows, cs)
            && multiset(Values(shows, cs)) == AllIncluded(markedFields, into, markers)
  {
    cs := [];
    if into != {} {
      var shows := Shown(types, root, markers);
      var t :| t in into;
      var others := ChainsOfTypes(types, root, markers, markedFields, into - {t});
      var own := ChainsOfType(types, root, markers, markedFields, t);
      IncludeType(markedFields, into, t, markers);
      cs := others + own;
      NoDupConcat(others, own);
      ValuesConcat(shows, others, own);
    }
  }

  lemma ChainsOfType(types: Types, root: Field, markers: ReadMarkers, markedFields: MarkedFields, t: TypeIdent)
    returns (cs: seq<Chain>)
    requires Acyclic(types, root) && FilesAllChains(types, root, markedFields)
    ensures var shows := Shown(types, root, markers);
            && ChainsInto(types, root, shows, {t}, cs) && AllShown(shows, cs)
            && Values(shows, cs) == Included(Listed(markedFields, t), markers)
  {
    var shows := Shown(types, root, markers);
    var chains := MarkedChains(types, root, UpTo(types, root, |types|), t);
    WalkIsEnumeration(types, root, t);
    assert forall i :: 0 <= i < |chains| ==> chains[i] in chains;
    cs := IncludedChains(types, root, markers, chains);
  }

  /** Those of the chains that show something, each once. */
  ghost predicate Picks(shows: Shows, chains: seq<Chain>, cs: seq<Chain>) {
    NoDup(cs) && AllShown(shows, cs) && forall c :: c in cs <==> c in chains && shows(c).Some?
  }

  lemma PickNext(shows: Shows, front: seq<Chain>, c: Chain, cs: seq<Chain>) returns (more: seq<Chain>)
    requires Picks(shows, front, cs) && c !in front
    ensures Picks(shows, front + [c], more)
    ensures Values(shows, more) == Values(shows, cs) + if shows(c).Some? then [shows(c).value] else []
  {
    more := cs;
    if shows(c).Some? {
      NoDupAppend(cs, c);
      ValuesConcat(shows, cs, [c]);
      more := cs + [c];
    }
  }

  /** The descriptors included from the entries of some marked chains are those these chains show. */
  lemma {:induction false} IncludedChains(types: Types, root: Field, markers: ReadMarkers, chains: seq<Chain>)
    returns (cs: seq<Chain>)
    requires AllChains(types, root, chains) && NoDup(chains)
    requires forall i :: 0 <= i < |chains| ==> chains[i] != [] && Resolve(types, root, chains[i]).value.marked
    ensures Picks(Shown(types, root, markers), chains, cs)
    ensures Values(Shown(types, root, markers), cs) == Included(Entries(types, root, chains), markers)
  {
    cs := [];
    if chains != [] {
      var front, c := chains[..|chains| - 1], chains[|chains| - 1];
      cs := IncludedChains(types, root, markers, front);
      assert chains == front + [c];
      LastIncluded(types, root, markers, chains);
      cs := PickNext(Shown(types, root, markers), front, c, cs);
    }
  }

  lemma LastIncluded(types: Types, root: Field, markers: ReadMarkers, chains: seq<Chain>)
    requires AllChains(types, root, chains) && chains != []
    requires var c := chains[|chains| - 1]; c != [] && Resolve(types, root, c).value.marked
    ensures var d := DescriptorAt(types, root, markers, chains[|chains| - 1]);
            Included(Entries(types, root, chains), markers) ==
              Included(Entries(types, root, chains[..|chains| - 1]), markers) + if d.Some? then [d.value] else []
  {
    var n := |chains| - 1;
    assert Entries(types, root, chains)[..n] == Entries(types, root, chains[..n]);
  }

  lemma ValuesConcat(shows: Shows, a: seq<Chain>, b: seq<Chain>)
    requires AllShown(shows, a) && AllShown(shows, b)
    ensures AllShown(shows, a + b) && Values(shows, a + b) == Values(shows, a) + Values(shows, b)
  {
  }

  lemma AllTypes(types: Types, root: Field, markers: ReadMarkers, markedFields: MarkedFields, cs: seq<Chain>)
    requires Acyclic(types, root) && FilesAllChains(types, root, markedFields)
    requires ChainsInto(types, root, Shown(types, root, markers), markedFields.Keys, cs)
    ensures EachOnce(Shown(types, root, markers), cs)
  {
    forall c | DescriptorAt(types, root, markers, c).Some?
      ensures c in cs
    {
      UnderSomeType(types, root, markedFields, c);
    }
  }

  /** A marked chain leads to a field of a type entries are filed under. */
  lemma UnderSomeType(types: Types, root: Field, markedFields: MarkedFields, c: Chain)
    requires Acyclic(types, root) && FilesAllChains(types, root, markedFields)
    requires c != [] && IsChain(types, root, c) && Resolve(types, root, c).value.marked
    ensures Owner(types, root, c) in markedFields
  {
    var t := Owner(types, root, c);
    WalkIsEnumeration(types, root, t);
    assert MarkedIn(types, root, c, t);
    assert Listed(markedFields, t) != [];
  }

  /** The chains in the order of a rearrangement of what they show. */
  lemma {:induction false} Align(shows: Shows, cs: seq<Chain>, values: seq<Ordered>) returns (aligned: seq<Chain>)
    requires AllShown(shows, cs) && NoDup(cs) && multiset(values) == multiset(Values(shows, cs))
    ensures NoDup(aligned) && forall c :: c in aligned <==> c in cs
    ensures AllShown(shows, aligned) && Values(shows, aligned) == values
    decreases |values|
  {
    aligned := [];
    if values == [] {
      assert multiset(Values(shows, cs)) == multiset{} && |Values(shows, cs)| == |multiset(Values(shows, cs))|;
    } else {
      var n := |values| - 1;
      var i, fewer := TakeOut(shows, cs, values);
      aligned := Align(shows, fewer, values[..n]);
      NoDupAppend(aligned, cs[i]);
      ValuesConcat(shows, aligned, [cs[i]]);
      aligned := aligned + [cs[i]];
    }
  }

  lemma TakeOut(shows: Shows, cs: seq<Chain>, values: seq<Ordered>) returns (i: nat, fewer: seq<Chain>)
    requires AllShown(shows, cs) && NoDup(cs) && values != [] && multiset(values) == multiset(Values(shows, cs))
    ensures i < |cs| && shows(cs[i]) == Some(values[|values| - 1])
    ensures NoDup(fewer) && cs[i] !in fewer && forall c :: c in cs <==> c == cs[i] || c in fewer
    ensures AllShown(shows, fewer) && multiset(values[..|values| - 1]) == multiset(Values(shows, fewer))
  {
    i := LastIn(values, Values(shows, cs));
    fewer := cs[..i] + cs[i + 1..];
    assert Values(shows, fewer) == Values(shows, cs)[..i] + Values(shows, cs)[i + 1..];
    WithoutOne(cs, i);
  }

  /** The last element of a sequence has a place in every rearrangement of it. */
  lemma LastIn<T>(a: seq<T>, b: seq<T>) returns (i: nat)
    requires a != [] && multiset(a) == multiset(b)
    ensures i < |b| && b[i] == a[|a| - 1]
    ensures multiset(a[..|a| - 1]) == multiset(b[..i] + b[i + 1..])
  {
    var n := |a| - 1;
    assert a == a[..n] + [a[n]];
    assert a[n] in multiset(b);
    i :| 0 <= i < |b| && b[i] == a[n];
    CutOut(b, i);
    assert multiset(a) == multiset(a[..n]) + multiset{a[n]};
    assert multiset(a[..n]) == multiset(a) - multiset{a[n]};
  }

  lemma CutOut<T>(b: seq<T>, i: nat)
    requires i < |b|
    ensures multiset(b[..i] + b[i + 1..]) == multiset(b) - multiset{b[i]}
  {
    assert b == b[..i] + [b[i]] + b[i + 1..];
  }

  lemma WithoutOne<T>(s: seq<T>, i: nat)
    requires NoDup(s) && i < |s|
    ensures var fewer := s[..i] + s[i + 1..];
            NoDup(fewer) && s[i] !in fewer && forall x :: x in s <==> x == s[i] || x in fewer
  {
    assert s == s[..i] + [s[i]] + s[i + 1..];
  }

  // ----- What a chain shows, read off its fields -----

  /** Segment i of a chain's entry comes from the tag of the field its first i + 1 hops lead to. */
  ghost predicate IsSegment(types: Types, root: Field, c: Chain, i: nat, segment: string)
    requires i < |c|
  {
    && IsChain(types, root, c[..i + 1])
    && var f := Resolve(types, root, c[..i + 1]).value;
    && f.segment.Some?
    && segment == if f.isArray && f.segment.value != "##inline##" && f.segment.value != "##ignore##"
                  then f.segment.value + "[0]" else f.segment.value
  }

  ghost predicate AreSegments(types: Types, root: Field, c: Chain, segments: seq<string>) {
    |segments| == |c| && forall i :: 0 <= i < |c| ==> IsSegment(types, root, c, i, segments[i])
  }

  lemma {:induction false} SegmentsRead(types: Types, root: Field, c: Chain)
    requires IsChain(types, root, c)
    ensures AreSegments(types, root, c, Segments(types, root, c))
  {
    if c != [] {
      var n := |c| - 1;
      SegmentsRead(types, root, Init(c));
      assert c[..n + 1] == c;
      forall i | 0 <= i < n
        ensures IsSegment(types, root, c, i, Segments(types, root, c)[i])
      {
        assert Init(c)[..i + 1] == c[..i + 1];
        assert IsSegment(types, root, Init(c), i, Segments(types, root, Init(c))[i]);
      }
    }
  }

  /** A chain shows nothing exactly if it leads to no marked field, its path is left out, or no marker is of the type;
      else it shows the path its segments make, and the order and contents the markers give. */
  lemma ShownRead(types: Types, root: Field, markers: ReadMarkers, c: Chain) returns (segments: seq<string>)
    requires IsChain(types, root, c)
    ensures AreSegments(types, root, c, segments)
    ensures var shown, f := DescriptorAt(types, root, markers, c), Resolve(types, root, c).value;
            && (shown.None? <==> c == [] || !f.marked || IsLeftOut(segments) || !markers(f).seenDescType)
            && (shown.Some? ==>
                  && shown.value.order == markers(f).order && shown.value.descriptor.body == markers(f).body
                  && IsPath(segments, shown.value.descriptor.path))
  {
    segments := Segments(types, root, c);
    SegmentsRead(types, root, c);
    PathRead(segments);
    PathLeftOut(segments);
  }
}
