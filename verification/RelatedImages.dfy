/** Related images found in the environment (internal/cmd/operator-sdk/generate/internal/relatedimages.go). */
module RelatedImages {
  import opened Slices
  import opened Text

  const PREFIX := "RELATED_IMAGE_"

  /** An image as it was met; `containerRef` names the container. */
  datatype Image = Image(name: string, ref: string, containerRef: string)

  /** An entry of the resulting list. */
  datatype RelatedImage = RelatedImage(name: string, image: string)

  function Key(i: Image): string {
    i.name + "-" + i.ref
  }

  predicate SamePair(a: Image, b: Image) {
    a.name == b.name && a.ref == b.ref
  }

  // ----- The collected list and its groupings -----

  function Named(images: seq<Image>, name: string): seq<Image> {
    if images == [] then []
    else Named(images[..|images| - 1], name) + if images[|images| - 1].name == name then [images[|images| - 1]] else []
  }

  function WithRef(images: seq<Image>, ref: string): seq<Image> {
    if images == [] then []
    else WithRef(images[..|images| - 1], ref) + if images[|images| - 1].ref == ref then [images[|images| - 1]] else []
  }

  /** No two have the same name and reference. */
  ghost predicate DistinctPairs(images: seq<Image>) {
    forall i, j :: 0 <= i < j < |images| ==> !SamePair(images[i], images[j])
  }

  ghost predicate SeenKey(images: seq<Image>, key: string) {
    exists i :: 0 <= i < |images| && Key(images[i]) == key
  }

  /** The list after collecting one more image, and after collecting all. */
  ghost function Collected(images: seq<Image>, i: Image): seq<Image> {
    if SeenKey(images, Key(i)) then images else images + [i]
  }

  ghost function CollectedAll(met: seq<Image>): seq<Image> {
    if met == [] then [] else Collected(CollectedAll(met[..|met| - 1]), met[|met| - 1])
  }

  // ----- The collector -----

  class Collector {
    var relatedImages: seq<Image>
    var byName: map<string, seq<Image>>
    var byRef: map<string, seq<Image>>
    var seen: set<string>

    /** Both maps are the groupings of the list, which has no pair twice. */
    ghost predicate Valid()
      reads this
    {
      && GroupsNames(byName, relatedImages)
      && GroupsRefs(byRef, relatedImages)
      && (forall key :: key in seen <==> SeenKey(relatedImages, key))
      && DistinctPairs(relatedImages)
    }

    constructor ()
      ensures Valid() && relatedImages == []
    {
      relatedImages, byName, byRef, seen := [], map[], map[], {};
    }

    method Collect(name: string, imageRef: string, containerRef: string)
      requires Valid()
      modifies this
      ensures Valid()
      ensures relatedImages == Collected(old(relatedImages), Image(name, imageRef, containerRef))
    {
      var key := name + "-" + imageRef;
      if key in seen {
        return;
      }
      seen := seen + {key};
      var image := Image(name, imageRef, containerRef);
      ghost var before := relatedImages;
      OneMore(before, image);
      NameGroupGrows(byName, before, image);
      RefGroupGrows(byRef, before, image);
      relatedImages := relatedImages + [image];
      if name in byName {
        byName := byName[name := byName[name] + [image]];
      } else {
        byName := byName[name := [image]];
      }
      if imageRef in byRef {
        byRef := byRef[imageRef := byRef[imageRef] + [image]];
      } else {
        byRef := byRef[imageRef := [image]];
      }
    }

    /** The images of the name and of the reference of the i-th one. */
    method Groups(i: nat) returns (sameName: seq<Image>, sameRef: seq<Image>)
      requires Valid() && i < |relatedImages|
      ensures sameName == Named(relatedImages, relatedImages[i].name)
      ensures sameRef == WithRef(relatedImages, relatedImages[i].ref)
    {
      var image := relatedImages[i];
      GroupsHold(relatedImages, i);
      return byName[image.name], byRef[image.ref];
    }

    method CollectedRelatedImages() returns (final: seq<RelatedImage>)
      requires Valid()
      ensures final == Final(relatedImages)
    {
      final := [];
      ghost var entries := Entries(relatedImages);
      for i := 0 to |relatedImages|
        invariant final == Somes(entries[..i])
      {
        SomesNext(entries, i);
        var sameName, sameRef := Groups(i);
        var entry := EntryFor(relatedImages[i], sameName, sameRef);
        if entry.None? {
          continue;
        }
        final := final + [entry.value];
      }
      assert entries[..|entries|] == entries;
    }
  }

  /** The entry of an image, given those of the same name and of the same reference; None when it is skipped. */
  method EntryFor(image: Image, sameName: seq<Image>, sameRef: seq<Image>) returns (entry: Option<RelatedImage>)
    ensures entry == EntryOf(image, sameName, sameRef)
  {
    var name := image.name;
    if |sameName| > 1 {
      name := image.containerRef + "-" + name;
    }
    if |sameRef| > 1 {
      if sameRef[0].name != image.name {
        return None;
      }
      name := "";
    }
    return Some(RelatedImage(name, image.ref));
  }

  function EntryOf(image: Image, sameName: seq<Image>, sameRef: seq<Image>): Option<RelatedImage> {
    if |sameRef| > 1 then
      if sameRef[0].name == image.name then Some(RelatedImage("", image.ref)) else None
    else Some(RelatedImage(if |sameName| > 1 then image.containerRef + "-" + image.name else image.name, image.ref))
  }

  ghost predicate GroupsNames(groups: map<string, seq<Image>>, images: seq<Image>) {
    forall name :: (name in groups <==> Named(images, name) != [])
      && (name in groups ==> groups[name] == Named(images, name))
  }

  ghost predicate GroupsRefs(groups: map<string, seq<Image>>, images: seq<Image>) {
    forall ref :: (ref in groups <==> WithRef(images, ref) != [])
      && (ref in groups ==> groups[ref] == WithRef(images, ref))
  }

  lemma NameGroupGrows(groups: map<string, seq<Image>>, images: seq<Image>, i: Image)
    requires GroupsNames(groups, images)
    ensures GroupsNames(groups[i.name := if i.name in groups then groups[i.name] + [i] else [i]], images + [i])
  {
    assert (images + [i])[..|images|] == images;
  }

  lemma RefGroupGrows(groups: map<string, seq<Image>>, images: seq<Image>, i: Image)
    requires GroupsRefs(groups, images)
    ensures GroupsRefs(groups[i.ref := if i.ref in groups then groups[i.ref] + [i] else [i]], images + [i])
  {
    assert (images + [i])[..|images|] == images;
  }

  /** What each image contributes to the resulting list. */
  function Entries(images: seq<Image>): (r: seq<Option<RelatedImage>>)
    ensures |r| == |images|
  {
    seq(|images|, i requires 0 <= i < |images| => EntryAt(images, i))
  }

  function EntryAt(images: seq<Image>, i: nat): Option<RelatedImage>
    requires i < |images|
  {
    EntryOf(images[i], Named(images, images[i].name), WithRef(images, images[i].ref))
  }

  function Somes<T>(s: seq<Option<T>>): seq<T> {
    if s == [] then [] else Somes(s[..|s| - 1]) + match s[|s| - 1] case None => [] case Some(x) => [x]
  }

  lemma SomesNext<T>(s: seq<Option<T>>, i: nat)
    requires i < |s|
    ensures Somes(s[..i + 1]) == Somes(s[..i]) + match s[i] case None => [] case Some(x) => [x]
  {
    assert s[..i + 1][..i] == s[..i];
  }

  /** The resulting list. */
  function Final(images: seq<Image>): seq<RelatedImage> {
    Somes(Entries(images))
  }

  lemma {:induction false} GroupsHold(images: seq<Image>, i: nat)
    requires i < |images|
    ensures images[i] in Named(images, images[i].name) && images[i] in WithRef(images, images[i].ref)
    decreases |images|
  {
    if i < |images| - 1 {
      GroupsHold(images[..|images| - 1], i);
    }
  }

  lemma OneMore(images: seq<Image>, i: Image)
    requires !SeenKey(images, Key(i))
    ensures forall key :: SeenKey(images + [i], key) <==> SeenKey(images, key) || key == Key(i)
    ensures DistinctPairs(images) ==> DistinctPairs(images + [i])
  {
    var longer := images + [i];
    forall key
      ensures SeenKey(longer, key) <==> SeenKey(images, key) || key == Key(i)
    {
      if SeenKey(images, key) {
        var k :| 0 <= k < |images| && Key(images[k]) == key;
        assert Key(longer[k]) == key;
      }
      assert Key(longer[|images|]) == Key(i);
    }
    forall k | 0 <= k < |images|
      ensures !SamePair(images[k], i)
    {
      assert Key(images[k]) != Key(i);
    }
  }

  // ----- The resulting list -----

  ghost predicate MetBefore(images: seq<Image>, ref: string, n: nat) {
    exists k :: 0 <= k < n && k < |images| && images[k].ref == ref
  }

  /** The references in the order they were first met. */
  ghost function FirstRefs(images: seq<Image>, n: nat): seq<string>
    requires n <= |images|
  {
    if n == 0 then []
    else FirstRefs(images, n - 1) + if MetBefore(images, images[n - 1].ref, n - 1) then [] else [images[n - 1].ref]
  }

  lemma {:induction false} FirstRefsOnce(images: seq<Image>, n: nat)
    requires n <= |images|
    ensures NoDup(FirstRefs(images, n))
    ensures forall ref :: ref in FirstRefs(images, n) <==> MetBefore(images, ref, n)
  {
    if n > 0 {
      FirstRefsOnce(images, n - 1);
      if !MetBefore(images, images[n - 1].ref, n - 1) {
        NoDupAppend(FirstRefs(images, n - 1), images[n - 1].ref);
      }
      assert forall ref :: MetBefore(images, ref, n) <==> MetBefore(images, ref, n - 1) || ref == images[n - 1].ref;
    }
  }

  /** Among the images of one reference the first comes first, and there are others exactly if others were met. */
  lemma {:induction false} WithRefFirst(images: seq<Image>, i: nat)
    requires i < |images| && !MetBefore(images, images[i].ref, i)
    ensures var same := WithRef(images, images[i].ref);
            && same != [] && same[0] == images[i]
            && (|same| > 1 <==> exists k :: i < k < |images| && images[k].ref == images[i].ref)
    decreases |images|
  {
    var fewer := images[..|images| - 1];
    if i < |fewer| {
      assert !MetBefore(fewer, fewer[i].ref, i);
      WithRefFirst(fewer, i);
      assert forall k :: i < k < |fewer| ==> fewer[k] == images[k];
    } else {
      NoneWithRef(fewer, images[i].ref);
    }
  }

  lemma {:induction false} NoneWithRef(images: seq<Image>, ref: string)
    requires !MetBefore(images, ref, |images|)
    ensures WithRef(images, ref) == []
  {
    if images != [] {
      assert images[|images| - 1].ref != ref;
      var fewer := images[..|images| - 1];
      assert forall k :: 0 <= k < |fewer| ==> fewer[k] == images[k];
      NoneWithRef(fewer, ref);
    }
  }

  lemma {:induction false} NamedAlone(images: seq<Image>, i: nat)
    requires i < |images|
    ensures |Named(images, images[i].name)| > 1 <==>
            exists k :: 0 <= k < |images| && k != i && images[k].name == images[i].name
    ensures Named(images, images[i].name) != []
    decreases |images|
  {
    var last := |images| - 1;
    var fewer := images[..last];
    assert forall k :: 0 <= k < last ==> fewer[k] == images[k];
    if i < last {
      NamedAlone(fewer, i);
    } else {
      NamedSome(fewer, images[i].name);
    }
  }

  lemma {:induction false} NamedSome(images: seq<Image>, name: string)
    ensures Named(images, name) != [] <==> exists k :: 0 <= k < |images| && images[k].name == name
  {
    if images != [] {
      var fewer := images[..|images| - 1];
      assert forall k :: 0 <= k < |fewer| ==> fewer[k] == images[k];
      NamedSome(fewer, name);
    }
  }

  /** An image is skipped exactly when its reference was met before. */
  lemma SkippedIff(images: seq<Image>, i: nat)
    requires DistinctPairs(images) && i < |images|
    ensures EntryAt(images, i).None? <==> MetBefore(images, images[i].ref, i)
  {
    if MetBefore(images, images[i].ref, i) {
      var f := FirstMet(images, images[i].ref, i);
      WithRefFirst(images, f);
      assert !SamePair(images[f], images[i]);
    } else {
      WithRefFirst(images, i);
    }
  }

  lemma {:induction false} FirstMet(images: seq<Image>, ref: string, n: nat) returns (f: nat)
    requires MetBefore(images, ref, n)
    ensures f < n && f < |images| && images[f].ref == ref && !MetBefore(images, ref, f)
  {
    if MetBefore(images, ref, n - 1) {
      f := FirstMet(images, ref, n - 1);
    } else {
      f := n - 1;
    }
  }

  function Refs(final: seq<RelatedImage>): seq<string> {
    seq(|final|, i requires 0 <= i < |final| => final[i].image)
  }

  /** The resulting list has each collected reference once, in the order they were first met. */
  lemma EachRefOnce(images: seq<Image>)
    requires DistinctPairs(images)
    ensures Refs(Final(images)) == FirstRefs(images, |images|)
    ensures NoDup(Refs(Final(images)))
    ensures forall ref :: ref in Refs(Final(images)) <==> MetBefore(images, ref, |images|)
  {
    var entries := Entries(images);
    forall i | 0 <= i < |images|
      ensures Fits(images, entries, i)
    {
      SkippedIff(images, i);
    }
    RefsInOrder(images, entries, |images|);
    assert entries[..|images|] == entries;
    FirstRefsOnce(images, |images|);
  }

  ghost predicate Fits(images: seq<Image>, entries: seq<Option<RelatedImage>>, i: nat)
    requires i < |images| == |entries|
  {
    && (entries[i].None? <==> MetBefore(images, images[i].ref, i))
    && (entries[i].Some? ==> entries[i].value.image == images[i].ref)
  }

  lemma {:induction false} RefsInOrder(images: seq<Image>, entries: seq<Option<RelatedImage>>, n: nat)
    requires n <= |images| == |entries| && forall i :: 0 <= i < |images| ==> Fits(images, entries, i)
    ensures Refs(Somes(entries[..n])) == FirstRefs(images, n)
  {
    if n > 0 {
      RefsInOrder(images, entries, n - 1);
      assert Fits(images, entries, n - 1);
      assert entries[..n][..n - 1] == entries[..n - 1];
      if entries[n - 1].Some? {
        RefsAppend(Somes(entries[..n - 1]), entries[n - 1].value);
      }
    }
  }

  lemma RefsAppend(final: seq<RelatedImage>, e: RelatedImage)
    ensures Refs(final + [e]) == Refs(final) + [e.image]
  {
  }

  /** The name it is listed under: none if it was collected under several names, the name with the container's
      in front if the name was collected for several references, else the name. */
  lemma ListedName(images: seq<Image>, i: nat)
    requires DistinctPairs(images) && i < |images| && !MetBefore(images, images[i].ref, i)
    ensures EntryAt(images, i).Some? && EntryAt(images, i).value in Final(images)
    ensures var image := images[i];
            EntryAt(images, i).value.name ==
              if exists k :: 0 <= k < |images| && images[k].ref == image.ref && images[k].name != image.name then ""
              else if exists k :: 0 <= k < |images| && images[k].name == image.name && images[k].ref != image.ref
              then image.containerRef + "-" + image.name
              else image.name
    ensures EntryAt(images, i).value.name == "" <==>
            || (exists k :: 0 <= k < |images| && images[k].ref == images[i].ref && images[k].name != images[i].name)
            || (images[i].name == "" && forall k :: 0 <= k < |images| && k != i ==> images[k].name != "")
  {
    SkippedIff(images, i);
    assert Entries(images)[i] == EntryAt(images, i);
    SomesHas(Entries(images), i);
    WithRefFirst(images, i);
    NamedAlone(images, i);
    assert forall k :: 0 <= k < |images| && k != i ==> !SamePair(images[k], images[i]);
  }

  lemma {:induction false} SomesHas<T>(s: seq<Option<T>>, i: nat)
    requires i < |s| && s[i].Some?
    ensures s[i].value in Somes(s)
  {
    if i < |s| - 1 {
      SomesHas(s[..|s| - 1], i);
    }
  }

  // ----- Which images get collected -----

  /** The first image met under a key decides: others with that key are dropped, even of another pair. */
  lemma CollectedIff(met: seq<Image>, i: nat, first: nat)
    requires i < |met| && first < |met| && Key(met[first]) == Key(met[i])
    requires forall k :: 0 <= k < first ==> Key(met[k]) != Key(met[i])
    ensures (exists c :: c in CollectedAll(met) && SamePair(c, met[i])) <==> SamePair(met[first], met[i])
    ensures forall c :: c in CollectedAll(met) && Key(c) == Key(met[i]) ==> c == met[first]
    ensures met[first] in CollectedAll(met)
    decreases |met|
  {
    KeyCollected(met, first);
    forall c | c in CollectedAll(met) && SamePair(c, met[i])
      ensures Key(c) == Key(met[i])
    {
    }
  }

  lemma {:induction false} KeyCollected(met: seq<Image>, first: nat)
    requires first < |met| && forall k :: 0 <= k < first ==> Key(met[k]) != Key(met[first])
    ensures forall c :: c in CollectedAll(met) && Key(c) == Key(met[first]) ==> c == met[first]
    ensures met[first] in CollectedAll(met)
    decreases |met|
  {
    var n := |met| - 1;
    var fewer := met[..n];
    var images := CollectedAll(fewer);
    if first < n {
      assert forall k :: 0 <= k < n ==> fewer[k] == met[k];
      KeyCollected(fewer, first);
      var at :| 0 <= at < |images| && images[at] == met[first];
      assert SeenKey(images, Key(met[first]));
    } else {
      NotCollected(fewer, Key(met[first]));
      assert !SeenKey(images, Key(met[first])) by {
        assert forall k :: 0 <= k < |images| ==> images[k] in images;
      }
    }
  }

  lemma {:induction false} NotCollected(met: seq<Image>, key: string)
    requires forall k :: 0 <= k < |met| ==> Key(met[k]) != key
    ensures forall c :: c in CollectedAll(met) ==> Key(c) != key
  {
    if met != [] {
      NotCollected(met[..|met| - 1], key);
    }
  }

  /** Two different images whose keys collide: the second reference is lost. */
  lemma LostReference()
    ensures var met := [Image("db", "proxy-v1", "manager"), Image("db-proxy", "v1", "manager")];
            && forall c :: c in CollectedAll(met) ==> c.ref != "v1"
  {
    var a, b := Image("db", "proxy-v1", "manager"), Image("db-proxy", "v1", "manager");
    assert Key(a) == "db-proxy-v1" == Key(b);
    KeyCollected([a, b], 0);
    CollectedIff([a, b], 1, 0);
  }

  // ----- The list, read off the images -----

  /** No image before number i has the same name and reference, joined by a dash. */
  ghost predicate IsFirstOfKey(met: seq<Image>, i: nat)
    requires i < |met|
  {
    forall j :: 0 <= j < i ==> met[j].name + "-" + met[j].ref != met[i].name + "-" + met[i].ref
  }

  /** The images met first under their keys, in the order they were met. */
  ghost predicate AreCollected(met: seq<Image>, images: seq<Image>) {
    exists from: seq<nat> :: CollectedFrom(met, images, from)
  }

  ghost function FirstOfKeys(met: seq<Image>): nat -> bool {
    (i: nat) => i < |met| && IsFirstOfKey(met, i)
  }

  ghost predicate CollectedFrom(met: seq<Image>, images: seq<Image>, from: seq<nat>) {
    && Indices(from, |met|, FirstOfKeys(met)) && |from| == |images|
    && forall k :: 0 <= k < |from| ==> from[k] < |met| && images[k] == met[from[k]]
  }

  lemma {:induction false} CollectedRead(met: seq<Image>) returns (from: seq<nat>)
    ensures CollectedFrom(met, CollectedAll(met), from)
  {
    from := [];
    if met != [] {
      var front, last := met[..|met| - 1], met[|met| - 1];
      assert met == front + [last];
      from := CollectedRead(front);
      from := CollectNext(front, last, CollectedAll(front), from);
    }
  }

  lemma CollectNext(front: seq<Image>, last: Image, images: seq<Image>, from: seq<nat>) returns (more: seq<nat>)
    requires CollectedFrom(front, images, from)
    ensures CollectedFrom(front + [last], Collected(images, last), more)
  {
    SeenIff(front, images, from, last);
    KeysAgree(front, last);
    IndicesNext(from, |front|, FirstOfKeys(front), FirstOfKeys(front + [last]));
    more := if SeenKey(images, Key(last)) then from else from + [|front|];
  }

  lemma KeysAgree(front: seq<Image>, last: Image)
    ensures forall i: nat :: i < |front| ==> FirstOfKeys(front)(i) == FirstOfKeys(front + [last])(i)
    ensures FirstOfKeys(front + [last])(|front|) <==> !exists j :: 0 <= j < |front| && Key(front[j]) == Key(last)
  {
    var met := front + [last];
    assert forall i :: 0 <= i < |front| ==> front[i] == met[i] && Key(front[i]) == Key(met[i]);
  }

  lemma SeenIff(front: seq<Image>, images: seq<Image>, from: seq<nat>, i: Image)
    requires CollectedFrom(front, images, from)
    ensures SeenKey(images, Key(i)) <==> exists j :: 0 <= j < |front| && Key(front[j]) == Key(i)
  {
    if j :| 0 <= j < |front| && Key(front[j]) == Key(i) {
      var f := FirstOfKey(front, j);
      assert FirstOfKeys(front)(f);
      var k :| 0 <= k < |from| && from[k] == f;
      assert Key(images[k]) == Key(i);
    }
  }

  lemma {:induction false} FirstOfKey(met: seq<Image>, j: nat) returns (f: nat)
    requires j < |met|
    ensures f <= j && Key(met[f]) == Key(met[j]) && IsFirstOfKey(met, f)
    decreases j
  {
    f := j;
    if k :| 0 <= k < j && Key(met[k]) == Key(met[j]) {
      f := FirstOfKey(met, k);
    }
  }

  /** Number i has the first image of its reference. */
  ghost predicate IsFirstOfRef(images: seq<Image>, i: nat)
    requires i < |images|
  {
    forall j :: 0 <= j < i ==> images[j].ref != images[i].ref
  }

  /** What number i is listed as. */
  ghost predicate IsListed(images: seq<Image>, i: nat, r: RelatedImage)
    requires i < |images|
  {
    && r.image == images[i].ref
    && r.name == if exists k :: 0 <= k < |images| && images[k].ref == images[i].ref && images[k].name != images[i].name
       then ""
       else if exists k :: 0 <= k < |images| && images[k].name == images[i].name && images[k].ref != images[i].ref
       then images[i].containerRef + "-" + images[i].name
       else images[i].name
  }

  /** An entry for the first image of each reference, in order. */
  ghost predicate IsFinal(images: seq<Image>, final: seq<RelatedImage>) {
    exists from: seq<nat> :: FinalFrom(images, final, from)
  }

  ghost function FirstOfRefs(images: seq<Image>): nat -> bool {
    (i: nat) => i < |images| && IsFirstOfRef(images, i)
  }

  ghost predicate FinalFrom(images: seq<Image>, final: seq<RelatedImage>, from: seq<nat>) {
    && Indices(from, |images|, FirstOfRefs(images)) && |from| == |final|
    && forall k :: 0 <= k < |from| ==> from[k] < |images| && IsListed(images, from[k], final[k])
  }

  ghost function Present<T>(s: seq<Option<T>>): nat -> bool {
    (i: nat) => i < |s| && s[i].Some?
  }

  lemma {:induction false} SomesFrom<T>(s: seq<Option<T>>) returns (from: seq<nat>)
    ensures Indices(from, |s|, Present(s)) && |from| == |Somes(s)|
    ensures forall k :: 0 <= k < |from| ==> from[k] < |s| && s[from[k]] == Some(Somes(s)[k])
  {
    from := [];
    if s != [] {
      var n := |s| - 1;
      from := SomesFrom(s[..n]);
      IndicesNext(from, n, Present(s[..n]), Present(s));
      if s[n].Some? {
        from := from + [n];
      }
    }
  }

  lemma SameIndices(from: seq<nat>, n: nat, keep: nat -> bool, keep': nat -> bool)
    requires Indices(from, n, keep) && forall i: nat :: i < n ==> keep(i) == keep'(i)
    ensures Indices(from, n, keep')
  {
  }

  lemma FinalRead(images: seq<Image>)
    requires DistinctPairs(images)
    ensures IsFinal(images, Final(images))
  {
    var entries := Entries(images);
    var from := SomesFrom(entries);
    forall i: nat | i < |images|
      ensures Present(entries)(i) == FirstOfRefs(images)(i)
      ensures entries[i].Some? ==> IsListed(images, i, entries[i].value)
    {
      SkippedIff(images, i);
      if IsFirstOfRef(images, i) {
        ListedName(images, i);
      }
    }
    SameIndices(from, |images|, Present(entries), FirstOfRefs(images));
    assert FinalFrom(images, Final(images), from);
  }
}
