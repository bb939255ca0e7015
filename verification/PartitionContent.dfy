/** What the packed ConfigMaps hold and how large they get. */
module PartitionContent {
  import opened Slices
  import opened GreedyPacking
  import opened Partition

  // ----- Content -----

  function JoinDocs(docs: seq<string>): string {
    if docs == [] then ""
    else if |docs| == 1 then docs[0]
    else JoinDocs(docs[..|docs| - 1]) + "\n---\n" + docs[|docs| - 1]
  }

  lemma BytesSnoc(ops: seq<Op>, op: Op)
    ensures Bytes(ops + [op]) == Bytes(ops) + match op case Write(d) => d case Flush => ""
  {
    assert (ops + [op])[..|ops + [op]| - 1] == ops;
  }

  /** Both writers receive the partition's documents, joined by the separator. */
  lemma {:induction false} SameStream(docs: seq<string>)
    ensures Bytes(ActualOps(docs)) == JoinDocs(docs) == Bytes(HelperOps(docs))
    ensures OnlyWrites(ActualOps(docs))
    ensures |docs| >= 2 ==> HelperOps(docs)[|HelperOps(docs)| - 1] == Flush
  {
    if |docs| == 1 {
      BytesSnoc([], Write(docs[0]));
      assert ActualOps(docs) == [] + [Write(docs[0])];
    } else if |docs| > 1 {
      var front, data := docs[..|docs| - 1], YAML_SEPARATOR + docs[|docs| - 1];
      SameStream(front);
      BytesSnoc(ActualOps(front), Write(data));
      BytesSnoc(HelperOps(front), Write(data));
      BytesSnoc(HelperOps(front) + [Write(data)], Flush);
      assert HelperOps(docs) == HelperOps(front) + [Write(data)] + [Flush];
      assert JoinDocs(front) + YAML_SEPARATOR + docs[|docs| - 1]
             == JoinDocs(front) + (YAML_SEPARATOR + docs[|docs| - 1]);
    }
  }

  // ----- Size -----

  /** A ConfigMap with two or more documents stays within the size limit. */
  lemma SizeBound(sizes: Sizes, configMapName: string, parts: seq<seq<string>>, k: nat)
    requires SuffixBound(sizes) && Packing(RoomFor(sizes, configMapName), parts)
    requires k < |parts| && |parts[k]| >= 2
    ensures sizes.emptyMap(PartitionName(configMapName, k + 1))
            + sizes.closed(ActualOps(parts[k])) <= 1048576
  {
    var docs, fits := parts[k], RoomFor(sizes, configMapName);
    assert Filled(fits, k, docs) && docs[..|docs|] == docs;
    assert fits(k, docs[..|docs|]);
    SameStream(docs);
    var flushed := HelperOps(docs);
    assert flushed != [];
  }

  /** The next ConfigMap is begun only for a document that would have crossed the limit. */
  lemma NoEarlierRoom(sizes: Sizes, configMapName: string, parts: seq<seq<string>>, k: nat)
    requires Packing(RoomFor(sizes, configMapName), parts) && k + 1 < |parts|
    ensures parts[k] != [] && parts[k + 1] != []
    ensures sizes.emptyMap(PartitionName(configMapName, k + 1))
            + sizes.buffered(HelperOps(parts[k]) + [Write("\n---\n" + parts[k + 1][0]), Flush]) > 1048576 - 13
  {
    assert Full(RoomFor(sizes, configMapName), parts, k);
    ExtendOps(parts[k], parts[k + 1][0]);
  }

  /** One document is packed alone whatever its size: the limit is never checked for it. */
  lemma SingleDocumentUnchecked(sizes: Sizes, configMapName: string, parts: seq<seq<string>>, doc: string)
    requires Packing(RoomFor(sizes, configMapName), parts) && Flatten(parts) == [doc]
    ensures parts == [[doc]]
  {
    FlattenSnoc([], [doc]);
    assert [] + [[doc]] == [[doc]];
    assert Packing(RoomFor(sizes, configMapName), [[doc]]);
    PackingUnique(RoomFor(sizes, configMapName), parts, [[doc]]);
  }

  /** The ConfigMap of partition k, counted from 0, with these documents is within the size limit. */
  ghost predicate Within(sizes: Sizes, configMapName: string, k: nat, docs: seq<string>) {
    sizes.emptyMap(PartitionName(configMapName, k + 1)) + sizes.closed(ActualOps(docs)) <= 1048576
  }

  /** All ConfigMaps are within the limit exactly when those of at most one document are. */
  lemma WithinIff(sizes: Sizes, configMapName: string, parts: seq<seq<string>>)
    requires SuffixBound(sizes) && Packing(RoomFor(sizes, configMapName), parts)
    ensures (forall k :: 0 <= k < |parts| ==> Within(sizes, configMapName, k, parts[k])) <==>
            (forall k :: 0 <= k < |parts| && |parts[k]| <= 1 ==> Within(sizes, configMapName, k, parts[k]))
  {
    forall k: nat | k < |parts| && |parts[k]| >= 2
      ensures Within(sizes, configMapName, k, parts[k])
    {
      SizeBound(sizes, configMapName, parts, k);
    }
  }

  /** The empty stream and every document alone are within the limit, whichever partition it comes to. */
  ghost predicate EachWithin(sizes: Sizes, configMapName: string, docs: seq<string>) {
    && Within(sizes, configMapName, 0, [])
    && forall k: nat, d :: k <= |docs| && d in docs ==> Within(sizes, configMapName, k, [d])
  }

  /** So a caller can tell from the documents that all ConfigMaps will be within the limit. */
  lemma WithinIfEach(sizes: Sizes, configMapName: string, parts: seq<seq<string>>, k: nat)
    requires SuffixBound(sizes) && Packing(RoomFor(sizes, configMapName), parts) && k < |parts|
    requires EachWithin(sizes, configMapName, Flatten(parts))
    ensures Within(sizes, configMapName, k, parts[k])
  {
    PartCount(RoomFor(sizes, configMapName), parts, k);
    if |parts[k]| >= 2 {
      SizeBound(sizes, configMapName, parts, k);
    } else {
      if parts[k] != [] {
        PartOfFlatten(parts, k, parts[k][0]);
      } else if |parts| > 1 {
        NoEmptyPart(RoomFor(sizes, configMapName), parts, k);
      }
      ShortPart(sizes, configMapName, k, parts[k], Flatten(parts));
    }
  }

  lemma ShortPart(sizes: Sizes, configMapName: string, k: nat, part: seq<string>, docs: seq<string>)
    requires EachWithin(sizes, configMapName, docs) && k <= |docs|
    requires (part == [] && k == 0) || (|part| == 1 && part[0] in docs)
    ensures Within(sizes, configMapName, k, part)
  {
    assert part == [] || part == [part[0]];
  }

  lemma {:induction false} PartCount(fits: Room, parts: seq<seq<string>>, n: nat)
    requires Packing(fits, parts) && n < |parts|
    ensures n <= |Flatten(parts[..n])| <= |Flatten(parts)|
  {
    if n > 0 {
      assert Full(fits, parts, n - 1) && parts[..n][..n - 1] == parts[..n - 1];
      PartCount(fits, parts, n - 1);
    }
    FlattenPrefixLength(parts, n);
  }

  lemma {:induction false} FlattenPrefixLength(parts: seq<seq<string>>, n: nat)
    requires n <= |parts|
    ensures |Flatten(parts[..n])| <= |Flatten(parts)|
    decreases |parts|
  {
    if n < |parts| {
      FlattenPrefixLength(parts[..|parts| - 1], n);
      assert parts[..|parts| - 1][..n] == parts[..n];
    } else {
      assert parts[..n] == parts;
    }
  }

  lemma {:induction false} PartOfFlatten(parts: seq<seq<string>>, k: nat, d: string)
    requires k < |parts| && d in parts[k]
    ensures d in Flatten(parts)
    decreases |parts|
  {
    if k < |parts| - 1 {
      PartOfFlatten(parts[..|parts| - 1], k, d);
    }
  }

  /** A codec that copies, with one byte of framing for each operation. */
  function CopyingSizes(): Sizes {
    Sizes(ops => |Bytes(ops)| + |ops|, ops => |Bytes(ops)|, name => 0)
  }

  /** A document longer than the limit, after a short one: it is given a ConfigMap of its own, which is too large. */
  lemma OversizedDocument(configMapName: string, large: string)
    requires |large| == 1048577
    ensures HeaderFirst(CopyingSizes()) && SuffixBound(CopyingSizes())
    ensures Packing(RoomFor(CopyingSizes(), configMapName), [["a"], [large]])
    ensures !Within(CopyingSizes(), configMapName, 1, [large])
  {
    var fits, parts := RoomFor(CopyingSizes(), configMapName), [["a"], [large]];
    SameStream([large]);
    SameStream(["a", large]);
    assert JoinDocs([large]) == large;
    assert ["a"] + [large] == ["a", large] && |JoinDocs(["a", large])| > |large|;
    assert !fits(0, ["a", large]);
    assert Full(fits, parts, 0);
  }

  // ----- Names -----

  /** The number a numeral stands for. */
  ghost function Number(digits: string): int {
    if digits == "" then 0 else 10 * Number(digits[..|digits| - 1]) + (digits[|digits| - 1] as int - '0' as int)
  }

  /** A decimal numeral without leading zeros. */
  ghost predicate IsDecimal(s: string, n: nat) {
    && s != "" && (forall c :: c in s ==> '0' <= c <= '9')
    && (s[0] == '0' ==> s == "0") && Number(s) == n
  }

  lemma {:induction false} ItoaReads(n: nat)
    ensures IsDecimal(Itoa(n), n)
  {
    if n >= 10 {
      var front := Itoa(n / 10);
      ItoaReads(n / 10);
      assert Itoa(n)[..|front|] == front;
      assert n / 10 > 0 && front != "0" by { assert Number("0") == 0 by { assert "0"[..0] == ""; } }
    } else {
      assert Itoa(n)[..0] == "";
    }
  }

  /** The k-th ConfigMap's name ends in the number k. */
  lemma PartitionNameReads(configMapName: string, k: nat)
    ensures exists digits ::
              IsDecimal(digits, k) && PartitionName(configMapName, k) == configMapName + "-partition-" + digits
  {
    ItoaReads(k);
  }

  lemma {:induction false} ItoaInjective(m: nat, n: nat)
    requires Itoa(m) == Itoa(n)
    ensures m == n
  {
    assert m >= 10 ==> |Itoa(m)| > 1 by { if m >= 10 { ItoaNonEmpty(m / 10); } }
    assert n >= 10 ==> |Itoa(n)| > 1 by { if n >= 10 { ItoaNonEmpty(n / 10); } }
    if m >= 10 {
      assert Itoa(m)[..|Itoa(m)| - 1] == Itoa(m / 10) && Itoa(n)[..|Itoa(n)| - 1] == Itoa(n / 10);
      assert Itoa(m)[|Itoa(m)| - 1] == '0' + (m % 10) as char && Itoa(n)[|Itoa(n)| - 1] == '0' + (n % 10) as char;
      ItoaInjective(m / 10, n / 10);
    }
  }

  lemma ItoaNonEmpty(n: nat)
    ensures |Itoa(n)| >= 1
  {
  }

  lemma PartitionNamesDistinct(configMapName: string, j: nat, k: nat)
    requires PartitionName(configMapName, j) == PartitionName(configMapName, k)
    ensures j == k
  {
    var prefix := configMapName + "-partition-";
    assert PartitionName(configMapName, j)[|prefix|..] == Itoa(j);
    assert PartitionName(configMapName, k)[|prefix|..] == Itoa(k);
    ItoaInjective(j, k);
  }

  // ----- Reading back -----

  /** Splitting at the separator, leftmost first, as strings.Split does; `current` is the part begun. */
  function SplitDocs(current: string, s: string): seq<string>
    decreases |s|
  {
    if s == "" then [current]
    else if YAML_SEPARATOR <= s then [current] + SplitDocs("", s[|YAML_SEPARATOR|..])
    else SplitDocs(current + [s[0]], s[1..])
  }

  /** No line of the document after its first consists of the three dashes alone. */
  ghost predicate NoSeparatorLine(doc: string) {
    forall i :: 0 <= i < |doc| ==> !(YAML_SEPARATOR <= (doc + YAML_SEPARATOR)[i..])
  }

  lemma {:induction false} SplitOne(current: string, doc: string, rest: string)
    requires NoSeparatorLine(doc)
    ensures SplitDocs(current, doc + YAML_SEPARATOR + rest) == [current + doc] + SplitDocs("", rest)
    ensures SplitDocs(current, doc) == [current + doc]
    decreases |doc|
  {
    var s := doc + YAML_SEPARATOR + rest;
    if doc == "" {
      assert s == YAML_SEPARATOR + rest && s[|YAML_SEPARATOR|..] == rest;
      assert current + doc == current;
    } else {
      NotAtFront(doc, rest);
      TailHasNone(doc);
      assert s[1..] == doc[1..] + YAML_SEPARATOR + rest;
      SplitOne(current + [doc[0]], doc[1..], rest);
      assert current + [doc[0]] + doc[1..] == current + doc;
    }
  }

  lemma NotAtFront(doc: string, rest: string)
    requires NoSeparatorLine(doc) && doc != ""
    ensures !(YAML_SEPARATOR <= doc + YAML_SEPARATOR + rest) && !(YAML_SEPARATOR <= doc)
  {
    var d := doc + YAML_SEPARATOR;
    assert !(YAML_SEPARATOR <= d[0..]) && d[0..] == d;
    assert forall i :: 0 <= i < |YAML_SEPARATOR| ==> d[i] == (d + rest)[i];
  }

  lemma TailHasNone(doc: string)
    requires NoSeparatorLine(doc) && doc != ""
    ensures NoSeparatorLine(doc[1..])
  {
    forall i | 0 <= i < |doc| - 1
      ensures !(YAML_SEPARATOR <= (doc[1..] + YAML_SEPARATOR)[i..])
    {
      assert (doc[1..] + YAML_SEPARATOR)[i..] == (doc + YAML_SEPARATOR)[i + 1..];
    }
  }

  lemma {:induction false} JoinFirst(docs: seq<string>)
    requires |docs| >= 2
    ensures JoinDocs(docs) == docs[0] + YAML_SEPARATOR + JoinDocs(docs[1..])
  {
    var front, last := docs[..|docs| - 1], docs[|docs| - 1];
    if |docs| == 2 {
      assert front == [docs[0]] && docs[1..] == [last];
    } else {
      JoinFirst(front);
      assert docs[1..][..|docs| - 2] == front[1..];
    }
  }

  /** Splitting a partition's content at the separator gives its documents back. */
  lemma {:induction false} ReadBack(docs: seq<string>)
    requires docs != [] && forall d :: d in docs ==> NoSeparatorLine(d)
    ensures SplitDocs("", JoinDocs(docs)) == docs
  {
    assert docs[0] in docs && "" + docs[0] == docs[0];
    if |docs| == 1 {
      SplitOne("", docs[0], "");
    } else {
      JoinFirst(docs);
      SplitOne("", docs[0], JoinDocs(docs[1..]));
      ReadBack(docs[1..]);
    }
  }
}
