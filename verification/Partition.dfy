/** Packing file-based catalog documents into ConfigMaps
    (internal/olm/operator/registry/fbcindex/fbc_registry_pod.go and configMapWriter.go). */
module Partition {
  import opened Slices
  import opened Text
  import opened GreedyPacking

  const YAML_SEPARATOR := "\n---\n"
  const MAX_CONFIG_MAP_SIZE := 1048576
  const GZIP_SUFFIX_LENGTH := 13
  const MAX_GZIP_LENGTH := MAX_CONFIG_MAP_SIZE - GZIP_SUFFIX_LENGTH

  // ----- gzip, seen from outside -----

  /** What a gzip writer was told to do since its last reset. */
  datatype Op = Write(data: string) | Flush

  function Bytes(ops: seq<Op>): string {
    if ops == [] then ""
    else Bytes(ops[..|ops| - 1]) + match ops[|ops| - 1] case Write(d) => d case Flush => ""
  }

  /** Sizes as functions of what was written: the length of the writer's buffer so far,
      its length once the writer is closed, and the size of a ConfigMap without data. */
  datatype Sizes = Sizes(buffered: seq<Op> -> nat, closed: seq<Op> -> nat, emptyMap: string -> nat)

  predicate OnlyWrites(ops: seq<Op>) {
    forall i :: 0 <= i < |ops| ==> ops[i].Write?
  }

  /** The buffer is empty until the first operation, which writes the gzip header. */
  ghost predicate HeaderFirst(sizes: Sizes) {
    forall ops :: sizes.buffered(ops) == 0 <==> ops == []
  }

  /** Closing adds at most 13 bytes to what a flushed writer holds of the same bytes. */
  ghost predicate SuffixBound(sizes: Sizes) {
    forall flushed, written ::
      flushed != [] && flushed[|flushed| - 1] == Flush && OnlyWrites(written) && Bytes(flushed) == Bytes(written)
      ==> sizes.closed(written) <= sizes.buffered(flushed) + GZIP_SUFFIX_LENGTH
  }

  /** A ConfigMap; its data is the closed gzip stream of the operations listed. */
  class ConfigMap {
    const name: string
    var binaryData: Option<seq<Op>>

    constructor (name: string)
      ensures this.name == name && binaryData == None
    {
      this.name := name;
      binaryData := None;
    }
  }

  /** gzipCMWriter: what the actual and the helper writer have received. */
  class GzipCmWriter {
    const sizes: Sizes
    var actual: seq<Op>
    var helper: seq<Op>

    constructor (sizes: Sizes)
      ensures this.sizes == sizes && actual == [] && helper == []
    {
      this.sizes := sizes;
      actual, helper := [], [];
    }

    method Reset()
      modifies this
      ensures actual == [] && helper == []
    {
      actual, helper := [], [];
    }

    /** As in the source, true when the buffer has content. */
    predicate IsEmpty()
      reads this
    {
      sizes.buffered(actual) > 0
    }

    method ExceedMaxLength(cmSize: nat, data: string) returns (exceeded: bool)
      modifies this`helper
      ensures helper == old(helper) + [Write(data), Flush]
      ensures exceeded <==> cmSize + sizes.buffered(helper) > MAX_GZIP_LENGTH
    {
      helper := helper + [Write(data)];
      helper := helper + [Flush];
      assert helper == old(helper) + [Write(data), Flush];
      exceeded := cmSize + sizes.buffered(helper) > MAX_GZIP_LENGTH;
    }

    method CloseCm(cm: ConfigMap)
      modifies this, cm
      ensures cm.binaryData == Some(old(actual))
      ensures actual == [] && helper == []
    {
      cm.binaryData := Some(actual);
      Reset();
    }

    method AddData(data: string)
      modifies this
      ensures helper == old(helper) + [Write(data)] && actual == old(actual) + [Write(data)]
    {
      helper := helper + [Write(data)];
      actual := actual + [Write(data)];
    }

    /** Completes what ExceedMaxLength has started. */
    method ContinueAddData(data: string)
      modifies this`actual
      ensures actual == old(actual) + [Write(data)]
    {
      actual := actual + [Write(data)];
    }

    method WriteLastFragment(cm: ConfigMap)
      modifies cm
      ensures cm.binaryData == Some(actual)
    {
      cm.binaryData := Some(actual);
    }
  }

  // ----- Documents -----

  /** A definition, trimmed, unless it is empty then. */
  function Doc(yamlDef: string): seq<string> {
    if TrimSpace(yamlDef) == "" then [] else [TrimSpace(yamlDef)]
  }

  /** The documents in the first n definitions. */
  function Docs(yamlDefs: seq<string>, n: nat): seq<string>
    requires n <= |yamlDefs|
  {
    if n == 0 then [] else Docs(yamlDefs, n - 1) + Doc(yamlDefs[n - 1])
  }

  /** The documents are, in order, the definitions that are not blank, each without the white space around it. */
  ghost predicate AreDocuments(docs: seq<string>, yamlDefs: seq<string>) {
    Picked(yamlDefs, NotBlank, IsTrimmed, docs)
  }

  lemma {:induction false} DocsRead(yamlDefs: seq<string>, n: nat)
    requires n <= |yamlDefs|
    ensures AreDocuments(Docs(yamlDefs, n), yamlDefs[..n])
  {
    if n > 0 {
      DocsRead(yamlDefs, n - 1);
      DocRead(yamlDefs[..n - 1], yamlDefs[n - 1], Docs(yamlDefs, n - 1));
      assert yamlDefs[..n] == yamlDefs[..n - 1] + [yamlDefs[n - 1]];
    }
  }

  lemma DocRead(front: seq<string>, last: string, docs: seq<string>)
    requires AreDocuments(docs, front)
    ensures AreDocuments(docs + Doc(last), front + [last])
  {
    TrimIff(last, TrimSpace(last));
    PickedNext(front, last, NotBlank, IsTrimmed, docs, TrimSpace(last));
    assert docs + [] == docs;
  }

  /** table[n] lists the documents in the first n definitions. */
  ghost predicate IsTable(table: seq<seq<string>>, yamlDefs: seq<string>) {
    |table| == |yamlDefs| + 1 && table[0] == [] && forall i: nat :: i < |yamlDefs| ==> NextDoc(table, yamlDefs, i)
  }

  ghost predicate NextDoc(table: seq<seq<string>>, yamlDefs: seq<string>, i: nat)
    requires i < |yamlDefs| && i + 1 < |table|
  {
    table[i + 1] == table[i] + Doc(yamlDefs[i])
  }

  lemma DocTable(yamlDefs: seq<string>) returns (table: seq<seq<string>>)
    ensures IsTable(table, yamlDefs) && table[|yamlDefs|] == Docs(yamlDefs, |yamlDefs|)
  {
    table := seq(|yamlDefs| + 1, n requires 0 <= n <= |yamlDefs| => Docs(yamlDefs, n));
  }

  function Itoa(n: nat): string {
    if n < 10 then ['0' + n as char] else Itoa(n / 10) + ['0' + (n % 10) as char]
  }

  function PartitionName(configMapName: string, k: nat): string {
    configMapName + "-partition-" + Itoa(k)
  }

  // ----- What a packing is -----

  /** The operations of the actual writer for a partition of these documents. */
  function ActualOps(docs: seq<string>): seq<Op> {
    if docs == [] then []
    else ActualOps(docs[..|docs| - 1]) + [Write(if |docs| == 1 then docs[0] else YAML_SEPARATOR + docs[|docs| - 1])]
  }

  /** The operations of the helper writer; all but the first document are probed and flushed. */
  function HelperOps(docs: seq<string>): seq<Op> {
    if docs == [] then []
    else if |docs| == 1 then [Write(docs[0])]
    else HelperOps(docs[..|docs| - 1]) + [Write(YAML_SEPARATOR + docs[|docs| - 1]), Flush]
  }

  /** The size probe made before the last of the documents is added. */
  predicate Fits(sizes: Sizes, name: string, docs: seq<string>) {
    sizes.emptyMap(name) + sizes.buffered(HelperOps(docs)) <= MAX_GZIP_LENGTH
  }

  /** What finds room in the ConfigMap of partition k, counted from 0. */
  ghost function RoomFor(sizes: Sizes, configMapName: string): Room {
    (k: nat, docs: seq<string>) => Fits(sizes, PartitionName(configMapName, k + 1), docs)
  }

  // ----- The packing loop -----

  class FbcRegistryPod {
    const configMapName: string
    const cmWriter: GzipCmWriter

    constructor (configMapName: string, cmWriter: GzipCmWriter)
      ensures this.configMapName == configMapName && this.cmWriter == cmWriter
    {
      this.configMapName := configMapName;
      this.cmWriter := cmWriter;
    }

    /** The closed ConfigMaps hold all partitions but the last, and both writers the last one. */
    ghost predicate Loaded(configMaps: seq<ConfigMap>, parts: seq<seq<string>>)
      reads cmWriter, configMaps
    {
      && Closed(configMaps, parts)
      && cmWriter.actual == ActualOps(Last(parts))
      && cmWriter.helper == HelperOps(Last(parts))
    }

    ghost predicate Closed(configMaps: seq<ConfigMap>, parts: seq<seq<string>>)
      reads configMaps
    {
      && |configMaps| == |parts| > 0 && NoDup(configMaps)
      && (forall k :: 0 <= k < |parts| ==> configMaps[k].name == PartitionName(configMapName, k + 1))
      && (forall k :: 0 <= k < |parts| - 1 ==> configMaps[k].binaryData == Some(ActualOps(parts[k])))
    }

    method GetConfigMaps(yamlDefs: seq<string>) returns (configMaps: seq<ConfigMap>, ghost parts: seq<seq<string>>)
      requires HeaderFirst(cmWriter.sizes)
      requires cmWriter.actual == [] && cmWriter.helper == []
      modifies cmWriter
      ensures |configMaps| == |parts| && forall k :: 0 <= k < |configMaps| ==> fresh(configMaps[k])
      ensures AreDocuments(Flatten(parts), yamlDefs)
      ensures Packing(RoomFor(cmWriter.sizes, configMapName), parts)
      ensures forall k :: 0 <= k < |parts| ==> configMaps[k].name == PartitionName(configMapName, k + 1)
                                               && configMaps[k].binaryData == Some(ActualOps(parts[k]))
      ensures cmWriter.actual == [] && cmWriter.helper == []
    {
      ghost var table := DocTable(yamlDefs);
      configMaps, parts := PackAll(yamlDefs, table);
      LastConfigMap(configMaps, parts);
      DocsRead(yamlDefs, |yamlDefs|);
      assert yamlDefs[..|yamlDefs|] == yamlDefs;
    }

    /** The ConfigMaps and the writers hold a greedy packing of the documents. */
    ghost predicate Packed(configMaps: seq<ConfigMap>, parts: seq<seq<string>>, docs: seq<string>)
      reads cmWriter, configMaps
    {
      && Loaded(configMaps, parts)
      && Packing(RoomFor(cmWriter.sizes, configMapName), parts)
      && Flatten(parts) == docs
    }

    /** For each chunk of yaml see if it can be added to the current partition. */
    method PackAll(yamlDefs: seq<string>, ghost table: seq<seq<string>>)
      returns (configMaps: seq<ConfigMap>, ghost parts: seq<seq<string>>)
      requires HeaderFirst(cmWriter.sizes) && IsTable(table, yamlDefs)
      requires cmWriter.actual == [] && cmWriter.helper == []
      modifies cmWriter
      ensures forall k :: 0 <= k < |configMaps| ==> fresh(configMaps[k])
      ensures Packed(configMaps, parts, table[|yamlDefs|])
    {
      configMaps, parts := FirstConfigMap();
      for i := 0 to |yamlDefs|
        invariant forall k :: 0 <= k < |configMaps| ==> fresh(configMaps[k])
        invariant Packed(configMaps, parts, table[i])
      {
        assert NextDoc(table, yamlDefs, i);
        configMaps, parts := AddDefinition(yamlDefs[i], configMaps, parts, table[i], table[i + 1]);
      }
    }

    /** The loop body: an empty definition is skipped. */
    method AddDefinition(definition: string, configMaps: seq<ConfigMap>, ghost parts: seq<seq<string>>,
                         ghost docs: seq<string>, ghost docs': seq<string>)
      returns (configMaps': seq<ConfigMap>, ghost parts': seq<seq<string>>)
      requires HeaderFirst(cmWriter.sizes) && Packed(configMaps, parts, docs) && docs' == docs + Doc(definition)
      modifies cmWriter, configMaps[|configMaps| - 1]
      ensures Packed(configMaps', parts', docs')
      ensures configMaps <= configMaps'
      ensures forall k :: |configMaps| <= k < |configMaps'| ==> fresh(configMaps'[k])
    {
      configMaps', parts' := configMaps, parts;
      var yamlDef := TrimSpace(definition);
      if |yamlDef| != 0 {
        configMaps', parts' := AddDocument(yamlDef, configMaps, parts);
      }
    }

    method FirstConfigMap() returns (configMaps: seq<ConfigMap>, ghost parts: seq<seq<string>>)
      requires cmWriter.actual == [] && cmWriter.helper == []
      ensures Packed(configMaps, parts, [])
      ensures |configMaps| == 1 && fresh(configMaps[0])
    {
      var cm := new ConfigMap(PartitionName(configMapName, 1));
      configMaps, parts := [cm], [[]];
      FlattenSnoc<string>([], []);
      assert [] + [[]] == parts;
    }

    /** Writes the last partition and resets the writer. */
    method LastConfigMap(configMaps: seq<ConfigMap>, ghost parts: seq<seq<string>>)
      requires Loaded(configMaps, parts)
      modifies cmWriter, configMaps
      ensures forall k :: 0 <= k < |parts| ==> configMaps[k].name == PartitionName(configMapName, k + 1)
                                               && configMaps[k].binaryData == Some(ActualOps(parts[k]))
      ensures cmWriter.actual == [] && cmWriter.helper == []
    {
      cmWriter.WriteLastFragment(configMaps[|configMaps| - 1]);
      cmWriter.Reset();
    }

    /** The loop body, for one trimmed, non-empty document. */
    method AddDocument(yamlDef: string, configMaps: seq<ConfigMap>, ghost parts: seq<seq<string>>)
      returns (configMaps': seq<ConfigMap>, ghost parts': seq<seq<string>>)
      requires HeaderFirst(cmWriter.sizes) && Loaded(configMaps, parts)
               && Packing(RoomFor(cmWriter.sizes, configMapName), parts)
      modifies cmWriter, configMaps[|configMaps| - 1]
      ensures Loaded(configMaps', parts') && Packing(RoomFor(cmWriter.sizes, configMapName), parts')
      ensures Flatten(parts') == Flatten(parts) + [yamlDef]
      ensures configMaps <= configMaps'
      ensures forall k :: |configMaps| <= k < |configMaps'| ==> fresh(configMaps'[k])
    {
      ghost var fits, last := RoomFor(cmWriter.sizes, configMapName), Last(parts);
      ExtendOps(last, yamlDef);
      if cmWriter.IsEmpty() {
        var cm := configMaps[|configMaps| - 1];
        var data := YAML_SEPARATOR + yamlDef;
        var exceeded := cmWriter.ExceedMaxLength(cmWriter.sizes.emptyMap(cm.name), data);
        assert exceeded <==> !fits(|parts| - 1, last + [yamlDef]);
        if exceeded {
          BeginPart(fits, parts, yamlDef);
          parts' := parts + [[yamlDef]];
          configMaps' := NextConfigMap(cm, yamlDef, configMaps, parts);
          return;
        }
        cmWriter.ContinueAddData(data);
      } else {
        cmWriter.AddData(yamlDef);
      }
      ExtendPart(fits, parts, yamlDef);
      configMaps', parts' := configMaps, ExtendLast(parts, yamlDef);
    }

    /** Closes the current ConfigMap and begins the next one with the document. */
    method NextConfigMap(cm: ConfigMap, yamlDef: string, configMaps: seq<ConfigMap>, ghost parts: seq<seq<string>>)
      returns (configMaps': seq<ConfigMap>)
      requires Closed(configMaps, parts) && cm == configMaps[|configMaps| - 1]
      requires cmWriter.actual == ActualOps(Last(parts))
      modifies cmWriter, cm
      ensures Loaded(configMaps', parts + [[yamlDef]])
      ensures configMaps <= configMaps' && fresh(configMaps'[|configMaps|])
    {
      cmWriter.CloseCm(cm);
      var next := new ConfigMap(PartitionName(configMapName, |configMaps| + 1));
      configMaps' := configMaps + [next];
      cmWriter.AddData(yamlDef);
      ExtendOps([], yamlDef);
    }
  }

  lemma ExtendOps(docs: seq<string>, doc: string)
    ensures docs != [] ==> ActualOps(docs + [doc]) == ActualOps(docs) + [Write(YAML_SEPARATOR + doc)]
    ensures docs != [] ==> HelperOps(docs + [doc]) == HelperOps(docs) + [Write(YAML_SEPARATOR + doc), Flush]
    ensures docs == [] ==> ActualOps(docs + [doc]) == [Write(doc)] == HelperOps(docs + [doc])
    ensures ActualOps([doc]) == [Write(doc)] == HelperOps([doc])
    ensures ActualOps(docs) == [] <==> docs == []
  {
    assert (docs + [doc])[..|docs + [doc]| - 1] == docs;
  }
}
