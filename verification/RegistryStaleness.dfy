/** The package manifests registry kept in ConfigMaps
    (internal/olm/operator/registry/configmap/configmap.go and registry.go). */
module RegistryStaleness {
  import opened Slices
  import opened Text

  /** The digest of file contents, and strings.ToLower. */
  datatype Formats = Formats(digest: string -> string, lower: string -> string)

  /** An object as YAML, if it can be marshalled. */
  datatype Object = Object(yaml: Option<string>, name: string, kind: string)

  datatype Bundle = Bundle(version: string, objects: seq<Object>)

  datatype Package = Package(name: string, yaml: Option<string>)

  /** Files by name. */
  type Files = map<string, string>

  datatype ConfigMap = ConfigMap(name: string, files: Files)

  // ----- Names for DNS-1123 -----

  predicate IsWord(c: char) {
    'a' <= c <= 'z' || 'A' <= c <= 'Z' || '0' <= c <= '9'
  }

  /** Every run of other characters becomes one dash. */
  function Dashed(s: string): string {
    if s == [] then []
    else if IsWord(s[0]) then [s[0]] + Dashed(s[1..])
    else if |s| > 1 && !IsWord(s[1]) then Dashed(s[1..])
    else "-" + Dashed(s[1..])
  }

  function TrimDashes(s: string): string {
    TrimTrailing(TrimLeading(s))
  }

  function TrimLeading(s: string): string {
    if s != [] && s[0] == '-' then TrimLeading(s[1..]) else s
  }

  function TrimTrailing(s: string): string {
    if s != [] && s[|s| - 1] == '-' then TrimTrailing(s[..|s| - 1]) else s
  }

  /** FormatOperatorNameDNS1123 */
  function FormatDns1123(name: string): string {
    if IsDns1123Label(name) then name else ToLower(TrimDashes(Dashed(name)))
  }

  /** The strings differ only where both have characters a label cannot hold. */
  predicate SameWords(a: string, b: string) {
    |a| == |b| && forall i :: 0 <= i < |a| ==> a[i] == b[i] || (!IsWord(a[i]) && !IsWord(b[i]))
  }

  lemma {:induction false} SameWordsDashed(a: string, b: string)
    requires SameWords(a, b)
    ensures Dashed(a) == Dashed(b)
  {
    if a != [] {
      SameWordsDashed(a[1..], b[1..]);
    }
  }

  /** Such names are formatted alike. */
  lemma FormattedAlike(a: string, b: string)
    requires SameWords(a, b) && !IsDns1123Label(a) && !IsDns1123Label(b)
    ensures FormatDns1123(a) == FormatDns1123(b)
  {
    SameWordsDashed(a, b);
  }

  /** What begins with a digit is formatted as something that begins with that digit. */
  lemma DigitStays(name: string)
    requires name != [] && '0' <= name[0] <= '9'
    ensures FormatDns1123(name) != [] && FormatDns1123(name)[0] == name[0]
  {
    if !IsDns1123Label(name) {
      var dashed := Dashed(name);
      assert dashed[0] == name[0] && TrimLeading(dashed) == dashed;
      FirstStays(dashed);
    }
  }

  lemma {:induction false} FirstStays(s: string)
    requires s != [] && s[0] != '-'
    ensures TrimTrailing(s) != [] && TrimTrailing(s)[0] == s[0]
  {
    if s[|s| - 1] == '-' {
      FirstStays(s[..|s| - 1]);
    }
  }

  // ----- File names -----

  function NameParts(f: Formats, names: seq<string>): string {
    if names == [] then ""
    else
      var last := names[|names| - 1];
      NameParts(f, names[..|names| - 1]) + NamePart(f, last)
  }

  function NamePart(f: Formats, name: string): string {
    if name != "" then f.lower(name) + "." else ""
  }

  function FileName(f: Formats, yaml: string, names: seq<string>): string {
    f.digest(yaml) + "." + NameParts(f, names) + "yaml"
  }

  lemma LastPart(f: Formats, names: seq<string>, i: nat)
    requires i < |names|
    ensures NameParts(f, names[..i + 1]) == NameParts(f, names[..i]) + NamePart(f, names[i])
  {
    assert names[..i + 1][..i] == names[..i];
  }

  method MakeObjectFileName(f: Formats, yaml: string, names: seq<string>) returns (fileName: string)
    ensures fileName == FileName(f, yaml, names)
  {
    fileName := AddNames(f, f.digest(yaml) + ".", names);
    fileName := fileName + "yaml";
  }

  method AddNames(f: Formats, start: string, names: seq<string>) returns (fileName: string)
    ensures fileName == start + NameParts(f, names)
  {
    fileName := start;
    ghost var parts := "";
    for i := 0 to |names|
      invariant parts == NameParts(f, names[..i]) && fileName == start + parts
    {
      LastPart(f, names, i);
      Regroup(start, parts, NamePart(f, names[i]));
      parts := parts + NamePart(f, names[i]);
      if names[i] != "" {
        fileName := fileName + (f.lower(names[i]) + ".");
      }
    }
    assert names[..|names|] == names;
  }

  // ----- The desired ConfigMaps -----

  function ObjectNames(o: Object): seq<string> {
    [o.name, o.kind]
  }

  /** None when some object cannot be marshalled. */
  function BundleFiles(f: Formats, objects: seq<Object>): Option<Files> {
    if objects == [] then Some(map[])
    else
      var last := objects[|objects| - 1];
      var rest := BundleFiles(f, objects[..|objects| - 1]);
      if rest.None? || last.yaml.None? then None
      else Some(rest.value[FileName(f, last.yaml.value, ObjectNames(last)) := last.yaml.value])
  }

  function RegistryName(pkg: Package): string {
    FormatDns1123(pkg.name) + "-registry-manifests"
  }

  function PackageMapName(pkg: Package): string {
    RegistryName(pkg) + "-package"
  }

  function BundleMapName(pkg: Package, bundle: Bundle): string {
    RegistryName(pkg) + "-" + FormatDns1123(bundle.version)
  }

  /** The name of the package's ConfigMap and of each bundle's. */
  function Names(pkg: Package, bundles: seq<Bundle>): (r: seq<string>)
    ensures |r| == |bundles| + 1
  {
    if bundles == [] then [PackageMapName(pkg)]
    else Names(pkg, bundles[..|bundles| - 1]) + [BundleMapName(pkg, bundles[|bundles| - 1])]
  }

  /** The files of each ConfigMap by name; of bundles with equal names the last one counts. */
  function Desired(f: Formats, pkg: Package, bundles: seq<Bundle>): Option<map<string, Files>> {
    if bundles == [] then
      if pkg.yaml.None? then None
      else Some(map[PackageMapName(pkg) := map[FileName(f, pkg.yaml.value, []) := pkg.yaml.value]])
    else
      var last := bundles[|bundles| - 1];
      var rest := Desired(f, pkg, bundles[..|bundles| - 1]);
      var files := BundleFiles(f, last.objects);
      if rest.None? || last.version == "" || files.None? then None
      else Some(rest.value[BundleMapName(pkg, last) := files.value])
  }

  method MakeBundleBinaryData(f: Formats, bundle: Bundle) returns (r: Option<Files>)
    ensures r == BundleFiles(f, bundle.objects)
  {
    var objects := bundle.objects;
    var binaryData: Files := map[];
    for i := 0 to |objects|
      invariant BundleFiles(f, objects[..i]) == Some(binaryData)
    {
      assert objects[..i + 1][..i] == objects[..i];
      if objects[i].yaml.None? {
        FailureStays(f, objects, i + 1);
        return None;
      }
      var fileName := MakeObjectFileName(f, objects[i].yaml.value, [objects[i].name, objects[i].kind]);
      binaryData := binaryData[fileName := objects[i].yaml.value];
    }
    assert objects[..|objects|] == objects;
    return Some(binaryData);
  }

  lemma {:induction false} FailureStays(f: Formats, objects: seq<Object>, n: nat)
    requires n <= |objects| && BundleFiles(f, objects[..n]).None?
    ensures BundleFiles(f, objects).None?
    decreases |objects|
  {
    if n == |objects| {
      assert objects[..n] == objects;
    } else {
      assert objects[..|objects| - 1][..n] == objects[..n];
      FailureStays(f, objects[..|objects| - 1], n);
    }
  }

  lemma {:induction false} DesiredFailureStays(f: Formats, pkg: Package, bundles: seq<Bundle>, n: nat)
    requires n <= |bundles| && Desired(f, pkg, bundles[..n]).None?
    ensures Desired(f, pkg, bundles).None?
    decreases |bundles|
  {
    if n == |bundles| {
      assert bundles[..n] == bundles;
    } else {
      assert bundles[..|bundles| - 1][..n] == bundles[..n];
      DesiredFailureStays(f, pkg, bundles[..|bundles| - 1], n);
    }
  }

  method MakeConfigMapsForPackageManifests(f: Formats, pkg: Package, bundles: seq<Bundle>)
    returns (r: Option<map<string, Files>>)
    ensures r == Desired(f, pkg, bundles)
  {
    if pkg.yaml.None? {
      DesiredFailureStays(f, pkg, bundles, 0);
      return None;
    }
    var name := MakeObjectFileName(f, pkg.yaml.value, []);
    var byConfigMap: map<string, Files> := map[PackageMapName(pkg) := map[name := pkg.yaml.value]];
    for i := 0 to |bundles|
      invariant Desired(f, pkg, bundles[..i]) == Some(byConfigMap)
    {
      assert bundles[..i + 1][..i] == bundles[..i];
      var files: Option<Files> := None;
      if bundles[i].version != "" {
        files := MakeBundleBinaryData(f, bundles[i]);
      }
      if files.None? {
        DesiredFailureStays(f, pkg, bundles, i + 1);
        return None;
      }
      byConfigMap := byConfigMap[BundleMapName(pkg, bundles[i]) := files.value];
    }
    assert bundles[..|bundles|] == bundles;
    return Some(byConfigMap);
  }

  // ----- The staleness check -----

  /** No earlier ConfigMap of the list has the name of the i-th. */
  predicate IsFirst(configMaps: seq<ConfigMap>, i: nat)
    requires i < |configMaps|
  {
    forall j :: 0 <= j < i ==> configMaps[j].name != configMaps[i].name
  }

  /** The i-th ConfigMap is as the check expects it: matched keys are deleted as they are met, so that
      of several ConfigMaps of one name only the first may, and the others must not, have files. */
  predicate Matches(configMaps: seq<ConfigMap>, desired: map<string, Files>, i: nat)
    requires i < |configMaps|
  {
    && configMaps[i].name in desired
    && configMaps[i].files.Keys == if IsFirst(configMaps, i) then desired[configMaps[i].name].Keys else {}
  }

  /** For each name, the files not met yet. */
  ghost predicate Unmet(left: map<string, Files>, configMaps: seq<ConfigMap>, desired: map<string, Files>, n: nat)
    requires n <= |configMaps|
  {
    && left.Keys == desired.Keys
    && forall name :: name in desired ==>
         left[name] == if exists j :: 0 <= j < n && configMaps[j].name == name then map[] else desired[name]
  }

  /** None: the check itself failed. `listed` is what listing the cluster's ConfigMaps answered. */
  method IsRegistryDataStale(f: Formats, pkg: Package, bundles: seq<Bundle>, listed: Option<seq<ConfigMap>>)
    returns (stale: Option<bool>)
    ensures stale.None? <==> listed.None? || (|listed.value| == |bundles| + 1 && Desired(f, pkg, bundles).None?)
    ensures stale == Some(false) <==>
              && listed.Some? && |listed.value| == |bundles| + 1 && Desired(f, pkg, bundles).Some?
              && forall i :: 0 <= i < |listed.value| ==> Matches(listed.value, Desired(f, pkg, bundles).value, i)
  {
    if listed.None? {
      return None;
    }
    var configMaps := listed.value;
    if |configMaps| != |bundles| + 1 {
      return Some(true);
    }
    var made := MakeConfigMapsForPackageManifests(f, pkg, bundles);
    if made.None? {
      return None;
    }
    var left := made.value;
    for i := 0 to |configMaps|
      invariant Unmet(left, configMaps, made.value, i)
      invariant forall k :: 0 <= k < i ==> Matches(configMaps, made.value, k)
    {
      var configMap := configMaps[i];
      if configMap.name !in left {
        assert !Matches(configMaps, made.value, i);
        return Some(true);
      }
      UnmetBy(left, configMaps, made.value, i);
      var same := MeetFiles(left[configMap.name], configMap.files);
      if !same {
        assert !Matches(configMaps, made.value, i);
        return Some(true);
      }
      left := left[configMap.name := map[]];
    }
    return Some(false);
  }

  lemma UnmetBy(left: map<string, Files>, configMaps: seq<ConfigMap>, desired: map<string, Files>,
                                   i: nat)
    requires i < |configMaps| && Unmet(left, configMaps, desired, i) && configMaps[i].name in desired
    ensures left[configMaps[i].name].Keys == configMaps[i].files.Keys <==> Matches(configMaps, desired, i)
    ensures Unmet(left[configMaps[i].name := map[]], configMaps, desired, i + 1)
  {
    var name := configMaps[i].name;
    assert IsFirst(configMaps, i) <==> !exists j :: 0 <= j < i && configMaps[j].name == name;
    var empty: Files := map[];
    assert empty.Keys == {};
    var left' := left[name := empty];
    forall other | other in desired
      ensures left'[other] == if exists j :: 0 <= j < i + 1 && configMaps[j].name == other then map[]
              else desired[other]
    {
      assert (exists j :: 0 <= j < i + 1 && configMaps[j].name == other) <==>
             other == name || exists j :: 0 <= j < i && configMaps[j].name == other;
    }
  }

  /** The keys of one ConfigMap, met in any order: are they the wanted ones? */
  method MeetFiles(wanted: Files, files: Files) returns (same: bool)
    ensures same <==> wanted.Keys == files.Keys
  {
    if |wanted| != |files| {
      return false;
    }
    var left := wanted;
    var keys := RangeKeys(files.Keys);
    for i := 0 to |keys|
      invariant forall k :: k in left <==> k in wanted && k !in keys[..i]
      invariant forall k :: 0 <= k < i ==> keys[k] in wanted
    {
      assert keys[..i + 1] == keys[..i] + [keys[i]];
      if keys[i] !in left {
        assert keys[i] in files;
        return false;
      }
      left := left - {keys[i]};
    }
    assert keys[..|keys|] == keys;
    return |left| == 0;
  }

  // ----- Creating the registry -----

  /** The ConfigMaps are those of `desired`, each once. */
  ghost predicate Holds(configMaps: seq<ConfigMap>, desired: map<string, Files>) {
    && NoDup(MapNames(configMaps))
    && (forall name :: name in MapNames(configMaps) <==> name in desired)
    && forall i :: 0 <= i < |configMaps| ==>
         configMaps[i].name in desired && configMaps[i].files == desired[configMaps[i].name]
  }

  function MapNames(configMaps: seq<ConfigMap>): seq<string> {
    seq(|configMaps|, i requires 0 <= i < |configMaps| => configMaps[i].name)
  }

  /** The ConfigMaps CreatePackageManifestsRegistry makes, in the order the map was ranged over. */
  method MakeRegistryConfigMaps(f: Formats, pkg: Package, bundles: seq<Bundle>) returns (r: Option<seq<ConfigMap>>)
    ensures r.None? <==> Desired(f, pkg, bundles).None?
    ensures r.Some? ==> Holds(r.value, Desired(f, pkg, bundles).value)
  {
    var made := MakeConfigMapsForPackageManifests(f, pkg, bundles);
    if made.None? {
      return None;
    }
    var names := RangeKeys(made.value.Keys);
    var objs := [];
    for i := 0 to |names|
      invariant |objs| == i
      invariant forall k :: 0 <= k < i ==>
                  names[k] in made.value && objs[k] == ConfigMap(names[k], made.value[names[k]])
    {
      assert names[i] in made.value.Keys;
      objs := objs + [ConfigMap(names[i], made.value[names[i]])];
    }
    assert MapNames(objs) == names;
    return Some(objs);
  }

  // ----- What the check means -----

  ghost predicate Passes(f: Formats, pkg: Package, bundles: seq<Bundle>, configMaps: seq<ConfigMap>)
    requires Desired(f, pkg, bundles).Some?
  {
    && |configMaps| == |bundles| + 1
    && forall i :: 0 <= i < |configMaps| ==> Matches(configMaps, Desired(f, pkg, bundles).value, i)
  }

  lemma {:induction false} DesiredNames(f: Formats, pkg: Package, bundles: seq<Bundle>)
    requires Desired(f, pkg, bundles).Some?
    ensures forall name :: name in Desired(f, pkg, bundles).value <==> name in Names(pkg, bundles)
  {
    if bundles != [] {
      DesiredNames(f, pkg, bundles[..|bundles| - 1]);
    }
  }

  lemma DistinctNames(names: seq<string>, all: set<string>)
    requires forall x :: x in names <==> x in all
    ensures |all| <= |names|
    ensures NoDup(names) <==> |all| == |names|
  {
    if NoDup(names) {
      NoDupCardinality(names, all);
    } else {
      var i, j :| 0 <= i < j < |names| && names[i] == names[j];
      var fewer := names[..j] + names[j + 1..];
      assert names == names[..j] + [names[j]] + names[j + 1..];
      assert names[j] == fewer[i];
      AtMost(fewer, all);
    }
  }

  lemma {:induction false} AtMost(names: seq<string>, all: set<string>)
    requires forall x :: x in all ==> x in names
    ensures |all| <= |names|
  {
    if names == [] {
      assert all == {};
    } else {
      AtMost(names[1..], all - {names[0]});
    }
  }

  /** With distinct names on the cluster, data is not stale exactly when the desired names are distinct, they
      are the names on the cluster, and each ConfigMap has exactly the desired file names. */
  lemma NotStaleIff(f: Formats, pkg: Package, bundles: seq<Bundle>, configMaps: seq<ConfigMap>)
    requires Desired(f, pkg, bundles).Some? && NoDup(MapNames(configMaps))
    ensures var desired := Desired(f, pkg, bundles).value;
            Passes(f, pkg, bundles, configMaps) <==>
            && NoDup(Names(pkg, bundles))
            && (forall name :: name in MapNames(configMaps) <==> name in desired)
            && forall i :: 0 <= i < |configMaps| ==>
                 configMaps[i].name in desired && configMaps[i].files.Keys == desired[configMaps[i].name].Keys
  {
    var desired := Desired(f, pkg, bundles).value;
    var listed := MapNames(configMaps);
    var onCluster := set i | 0 <= i < |listed| :: listed[i];
    DesiredNames(f, pkg, bundles);
    DistinctNames(Names(pkg, bundles), desired.Keys);
    NoDupCardinality(listed, onCluster);
    MatchesIff(configMaps, desired);
    if Passes(f, pkg, bundles, configMaps) {
      assert forall i :: 0 <= i < |listed| ==> listed[i] == configMaps[i].name && listed[i] in desired;
      Subset(onCluster, desired.Keys);
    } else if forall name :: name in listed <==> name in desired {
      assert onCluster == desired.Keys;
    }
  }

  lemma MatchesIff(configMaps: seq<ConfigMap>, desired: map<string, Files>)
    requires NoDup(MapNames(configMaps))
    ensures forall i :: 0 <= i < |configMaps| ==>
              (Matches(configMaps, desired, i) <==>
               configMaps[i].name in desired && configMaps[i].files.Keys == desired[configMaps[i].name].Keys)
  {
    forall i, j | 0 <= j < i < |configMaps|
      ensures configMaps[j].name != configMaps[i].name
    {
      assert MapNames(configMaps)[j] != MapNames(configMaps)[i];
    }
  }

  lemma Subset(a: set<string>, b: set<string>)
    requires a <= b && |a| >= |b|
    ensures a == b
  {
    assert |b - a| == |b| - |a|;
  }

  /** Data just created is not stale, unless two ConfigMap names collide; then it is stale for ever. */
  lemma FreshDataIff(f: Formats, pkg: Package, bundles: seq<Bundle>, configMaps: seq<ConfigMap>)
    requires Desired(f, pkg, bundles).Some? && Holds(configMaps, Desired(f, pkg, bundles).value)
    ensures Passes(f, pkg, bundles, configMaps) <==> NoDup(Names(pkg, bundles))
  {
    NotStaleIff(f, pkg, bundles, configMaps);
  }

  /** Names collide exactly when two versions are formatted alike or one is formatted "package". */
  lemma CollisionIff(pkg: Package, bundles: seq<Bundle>)
    ensures NoDup(Names(pkg, bundles)) <==>
            && (forall i, j :: 0 <= i < j < |bundles| ==>
                  FormatDns1123(bundles[i].version) != FormatDns1123(bundles[j].version))
            && (forall i :: 0 <= i < |bundles| ==> FormatDns1123(bundles[i].version) != "package")
  {
    var names := Names(pkg, bundles);
    var prefix := RegistryName(pkg) + "-";
    forall i | 0 <= i < |names|
      ensures names[i] == prefix + Suffix(bundles, i)
    {
      NameAt(pkg, bundles, i);
    }
    assert forall a: string, b: string :: prefix + a == prefix + b ==> a == b by {
      forall a: string, b: string | prefix + a == prefix + b
        ensures a == b
      {
        assert a == (prefix + a)[|prefix|..] && b == (prefix + b)[|prefix|..];
      }
    }
    if NoDup(names) {
      forall i, j | 0 <= i < j < |bundles|
        ensures FormatDns1123(bundles[i].version) != FormatDns1123(bundles[j].version)
      {
        assert names[i + 1] != names[j + 1];
      }
      forall i | 0 <= i < |bundles|
        ensures FormatDns1123(bundles[i].version) != "package"
      {
        assert names[0] != names[i + 1];
      }
    }
  }

  /** Semantic versions begin with a digit, so that only their formatted forms can collide. */
  lemma VersionCollisionIff(pkg: Package, bundles: seq<Bundle>)
    requires forall i :: 0 <= i < |bundles| ==> bundles[i].version != "" && '0' <= bundles[i].version[0] <= '9'
    ensures NoDup(Names(pkg, bundles)) <==>
            forall i, j :: 0 <= i < j < |bundles|
              ==> FormatDns1123(bundles[i].version) != FormatDns1123(bundles[j].version)
  {
    CollisionIff(pkg, bundles);
    forall i | 0 <= i < |bundles|
      ensures FormatDns1123(bundles[i].version) != "package"
    {
      DigitStays(bundles[i].version);
    }
  }

  /** A pre-release and a build of one version: whatever is on the cluster, the registry is stale. */
  lemma PreReleaseAndBuildCollide(f: Formats, pkg: Package, bundles: seq<Bundle>,
                                                     configMaps: seq<ConfigMap>)
    requires |bundles| == 2 && bundles[0].version == "1.0.0-a" && bundles[1].version == "1.0.0+a"
    requires Desired(f, pkg, bundles).Some? && NoDup(MapNames(configMaps))
    ensures !Passes(f, pkg, bundles, configMaps)
  {
    var a, b := bundles[0].version, bundles[1].version;
    assert a[1] == '.' && b[1] == '.';
    FormattedAlike(a, b);
    CollisionIff(pkg, bundles);
    NotStaleIff(f, pkg, bundles, configMaps);
  }

  function Suffix(bundles: seq<Bundle>, i: nat): string
    requires i <= |bundles|
  {
    if i == 0 then "package" else FormatDns1123(bundles[i - 1].version)
  }

  lemma {:induction false} NameAt(pkg: Package, bundles: seq<Bundle>, i: nat)
    requires i <= |bundles|
    ensures Names(pkg, bundles)[i] == RegistryName(pkg) + "-" + Suffix(bundles, i)
  {
    if i < |bundles| {
      NameAt(pkg, bundles[..|bundles| - 1], i);
    }
    if i == 0 {
      assert "-package" == "-" + "package";
    }
  }

  // ----- From file names to contents -----

  /** Digests tell contents apart and, being base32, hold no dot. */
  ghost predicate SoundDigest(f: Formats) {
    && (forall a, b :: f.digest(a) == f.digest(b) ==> a == b)
    && (forall a :: '.' !in f.digest(a))
  }

  ghost predicate IsFileName(f: Formats, key: string, yaml: string) {
    exists names :: key == FileName(f, yaml, names)
  }

  /** Every file is stored under a name made from its contents. */
  ghost predicate WellKeyed(f: Formats, files: Files) {
    forall key :: key in files ==> IsFileName(f, key, files[key])
  }

  lemma SameDigest(a: string, restA: string, b: string, restB: string)
    requires '.' !in a && '.' !in b && a + "." + restA == b + "." + restB
    ensures a == b
  {
    var whole := a + "." + restA;
    assert whole[|a|] == '.' && whole[|b|] == '.';
    assert forall k :: 0 <= k < |a| ==> whole[k] == a[k] && whole[k] != '.';
    assert forall k :: 0 <= k < |b| ==> whole[k] == b[k] && whole[k] != '.';
    assert a == whole[..|a|] && b == whole[..|b|];
  }

  lemma NameFixesContents(f: Formats, key: string, a: string, b: string)
    requires SoundDigest(f) && IsFileName(f, key, a) && IsFileName(f, key, b)
    ensures a == b
  {
    var namesA :| key == FileName(f, a, namesA);
    var namesB :| key == FileName(f, b, namesB);
    Regroup(f.digest(a) + ".", NameParts(f, namesA), "yaml");
    Regroup(f.digest(b) + ".", NameParts(f, namesB), "yaml");
    SameDigest(f.digest(a), NameParts(f, namesA) + "yaml", f.digest(b), NameParts(f, namesB) + "yaml");
  }

  lemma {:induction false} BundleWellKeyed(f: Formats, objects: seq<Object>)
    requires BundleFiles(f, objects).Some?
    ensures WellKeyed(f, BundleFiles(f, objects).value)
  {
    if objects != [] {
      BundleWellKeyed(f, objects[..|objects| - 1]);
    }
  }

  lemma {:induction false} DesiredWellKeyed(f: Formats, pkg: Package, bundles: seq<Bundle>, name: string)
    requires Desired(f, pkg, bundles).Some? && name in Desired(f, pkg, bundles).value
    ensures WellKeyed(f, Desired(f, pkg, bundles).value[name])
  {
    if bundles != [] {
      var last := bundles[|bundles| - 1];
      BundleWellKeyed(f, last.objects);
      if name != BundleMapName(pkg, last) {
        DesiredWellKeyed(f, pkg, bundles[..|bundles| - 1], name);
      }
    }
  }

  /** Data that is not stale holds the desired contents, though only names were compared. */
  lemma NotStaleSameContents(f: Formats, pkg: Package, bundles: seq<Bundle>,
                                                configMaps: seq<ConfigMap>, i: nat)
    requires Desired(f, pkg, bundles).Some? && NoDup(MapNames(configMaps)) && Passes(f, pkg, bundles, configMaps)
    requires i < |configMaps| && SoundDigest(f) && WellKeyed(f, configMaps[i].files)
    ensures configMaps[i].name in Desired(f, pkg, bundles).value
    ensures configMaps[i].files == Desired(f, pkg, bundles).value[configMaps[i].name]
  {
    NotStaleIff(f, pkg, bundles, configMaps);
    var files, wanted := configMaps[i].files, Desired(f, pkg, bundles).value[configMaps[i].name];
    DesiredWellKeyed(f, pkg, bundles, configMaps[i].name);
    assert files.Keys == wanted.Keys;
    forall key | key in files
      ensures key in wanted && files[key] == wanted[key]
    {
      assert key in wanted.Keys;
      NameFixesContents(f, key, files[key], wanted[key]);
    }
  }
}
