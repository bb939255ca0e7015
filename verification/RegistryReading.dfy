/** The names and files of the registry's ConfigMaps, read off the package, the bundles and their objects. */
module RegistryReading {
  import opened Slices
  import opened Text
  import opened RegistryStaleness

  // ----- Names for DNS-1123 -----

  ghost predicate AllWord(s: string) {
    forall c :: c in s ==> 'a' <= c <= 'z' || 'A' <= c <= 'Z' || '0' <= c <= '9'
  }

  ghost predicate NoWord(s: string) {
    forall c :: c in s ==> !('a' <= c <= 'z' || 'A' <= c <= 'Z' || '0' <= c <= '9')
  }

  /** The words of the text and the gaps before, between and after them. */
  ghost predicate AreWords(words: seq<string>, gaps: seq<string>) {
    && |gaps| == |words| + 1
    && (forall i :: 0 <= i < |words| ==> words[i] != "" && AllWord(words[i]))
    && (forall i :: 0 <= i < |gaps| ==> NoWord(gaps[i]))
    && forall i :: 0 < i < |words| ==> gaps[i] != ""
  }

  /** Gaps and words one after the other. */
  ghost function Woven(words: seq<string>, gaps: seq<string>): string
    requires |gaps| == |words| + 1
  {
    if words == [] then gaps[0] else gaps[0] + words[0] + Woven(words[1..], gaps[1..])
  }

  ghost function Dash(gap: string): string {
    if gap == "" then "" else "-"
  }

  /** The words joined by dashes, with a dash before and after them where there is a gap. */
  ghost function WithDashes(words: seq<string>, gaps: seq<string>): string
    requires |gaps| == |words| + 1
  {
    if words == [] then Dash(gaps[0]) else Dash(gaps[0]) + Join(words, "-") + Dash(gaps[|words|])
  }

  lemma {:induction false} DashedWords(s: string) returns (words: seq<string>, gaps: seq<string>)
    ensures AreWords(words, gaps) && Woven(words, gaps) == s
    ensures Dashed(s) == WithDashes(words, gaps)
  {
    if s == "" {
      words, gaps := [], [""];
    } else {
      words, gaps := DashedWords(s[1..]);
      assert s == [s[0]] + s[1..];
      if IsWord(s[0]) {
        words, gaps := BeginWord(s[0], s[1..], words, gaps);
      } else {
        words, gaps := BeginGap(s[0], s[1..], words, gaps);
      }
    }
  }

  lemma BeginWord(c: char, rest: string, words: seq<string>, gaps: seq<string>)
    returns (words': seq<string>, gaps': seq<string>)
    requires IsWord(c) && AreWords(words, gaps) && Woven(words, gaps) == rest
    ensures AreWords(words', gaps') && Woven(words', gaps') == [c] + rest
    ensures WithDashes(words', gaps') == [c] + WithDashes(words, gaps)
  {
    if words != [] && gaps[0] == "" {
      words', gaps' := [[c] + words[0]] + words[1..], gaps;
      LongerWord(c, words, gaps);
    } else {
      words', gaps' := [[c]] + words, [""] + gaps;
      NewWord(c, words, gaps);
    }
  }

  lemma LongerWord(c: char, words: seq<string>, gaps: seq<string>)
    requires IsWord(c) && AreWords(words, gaps) && words != [] && gaps[0] == ""
    ensures var words' := [[c] + words[0]] + words[1..];
            && AreWords(words', gaps) && Woven(words', gaps) == [c] + Woven(words, gaps)
            && WithDashes(words', gaps) == [c] + WithDashes(words, gaps)
  {
    WordsStay(c, words, gaps);
    LongerWoven(c, words, gaps);
    LongerJoin(c, words);
  }

  lemma WordsStay(c: char, words: seq<string>, gaps: seq<string>)
    requires IsWord(c) && AreWords(words, gaps) && words != []
    ensures AreWords([[c] + words[0]] + words[1..], gaps)
  {
    var words' := [[c] + words[0]] + words[1..];
    assert forall i :: 0 < i < |words'| ==> words'[i] == words[i];
    assert AllWord(words'[0]) by { assert AllWord(words[0]); }
  }

  lemma LongerWoven(c: char, words: seq<string>, gaps: seq<string>)
    requires |gaps| == |words| + 1 && words != [] && gaps[0] == ""
    ensures Woven([[c] + words[0]] + words[1..], gaps) == [c] + Woven(words, gaps)
  {
    var words' := [[c] + words[0]] + words[1..];
    assert words'[1..] == words[1..];
    var rest := Woven(words[1..], gaps[1..]);
    assert "" + ([c] + words[0]) + rest == [c] + ("" + words[0] + rest);
  }

  lemma LongerJoin(c: char, words: seq<string>)
    requires words != []
    ensures Join([[c] + words[0]] + words[1..], "-") == [c] + Join(words, "-")
  {
    var words' := [[c] + words[0]] + words[1..];
    assert words'[1..] == words[1..] && words'[0] == [c] + words[0];
    if |words| > 1 {
      var rest := Join(words[1..], "-");
      Regroup([c], words[0], "-");
      Regroup([c], words[0] + "-", rest);
      assert Join(words, "-") == words[0] + "-" + rest;
    }
  }

  lemma NewWord(c: char, words: seq<string>, gaps: seq<string>)
    requires IsWord(c) && AreWords(words, gaps) && (words == [] || gaps[0] != "")
    ensures var words', gaps' := [[c]] + words, [""] + gaps;
            && AreWords(words', gaps') && Woven(words', gaps') == [c] + Woven(words, gaps)
            && WithDashes(words', gaps') == [c] + WithDashes(words, gaps)
  {
    var words', gaps' := [[c]] + words, [""] + gaps;
    assert words'[1..] == words && gaps'[1..] == gaps;
    assert forall i :: 0 < i < |words'| ==> words'[i] == words[i - 1];
    assert forall i :: 0 < i < |gaps'| ==> gaps'[i] == gaps[i - 1];
    if words != [] {
      assert Join(words', "-") == [c] + "-" + Join(words, "-");
    }
  }

  lemma BeginGap(c: char, rest: string, words: seq<string>, gaps: seq<string>)
    returns (words': seq<string>, gaps': seq<string>)
    requires !IsWord(c) && AreWords(words, gaps) && Woven(words, gaps) == rest
    ensures AreWords(words', gaps') && Woven(words', gaps') == [c] + rest
    ensures WithDashes(words', gaps') ==
            if rest != "" && !IsWord(rest[0]) then WithDashes(words, gaps) else "-" + WithDashes(words, gaps)
  {
    words', gaps' := words, [[c] + gaps[0]] + gaps[1..];
    LongerGap(c, words, gaps);
    if gaps[0] != "" {
      assert rest[0] == gaps[0][0] && gaps[0][0] in gaps[0];
    } else if words != [] {
      assert rest[0] == words[0][0] && words[0][0] in words[0];
    }
  }

  lemma LongerGap(c: char, words: seq<string>, gaps: seq<string>)
    requires !IsWord(c) && AreWords(words, gaps)
    ensures var gaps' := [[c] + gaps[0]] + gaps[1..];
            && AreWords(words, gaps') && Woven(words, gaps') == [c] + Woven(words, gaps)
            && WithDashes(words, gaps') ==
               if gaps[0] != "" then WithDashes(words, gaps) else "-" + WithDashes(words, gaps)
  {
    GapsStay(c, words, gaps);
    WiderWoven(c, words, gaps);
    WiderDashes(c, words, gaps);
  }

  lemma GapsStay(c: char, words: seq<string>, gaps: seq<string>)
    requires !IsWord(c) && AreWords(words, gaps)
    ensures AreWords(words, [[c] + gaps[0]] + gaps[1..])
  {
    var gaps' := [[c] + gaps[0]] + gaps[1..];
    assert forall i :: 0 < i < |gaps'| ==> gaps'[i] == gaps[i];
    assert NoWord(gaps'[0]) by { assert NoWord(gaps[0]); }
  }

  lemma WiderWoven(c: char, words: seq<string>, gaps: seq<string>)
    requires |gaps| == |words| + 1
    ensures Woven(words, [[c] + gaps[0]] + gaps[1..]) == [c] + Woven(words, gaps)
  {
    assert ([[c] + gaps[0]] + gaps[1..])[1..] == gaps[1..];
    if words != [] {
      Regroup([c], gaps[0], words[0]);
      Regroup([c], gaps[0] + words[0], Woven(words[1..], gaps[1..]));
    }
  }

  lemma WiderDashes(c: char, words: seq<string>, gaps: seq<string>)
    requires |gaps| == |words| + 1
    ensures WithDashes(words, [[c] + gaps[0]] + gaps[1..]) ==
            if gaps[0] != "" then WithDashes(words, gaps) else "-" + WithDashes(words, gaps)
  {
    if words != [] {
      assert ([[c] + gaps[0]] + gaps[1..])[|words|] == gaps[|words|];
      DashBefore(Join(words, "-"), Dash(gaps[|words|]));
    }
  }

  lemma DashBefore(j: string, h: string)
    ensures "-" + j + h == "-" + ("" + j + h)
  {
    Regroup("-", j, h);
    assert "" + j == j;
  }

  lemma {:induction false} JoinEnds(words: seq<string>)
    requires words != [] && forall i :: 0 <= i < |words| ==> words[i] != "" && AllWord(words[i])
    ensures var j := Join(words, "-"); j != "" && IsWord(j[0]) && IsWord(j[|j| - 1])
    ensures forall c :: c in Join(words, "-") ==> IsWord(c) || c == '-'
  {
    assert words[0][0] in words[0] && words[0][|words[0]| - 1] in words[0];
    if |words| > 1 {
      JoinEnds(words[1..]);
    }
  }

  lemma TrimmedDashes(g: string, j: string, h: string)
    requires j != "" && j[0] != '-' && j[|j| - 1] != '-'
    ensures TrimDashes(Dash(g) + j + Dash(h)) == j
  {
    var s := j + Dash(h);
    assert TrimLeading(s) == s;
    assert Dash(g) + j + Dash(h) == Dash(g) + s;
    assert ("-" + s)[1..] == s && "" + s == s;
    assert TrimTrailing(j) == j;
    assert (j + "-")[..|j|] == j && j + "" == j;
  }

  /** ASCII letters in lower case. */
  ghost predicate IsLower(s: string, r: string) {
    |r| == |s| && forall i :: 0 <= i < |s| ==> r[i] == if 'A' <= s[i] <= 'Z' then s[i] + 32 as char else s[i]
  }

  /** A label stays; of any other name the words are left, in lower case and joined by dashes. */
  ghost predicate IsFormatted(name: string, r: string) {
    if IsDns1123Label(name) then r == name
    else exists words, gaps :: AreWords(words, gaps) && Woven(words, gaps) == name && IsLower(Join(words, "-"), r)
  }

  lemma FormatRead(name: string)
    ensures IsFormatted(name, FormatDns1123(name))
  {
    if !IsDns1123Label(name) {
      var words, gaps := DashedWords(name);
      var j := Join(words, "-");
      if words == [] {
        assert TrimDashes("-") == "" && TrimDashes("") == "" && j == "";
      } else {
        JoinEnds(words);
        TrimmedDashes(gaps[0], j, gaps[|words|]);
      }
      LowerAt(j);
      forall i | 0 <= i < |j|
        ensures LowerOf(j[i]) == if 'A' <= j[i] <= 'Z' then j[i] + 32 as char else j[i]
      {
        assert j[i] in j;
      }
    }
  }

  // ----- File names -----

  ghost predicate NonEmpty(name: string) {
    name != ""
  }

  ghost function AsPart(f: Formats): (string, string) -> bool {
    (name: string, part: string) => part == f.lower(name) + "."
  }

  /** The digest, the names that are not empty, in lower case, and the suffix, with dots between them. */
  ghost predicate IsFileFor(f: Formats, yaml: string, names: seq<string>, fileName: string) {
    exists parts ::
      Picked(names, NonEmpty, AsPart(f), parts) && fileName == f.digest(yaml) + "." + Flatten(parts) + "yaml"
  }

  lemma {:induction false} PartsOf(f: Formats, names: seq<string>) returns (parts: seq<string>)
    ensures Picked(names, NonEmpty, AsPart(f), parts) && Flatten(parts) == NameParts(f, names)
  {
    parts := [];
    if names != [] {
      var front, last := names[..|names| - 1], names[|names| - 1];
      assert names == front + [last];
      parts := PartsOf(f, front);
      PickedNext(front, last, NonEmpty, AsPart(f), parts, f.lower(last) + ".");
      FlattenSnoc<char>(parts, f.lower(last) + ".");
      if last != "" {
        parts := parts + [f.lower(last) + "."];
      }
    }
  }

  lemma FileIff(f: Formats, yaml: string, names: seq<string>, fileName: string)
    ensures IsFileFor(f, yaml, names, fileName) <==> fileName == FileName(f, yaml, names)
  {
    var parts := PartsOf(f, names);
    if other :| Picked(names, NonEmpty, AsPart(f), other)
                && fileName == f.digest(yaml) + "." + Flatten(other) + "yaml" {
      PickedUnique(names, NonEmpty, AsPart(f), parts, other);
    }
  }

  // ----- The files of a bundle -----

  /** Object number i has this file, and no later object has one of that name. */
  ghost predicate LastFile(f: Formats, objects: seq<Object>, key: string, yaml: string, i: nat) {
    && i < |objects| && objects[i].yaml == Some(yaml) && IsFileFor(f, yaml, [objects[i].name, objects[i].kind], key)
    && forall j :: i < j < |objects| && objects[j].yaml.Some? ==>
         !IsFileFor(f, objects[j].yaml.value, [objects[j].name, objects[j].kind], key)
  }

  ghost predicate IsBundleFile(f: Formats, objects: seq<Object>, key: string, yaml: string) {
    exists i: nat :: LastFile(f, objects, key, yaml, i)
  }

  ghost predicate HasFile(files: Files, key: string, yaml: string) {
    key in files && files[key] == yaml
  }

  ghost predicate Unmarshalled(objects: seq<Object>) {
    exists o :: o in objects && o.yaml.None?
  }

  /** A file for every object, unless some object cannot be marshalled. */
  ghost predicate AreBundleFiles(f: Formats, objects: seq<Object>, files: Option<Files>) {
    && (files.None? <==> Unmarshalled(objects))
    && (files.Some? ==> forall key, yaml :: HasFile(files.value, key, yaml) <==> IsBundleFile(f, objects, key, yaml))
  }

  lemma LastFileSnoc(f: Formats, front: seq<Object>, last: Object, key: string, yaml: string)
    requires last.yaml.Some?
    ensures IsBundleFile(f, front + [last], key, yaml) <==>
            if key == FileName(f, last.yaml.value, [last.name, last.kind]) then last.yaml.value == yaml
            else IsBundleFile(f, front, key, yaml)
  {
    var all := front + [last];
    FileIff(f, last.yaml.value, [last.name, last.kind], key);
    assert all[|front|] == last && forall i :: 0 <= i < |front| ==> all[i] == front[i];
    if IsFileFor(f, last.yaml.value, [last.name, last.kind], key) {
      assert last.yaml.value == yaml ==> LastFile(f, all, key, yaml, |front|);
    } else {
      assert forall i: nat :: LastFile(f, all, key, yaml, i) <==> LastFile(f, front, key, yaml, i);
    }
  }

  lemma {:induction false} BundleRead(f: Formats, objects: seq<Object>)
    ensures AreBundleFiles(f, objects, BundleFiles(f, objects))
  {
    if objects != [] {
      var front, last := objects[..|objects| - 1], objects[|objects| - 1];
      assert objects == front + [last];
      BundleRead(f, front);
      MarshalSnoc(front, last);
      if BundleFiles(f, objects).Some? {
        AddFile(f, front, last, BundleFiles(f, front).value);
      }
    }
  }

  lemma MarshalSnoc(front: seq<Object>, last: Object)
    ensures Unmarshalled(front + [last]) <==> Unmarshalled(front) || last.yaml.None?
  {
    assert forall o :: o in front + [last] <==> o in front || o == last;
  }

  lemma AddFile(f: Formats, front: seq<Object>, last: Object, files: Files)
    requires last.yaml.Some? && AreBundleFiles(f, front, Some(files))
    ensures var yaml := last.yaml.value;
            AreBundleFiles(f, front + [last], Some(files[FileName(f, yaml, [last.name, last.kind]) := yaml]))
  {
    MarshalSnoc(front, last);
    var more := files[FileName(f, last.yaml.value, [last.name, last.kind]) := last.yaml.value];
    forall key, yaml
      ensures HasFile(more, key, yaml) <==> IsBundleFile(f, front + [last], key, yaml)
    {
      LastFileSnoc(f, front, last, key, yaml);
      assert HasFile(files, key, yaml) <==> IsBundleFile(f, front, key, yaml);
    }
  }

  /** The files are determined. */
  lemma BundleFilesUnique(f: Formats, objects: seq<Object>, files: Files)
    requires AreBundleFiles(f, objects, Some(files))
    ensures BundleFiles(f, objects) == Some(files)
  {
    BundleRead(f, objects);
    var made := BundleFiles(f, objects).value;
    forall key | key in files
      ensures key in made && made[key] == files[key]
    {
      assert HasFile(files, key, files[key]);
      assert HasFile(made, key, files[key]);
    }
    forall key | key in made
      ensures key in files
    {
      assert HasFile(made, key, made[key]);
      assert HasFile(files, key, made[key]);
    }
    assert made == files;
  }

  // ----- The ConfigMaps -----

  function MapName(pkg: Package, suffix: string): string {
    FormatDns1123(pkg.name) + "-registry-manifests-" + suffix
  }

  /** Bundle number i has this name, and no later one. */
  ghost predicate LastBundle(pkg: Package, bundles: seq<Bundle>, name: string, i: nat) {
    && i < |bundles| && name == MapName(pkg, FormatDns1123(bundles[i].version))
    && forall j :: i < j < |bundles| ==> name != MapName(pkg, FormatDns1123(bundles[j].version))
  }

  ghost predicate IsBundleMap(f: Formats, pkg: Package, bundles: seq<Bundle>, name: string, files: Files) {
    exists i: nat :: LastBundle(pkg, bundles, name, i) && AreBundleFiles(f, bundles[i].objects, Some(files))
  }

  /** The package's own ConfigMap, unless a bundle has taken its name. */
  ghost predicate IsPackageMap(f: Formats, pkg: Package, bundles: seq<Bundle>, name: string, files: Files) {
    && name == MapName(pkg, "package")
    && (forall i :: 0 <= i < |bundles| ==> name != MapName(pkg, FormatDns1123(bundles[i].version)))
    && pkg.yaml.Some? && exists key :: IsFileFor(f, pkg.yaml.value, [], key) && files == map[key := pkg.yaml.value]
  }

  ghost predicate HasMap(desired: map<string, Files>, name: string, files: Files) {
    name in desired && desired[name] == files
  }

  ghost predicate IsRefused(b: Bundle) {
    b.version == "" || Unmarshalled(b.objects)
  }

  ghost predicate AnyRefused(bundles: seq<Bundle>) {
    exists b :: b in bundles && IsRefused(b)
  }

  lemma RefusedSnoc(front: seq<Bundle>, last: Bundle)
    ensures AnyRefused(front + [last]) <==> AnyRefused(front) || IsRefused(last)
  {
    assert forall b :: b in front + [last] <==> b in front || b == last;
  }

  /** A ConfigMap for the package and one for every bundle, unless something has no version or cannot be marshalled. */
  ghost predicate AreDesired(f: Formats, pkg: Package, bundles: seq<Bundle>, desired: Option<map<string, Files>>) {
    && (desired.None? <==> pkg.yaml.None? || AnyRefused(bundles))
    && (desired.Some? ==> forall name, files :: HasMap(desired.value, name, files) <==>
          IsBundleMap(f, pkg, bundles, name, files) || IsPackageMap(f, pkg, bundles, name, files))
  }

  lemma NameRead(pkg: Package, b: Bundle)
    ensures BundleMapName(pkg, b) == MapName(pkg, FormatDns1123(b.version))
    ensures PackageMapName(pkg) == MapName(pkg, "package")
  {
    Regroup(FormatDns1123(pkg.name), "-registry-manifests", "-");
    assert "-registry-manifests" + "-" == "-registry-manifests-";
    Regroup(FormatDns1123(pkg.name) + "-registry-manifests", "-", "package");
    assert "-package" == "-" + "package";
  }

  lemma BundleMapSnoc(f: Formats, pkg: Package, front: seq<Bundle>, last: Bundle, name: string, files: Files)
    ensures IsBundleMap(f, pkg, front + [last], name, files) <==>
            if name == MapName(pkg, FormatDns1123(last.version)) then AreBundleFiles(f, last.objects, Some(files))
            else IsBundleMap(f, pkg, front, name, files)
    ensures IsPackageMap(f, pkg, front + [last], name, files) <==>
            name != MapName(pkg, FormatDns1123(last.version)) && IsPackageMap(f, pkg, front, name, files)
  {
    var all := front + [last];
    assert all[|front|] == last && forall i :: 0 <= i < |front| ==> all[i] == front[i];
    if name == MapName(pkg, FormatDns1123(last.version)) {
      assert LastBundle(pkg, all, name, |front|);
    } else {
      assert forall i: nat :: LastBundle(pkg, all, name, i) <==> LastBundle(pkg, front, name, i);
    }
  }

  lemma PackageRead(f: Formats, pkg: Package)
    ensures AreDesired(f, pkg, [], Desired(f, pkg, []))
  {
    NameRead(pkg, Bundle("", []));
    if pkg.yaml.Some? {
      forall key
        ensures IsFileFor(f, pkg.yaml.value, [], key) <==> key == FileName(f, pkg.yaml.value, [])
      {
        FileIff(f, pkg.yaml.value, [], key);
      }
    }
  }

  lemma AddBundle(f: Formats, pkg: Package, front: seq<Bundle>, last: Bundle, desired: map<string, Files>, files: Files)
    requires AreDesired(f, pkg, front, Some(desired)) && !IsRefused(last) && BundleFiles(f, last.objects) == Some(files)
    ensures AreDesired(f, pkg, front + [last], Some(desired[BundleMapName(pkg, last) := files]))
  {
    NameRead(pkg, last);
    BundleRead(f, last.objects);
    RefusedSnoc(front, last);
    var more := desired[BundleMapName(pkg, last) := files];
    forall name, other
      ensures HasMap(more, name, other) <==>
              IsBundleMap(f, pkg, front + [last], name, other) || IsPackageMap(f, pkg, front + [last], name, other)
    {
      BundleMapSnoc(f, pkg, front, last, name, other);
      assert HasMap(desired, name, other) <==>
             IsBundleMap(f, pkg, front, name, other) || IsPackageMap(f, pkg, front, name, other);
      if name == BundleMapName(pkg, last) && AreBundleFiles(f, last.objects, Some(other)) {
        BundleFilesUnique(f, last.objects, other);
      }
    }
  }

  /** The ConfigMaps made are those. */
  lemma {:induction false} DesiredRead(f: Formats, pkg: Package, bundles: seq<Bundle>)
    ensures AreDesired(f, pkg, bundles, Desired(f, pkg, bundles))
  {
    if bundles == [] {
      PackageRead(f, pkg);
    } else {
      var front, last := bundles[..|bundles| - 1], bundles[|bundles| - 1];
      assert bundles == front + [last];
      RefusedSnoc(front, last);
      DesiredRead(f, pkg, front);
      BundleRead(f, last.objects);
      if Desired(f, pkg, bundles).Some? {
        AddBundle(f, pkg, front, last, Desired(f, pkg, front).value, BundleFiles(f, last.objects).value);
      }
    }
  }
}
