/** The install mode flag (internal/olm/operator/install_mode.go). */
module InstallModes {
  import opened Slices
  import opened Text

  const ALL_NAMESPACES := "AllNamespaces"
  const OWN_NAMESPACE := "OwnNamespace"
  const SINGLE_NAMESPACE := "SingleNamespace"
  const MULTI_NAMESPACE := "MultiNamespace"

  // ----- Splitting and joining -----

  /** strings.SplitN with a limit of two: what stands before the first separator, and after it if there is one. */
  function Cut(s: string, sep: char): (string, Option<string>) {
    if s == [] then ("", None)
    else if s[0] == sep then ("", Some(s[1..]))
    else
      var (before, after) := Cut(s[1..], sep);
      ([s[0]] + before, after)
  }

  /** strings.Split */
  function Split(s: string, sep: char): (r: seq<string>)
    ensures r != []
  {
    if s == [] then [""]
    else if s[0] == sep then [""] + Split(s[1..], sep)
    else
      var rest := Split(s[1..], sep);
      [[s[0]] + rest[0]] + rest[1..]
  }

  lemma {:induction false} CutPrefix(a: string, b: string, sep: char)
    requires sep !in a
    ensures Cut(a + [sep] + b, sep) == (a, Some(b))
    ensures Cut(a, sep) == (a, None)
  {
    var s := a + [sep] + b;
    if a == [] {
      assert s[1..] == b;
    } else {
      assert s[1..] == a[1..] + [sep] + b;
      CutPrefix(a[1..], b, sep);
      assert a == [a[0]] + a[1..];
    }
  }

  lemma {:induction false} SplitPrefix(a: string, b: string, sep: char)
    requires sep !in a
    ensures Split(a, sep) == [a]
    ensures Split(a + [sep] + b, sep) == [a] + Split(b, sep)
  {
    var s := a + [sep] + b;
    if a == [] {
      assert s[1..] == b;
    } else {
      assert s[1..] == a[1..] + [sep] + b;
      SplitPrefix(a[1..], b, sep);
      assert a == [a[0]] + a[1..];
    }
  }

  /** Splitting undoes joining. */
  lemma {:induction false} SplitJoin(parts: seq<string>, sep: char)
    requires parts != [] && forall i :: 0 <= i < |parts| ==> sep !in parts[i]
    ensures Split(Join(parts, [sep]), sep) == parts
  {
    SplitPrefix(parts[0], Join(parts[1..], [sep]), sep);
    if |parts| > 1 {
      SplitJoin(parts[1..], sep);
      assert parts == [parts[0]] + parts[1..];
    } else {
      assert parts == [parts[0]];
    }
  }

  // ----- Labels and modes -----

  datatype Mode = Mode(kind: string, targets: seq<string>)

  const UNSET := Mode("", [])

  predicate TakesTargets(kind: string) {
    kind == SINGLE_NAMESPACE || kind == MULTI_NAMESPACE
  }

  /** The modes Validate accepts. */
  predicate IsValid(m: Mode) {
    && (m.kind in ["AllNamespaces", "OwnNamespace", ""] ==> m.targets == [])
    && (m.kind == "SingleNamespace" ==> |m.targets| == 1)
    && (m.kind == "MultiNamespace" ==> m.targets != [])
    && m.kind in ["AllNamespaces", "OwnNamespace", "SingleNamespace", "MultiNamespace", ""]
    && forall i :: 0 <= i < |m.targets| ==> IsDns1123Label(m.targets[i])
  }

  /** A label: up to 63 small letters, digits and dashes, no dash at either end. */
  ghost predicate IsLabel(s: string) {
    && s != "" && |s| <= 63 && s[0] != '-' && s[|s| - 1] != '-'
    && forall c :: c in s ==> 'a' <= c <= 'z' || '0' <= c <= '9' || c == '-'
  }

  /** The valid modes, one kind after the other. */
  lemma ValidIff(m: Mode)
    ensures IsValid(m) <==>
            || m == Mode("", []) || m == Mode("AllNamespaces", []) || m == Mode("OwnNamespace", [])
            || (exists ns :: IsLabel(ns) && m == Mode("SingleNamespace", [ns]))
            || (m.kind == "MultiNamespace" && m.targets != [] && forall ns :: ns in m.targets ==> IsLabel(ns))
  {
    forall s
      ensures IsLabel(s) <==> IsDns1123Label(s)
    {
      LabelIff(s);
    }
    if |m.targets| == 1 {
      assert m.targets == [m.targets[0]];
    }
    assert forall i :: 0 <= i < |m.targets| ==> m.targets[i] in m.targets;
  }

  lemma LabelIff(s: string)
    ensures IsLabel(s) <==> IsDns1123Label(s)
  {
    assert forall i :: 0 <= i < |s| ==> s[i] in s;
  }

  /** InstallMode.String */
  function Printed(m: Mode): string {
    if TakesTargets(m.kind) then m.kind + "=" + Join(m.targets, ",") else m.kind
  }

  function Trimmed(parts: seq<string>): (r: seq<string>)
    ensures |r| == |parts|
  {
    seq(|parts|, i requires 0 <= i < |parts| => TrimSpace(parts[i]))
  }

  /** Setting the flag to `str`: the type is what stands before "=", and the targets named after it join those
      that were there, in order. */
  ghost predicate AfterSet(before: Mode, str: string, after: Mode) {
    var (kind, names) := Cut(str, '=');
    && after.kind == kind
    && match names
       case None => after.targets == []
       case Some(list) =>
         && multiset(after.targets) == multiset(before.targets + Trimmed(Split(list, ',')))
         && Sorted(after.targets, Less)
  }

  // ----- A setting, read off the string -----

  /** The list is these names with commas between them. */
  ghost predicate AreNames(list: string, names: seq<string>) {
    names != [] && list == Join(names, ",") && forall i :: 0 <= i < |names| ==> ',' !in names[i]
  }

  ghost predicate TrimsTo(s: string, t: string) {
    if Blank(s) then t == "" else IsTrimmed(s, t)
  }

  /** Without "=" the string is the type, and there are no targets. Otherwise the names after the first "=", without
      the white space around them, join the targets there were, and all are sorted. */
  ghost predicate IsSet(before: Mode, str: string, after: Mode) {
    if '=' !in str then after == Mode(str, [])
    else exists kind: string, list: string, names: seq<string>, trimmed: seq<string> ::
      && '=' !in kind && str == kind + "=" + list && AreNames(list, names)
      && |trimmed| == |names| && (forall i :: 0 <= i < |names| ==> TrimsTo(names[i], trimmed[i]))
      && after.kind == kind && multiset(after.targets) == multiset(before.targets) + multiset(trimmed)
      && forall i, j :: 0 <= i < j < |after.targets| ==>
           after.targets[i] == after.targets[j] || Smaller(after.targets[i], after.targets[j])
  }

  lemma {:induction false} CutRead(s: string, sep: char)
    ensures var (before, after) := Cut(s, sep);
            && sep !in before && (after.None? <==> sep !in s)
            && s == if after.None? then before else before + [sep] + after.value
  {
    if s != "" && s[0] != sep {
      CutRead(s[1..], sep);
      assert s == [s[0]] + s[1..];
    } else if s != "" {
      assert s == "" + [sep] + s[1..];
    }
  }

  lemma {:induction false} SplitRead(s: string)
    ensures AreNames(s, Split(s, ','))
  {
    if s != "" {
      SplitRead(s[1..]);
      var rest := Split(s[1..], ',');
      if s[0] == ',' {
        assert ([""] + rest)[1..] == rest && s == "" + "," + s[1..];
      } else {
        GrowFirst(s[0], rest);
        assert s == [s[0]] + s[1..];
      }
    }
  }

  lemma GrowFirst(c: char, names: seq<string>)
    requires names != []
    ensures Join([[c] + names[0]] + names[1..], ",") == [c] + Join(names, ",")
  {
    var names' := [[c] + names[0]] + names[1..];
    assert names'[1..] == names[1..] && names'[0] == [c] + names[0];
    if |names| > 1 {
      Regroup([c], names[0], ",");
      Regroup([c], names[0] + ",", Join(names[1..], ","));
    }
  }

  lemma SortedRead(targets: seq<string>)
    requires Sorted(targets, Less)
    ensures forall i, j :: 0 <= i < j < |targets| ==> targets[i] == targets[j] || Smaller(targets[i], targets[j])
  {
    forall i, j | 0 <= i < j < |targets|
      ensures targets[i] == targets[j] || Smaller(targets[i], targets[j])
    {
      LessIff(targets[i], targets[j]);
      if targets[i] != targets[j] { LessTotal(targets[i], targets[j]); }
    }
  }

  lemma SetRead(before: Mode, str: string, after: Mode)
    requires AfterSet(before, str, after)
    ensures IsSet(before, str, after)
  {
    CutRead(str, '=');
    var (kind, list) := Cut(str, '=');
    if list.Some? {
      var names := Split(list.value, ',');
      SplitRead(list.value);
      SortedRead(after.targets);
      forall i | 0 <= i < |names|
        ensures TrimsTo(names[i], Trimmed(names)[i])
      {
        TrimIff(names[i], TrimSpace(names[i]));
      }
      assert multiset(before.targets + Trimmed(names)) == multiset(before.targets) + multiset(Trimmed(names));
    }
  }

  class InstallMode {
    var modeType: string
    var targetNamespaces: seq<string>

    constructor ()
      ensures Value() == UNSET
    {
      modeType, targetNamespaces := "", [];
    }

    function Value(): Mode
      reads this
    {
      Mode(modeType, targetNamespaces)
    }

    /** The fields are set even when the result is not valid. */
    method Set(str: string) returns (ok: bool)
      modifies this
      ensures AfterSet(old(Value()), str, Value()) && IsSet(old(Value()), str, Value())
      ensures ok <==> IsValid(Value())
    {
      var (kind, names) := Cut(str, '=');
      modeType := kind;
      if names.Some? {
        AddTargets(Split(names.value, ','));
      } else {
        targetNamespaces := [];
      }
      ok := Validate();
      SetRead(old(Value()), str, Value());
    }

    method AddTargets(namespaces: seq<string>)
      modifies this`targetNamespaces
      ensures multiset(targetNamespaces) == multiset(old(targetNamespaces) + Trimmed(namespaces))
      ensures Sorted(targetNamespaces, Less)
    {
      for i := 0 to |namespaces|
        invariant targetNamespaces == old(targetNamespaces) + Trimmed(namespaces)[..i]
      {
        targetNamespaces := targetNamespaces + [TrimSpace(namespaces[i])];
      }
      assert targetNamespaces == old(targetNamespaces) + Trimmed(namespaces);
      LessIsWeakOrder();
      ghost var perm;
      ghost var unsorted := targetNamespaces;
      var sorted;
      sorted, perm := SortSlice(targetNamespaces, Less);
      assert multiset(sorted) == multiset(unsorted);
      targetNamespaces := sorted;
    }

    method Validate() returns (ok: bool)
      ensures ok <==> IsValid(Value())
    {
      if modeType == ALL_NAMESPACES || modeType == OWN_NAMESPACE {
        if |targetNamespaces| != 0 {
          return false;
        }
      } else if modeType == SINGLE_NAMESPACE {
        if |targetNamespaces| != 1 {
          return false;
        }
      } else if modeType == MULTI_NAMESPACE {
        if |targetNamespaces| == 0 {
          return false;
        }
      } else if modeType == "" {
        if |targetNamespaces| != 0 {
          return false;
        }
      } else {
        return false;
      }
      for i := 0 to |targetNamespaces|
        invariant forall j :: 0 <= j < i ==> IsDns1123Label(targetNamespaces[j])
      {
        if !IsDns1123Label(targetNamespaces[i]) {
          return false;
        }
      }
      return true;
    }
  }

  lemma LessIsWeakOrder()
    ensures WeakOrder(Less)
  {
    forall a, b | Less(a, b)
      ensures !Less(b, a)
    {
      LessAsymmetric(a, b);
    }
    forall a, b, c | !Less(b, a) && !Less(c, b)
      ensures !Less(c, a)
    {
      NotLessTransitive(a, b, c);
    }
  }

  // ----- Round trips -----

  /** What a setting leaves is determined. */
  lemma SetDetermined(before: Mode, str: string, a: Mode, b: Mode)
    requires AfterSet(before, str, a) && AfterSet(before, str, b)
    ensures a == b
  {
    if Cut(str, '=').1.Some? {
      SortedTargets(a.targets, b.targets);
    }
  }

  lemma SortedTargets(a: seq<string>, b: seq<string>)
    requires multiset(a) == multiset(b) && Sorted(a, Less) && Sorted(b, Less)
    ensures a == b
  {
    forall x, y | x in a && y in a && x != y
      ensures Less(x, y) || Less(y, x)
    {
      LessTotal(x, y);
    }
    SortedUnique(a, b, Less);
  }

  lemma LabelIsPlain(s: string)
    requires IsDns1123Label(s)
    ensures ',' !in s && TrimSpace(s) == s
  {
  }

  /** The printed form of a valid mode names its type and its targets, in order. */
  lemma PrintedParts(m: Mode)
    requires IsValid(m)
    ensures Cut(Printed(m), '=').0 == m.kind
    ensures TakesTargets(m.kind) ==>
              Cut(Printed(m), '=').1 == Some(Join(m.targets, ","))
                && Trimmed(Split(Join(m.targets, ","), ',')) == m.targets
    ensures !TakesTargets(m.kind) ==> Cut(Printed(m), '=').1 == None && m.targets == []
  {
    PlainKind(m);
    CutPrefix(m.kind, Join(m.targets, ","), '=');
    if TakesTargets(m.kind) {
      JoinedLabels(m.targets);
    }
  }

  lemma PlainKind(m: Mode)
    requires IsValid(m)
    ensures '=' !in m.kind
    ensures !TakesTargets(m.kind) ==> m.targets == []
    ensures TakesTargets(m.kind) ==> m.targets != []
  {
  }

  lemma JoinedLabels(labels: seq<string>)
    requires labels != [] && forall i :: 0 <= i < |labels| ==> IsDns1123Label(labels[i])
    ensures Trimmed(Split(Join(labels, ","), ',')) == labels
  {
    forall i | 0 <= i < |labels|
      ensures ',' !in labels[i] && TrimSpace(labels[i]) == labels[i]
    {
      LabelIsPlain(labels[i]);
    }
    SplitJoin(labels, ',');
  }

  lemma SetTargets(m: Mode, after: Mode)
    requires IsValid(m) && TakesTargets(m.kind) && AfterSet(UNSET, Printed(m), after)
    ensures after.kind == m.kind && multiset(after.targets) == multiset(m.targets) && Sorted(after.targets, Less)
  {
    PrintedParts(m);
    assert [] + m.targets == m.targets;
  }

  /** Setting a fresh flag to the printed form of a valid mode restores the mode, exactly if its targets are sorted. */
  lemma RoundTrip(m: Mode, after: Mode)
    requires IsValid(m) && AfterSet(UNSET, Printed(m), after)
    ensures after == m <==> Sorted(m.targets, Less)
    ensures IsValid(after)
  {
    PrintedParts(m);
    if TakesTargets(m.kind) {
      SetTargets(m, after);
      if Sorted(m.targets, Less) {
        SortedTargets(after.targets, m.targets);
      }
      SameMembers(after.targets, m.targets);
    }
  }

  lemma SameMembers(a: seq<string>, b: seq<string>)
    requires multiset(a) == multiset(b)
    ensures |a| == |b|
    ensures forall i :: 0 <= i < |a| ==> a[i] in b
  {
    assert |a| == |multiset(a)| == |multiset(b)| == |b|;
    forall i | 0 <= i < |a|
      ensures a[i] in b
    {
      assert a[i] in multiset(b);
    }
  }

  /** Every accepted string prints to a canonical form, which is accepted with the same value. */
  lemma Canonical(str: string, m: Mode, again: Mode)
    requires AfterSet(UNSET, str, m) && IsValid(m) && AfterSet(UNSET, Printed(m), again)
    ensures again == m
  {
    RoundTrip(m, again);
  }

  /** Setting the flag again to the printed form of what it holds doubles the targets; the result is valid
      unless the mode is for a single namespace. */
  lemma SetAgain(m: Mode, again: Mode)
    requires IsValid(m) && AfterSet(m, Printed(m), again)
    ensures TakesTargets(m.kind) ==> multiset(again.targets) == multiset(m.targets) + multiset(m.targets)
    ensures IsValid(again) <==> m.kind != SINGLE_NAMESPACE
  {
    PrintedParts(m);
    if TakesTargets(m.kind) {
      SameMembers(again.targets, m.targets + m.targets);
    }
  }
}
