/** Splitting the collected RBAC objects between the CSV and separate manifests
    (internal/generate/collector/clusterserviceversion.go). */
module RbacSplit {
  import opened Slices

  const DEFAULT_SERVICE_ACCOUNT := "default"
  const SERVICE_ACCOUNT_KIND := "ServiceAccount"
  const ROLE_KIND := "Role"
  const CLUSTER_ROLE_KIND := "ClusterRole"
  const RBAC_GROUP := "rbac.authorization.k8s.io"

  datatype Subject = Subject(kind: string, name: string, body: int)

  datatype RoleRef = RoleRef(apiGroup: string, kind: string, name: string)

  /** A Role or a ClusterRole; a rule is known by a number. */
  datatype Role = Role(name: string, rules: seq<int>)

  /** A binding as the collector holds it: its subjects are a slice others may share. */
  datatype Binding = Binding(name: string, roleRef: RoleRef, subjects: array<Subject>)

  /** The same with the subjects as they are in some state. */
  datatype BindingValue = BindingValue(name: string, roleRef: RoleRef, subjects: seq<Subject>)

  /** Objects handed on. A Role is absent where Go's map lookup yields a nil pointer. */
  datatype Object =
    | RoleObject(role: Option<Role>)
    | ClusterRoleObject(clusterRole: Option<Role>)
    | RoleBindingObject(binding: Binding)
    | ClusterRoleBindingObject(clusterBinding: Binding)
    | ServiceAccountObject(name: string)

  predicate AcceptRefGroup(apiGroup: string) {
    apiGroup == "" || apiGroup == RBAC_GROUP
  }

  predicate CsvSubject(s: Subject, saNames: set<string>) {
    s.name in saNames && s.kind == SERVICE_ACCOUNT_KIND
  }

  // ----- What the partial bindings say -----

  predicate Resolves(ref: RoleRef, refKind: string, roleNames: set<string>) {
    ref.name in roleNames && ref.kind == refKind && AcceptRefGroup(ref.apiGroup)
  }

  predicate HasCsvSubject(subjects: seq<Subject>, saNames: set<string>) {
    exists i :: 0 <= i < |subjects| && CsvSubject(subjects[i], saNames)
  }

  /** The subjects outside the CSV's service accounts, in order. */
  function OtherSubjects(subjects: seq<Subject>, saNames: set<string>): seq<Subject> {
    if subjects == [] then []
    else (if CsvSubject(subjects[0], saNames) then [] else [subjects[0]]) + OtherSubjects(subjects[1..], saNames)
  }

  predicate Names(b: BindingValue, refKind: string, roleNames: set<string>, saNames: set<string>) {
    Resolves(b.roleRef, refKind, roleNames) && HasCsvSubject(b.subjects, saNames)
  }

  predicate Stays(b: BindingValue, refKind: string, roleNames: set<string>, saNames: set<string>) {
    !Resolves(b.roleRef, refKind, roleNames) || OtherSubjects(b.subjects, saNames) != []
  }

  /** The role names of the first n bindings that resolve and have a CSV subject. */
  function BoundNames(vs: seq<BindingValue>, n: nat, refKind: string, roleNames: set<string>,
                      saNames: set<string>): seq<string>
    requires n <= |vs|
  {
    if n == 0 then []
    else BoundNames(vs, n - 1, refKind, roleNames, saNames) +
         if Names(vs[n - 1], refKind, roleNames, saNames) then [vs[n - 1].roleRef.name] else []
  }

  /** Those of the first n elements whose binding stays. */
  function Staying<T>(list: seq<T>, vs: seq<BindingValue>, n: nat, refKind: string, roleNames: set<string>,
                      saNames: set<string>): (r: seq<T>)
    requires n <= |vs| == |list|
    ensures |r| <= n
  {
    if n == 0 then []
    else Staying(list, vs, n - 1, refKind, roleNames, saNames) +
         if Stays(vs[n - 1], refKind, roleNames, saNames) then [list[n - 1]] else []
  }

  // ----- In-place deletion -----

  /** s = append(s[:j], s[j+1:]...) on a slice of length n: the tail moves down in the shared array. */
  method DeleteAt(a: array<Subject>, j: nat, n: nat)
    requires j < n <= a.Length
    modifies a
    ensures a[..n - 1] == old(a[..j]) + old(a[j + 1..n])
  {
    for k := j to n - 1
      invariant a[..k] == old(a[..j]) + old(a[j + 1..k + 1])
      invariant a[k + 1..n] == old(a[k + 1..n])
    {
      assert a[k + 1] == a[k + 1..n][0];
      a[k] := a[k + 1];
    }
  }

  lemma NextSubject(was: seq<Subject>, p: nat, saNames: set<string>)
    requires p < |was|
    ensures OtherSubjects(was[..p + 1], saNames) ==
            OtherSubjects(was[..p], saNames) + if CsvSubject(was[p], saNames) then [] else [was[p]]
    ensures HasCsvSubject(was[..p + 1], saNames) <==> HasCsvSubject(was[..p], saNames) || CsvSubject(was[p], saNames)
  {
    OtherSubjectsSnoc(was[..p], was[p], saNames);
    assert was[..p + 1] == was[..p] + [was[p]];
  }

  lemma {:induction false} OtherSubjectsSnoc(s: seq<Subject>, x: Subject, saNames: set<string>)
    ensures OtherSubjects(s + [x], saNames) == OtherSubjects(s, saNames) + if CsvSubject(x, saNames) then [] else [x]
  {
    if s != [] {
      OtherSubjectsSnoc(s[1..], x, saNames);
      assert (s + [x])[1..] == s[1..] + [x];
    }
  }

  /** The inner loop: what is left of the slice are the other subjects, in order. */
  method DropCsvSubjects(subjects: array<Subject>, saNames: set<string>) returns (n: nat, addRole: bool)
    modifies subjects
    ensures n <= subjects.Length && subjects[..n] == OtherSubjects(old(subjects[..]), saNames)
    ensures addRole <==> HasCsvSubject(old(subjects[..]), saNames)
  {
    n, addRole := subjects.Length, false;
    var j := 0;
    ghost var was, p := subjects[..], 0;
    while j < n
      invariant n <= subjects.Length && Dropping(subjects[..], was, j, n, p, saNames)
      invariant addRole <==> HasCsvSubject(was[..p], saNames)
      decreases n - j
    {
      ghost var before := subjects[..];
      InTurn(before, was, j, n, p, saNames);
      if CsvSubject(subjects[j], saNames) {
        addRole := true;
        DeleteAt(subjects, j, n);
        Dropped(before, subjects[..], was, j, n, p, saNames);
        n := n - 1;
      } else {
        Kept(before, was, j, n, p, saNames);
        j := j + 1;
      }
      p := p + 1;
    }
    assert was[..|was|] == was;
  }

  /** Of the slice s of length n the first j subjects are what is left of the first p, the others are still to come. */
  ghost predicate Dropping(s: seq<Subject>, was: seq<Subject>, j: nat, n: nat, p: nat, saNames: set<string>) {
    && j <= n <= |s| && j <= p && |was| - p == n - j
    && s[j..n] == was[p..]
    && s[..j] == OtherSubjects(was[..p], saNames)
  }

  lemma InTurn(s: seq<Subject>, was: seq<Subject>, j: nat, n: nat, p: nat, saNames: set<string>)
    requires Dropping(s, was, j, n, p, saNames) && j < n
    ensures s[j] == was[p]
    ensures HasCsvSubject(was[..p + 1], saNames) <==> HasCsvSubject(was[..p], saNames) || CsvSubject(s[j], saNames)
  {
    NextSubject(was, p, saNames);
    assert s[j] == s[j..n][0] == was[p..][0];
  }

  lemma Dropped(before: seq<Subject>, after: seq<Subject>, was: seq<Subject>, j: nat, n: nat, p: nat,
                saNames: set<string>)
    requires Dropping(before, was, j, n, p, saNames) && j < n <= |before| == |after|
    requires after[..n - 1] == before[..j] + before[j + 1..n] && CsvSubject(was[p], saNames)
    ensures Dropping(after, was, j, n - 1, p + 1, saNames)
  {
    NextSubject(was, p, saNames);
    DeleteShows(before, after, j, n);
    assert before[j..n][1..] == was[p..][1..] == was[p + 1..];
  }

  lemma Kept(s: seq<Subject>, was: seq<Subject>, j: nat, n: nat, p: nat, saNames: set<string>)
    requires Dropping(s, was, j, n, p, saNames) && j < n && !CsvSubject(was[p], saNames)
    ensures Dropping(s, was, j + 1, n, p + 1, saNames)
  {
    NextSubject(was, p, saNames);
    assert s[j] == s[j..n][0] == was[p..][0];
    assert s[..j + 1] == s[..j] + [was[p]];
    assert s[j + 1..n] == s[j..n][1..] == was[p..][1..] == was[p + 1..];
  }

  lemma DeleteShows(before: seq<Subject>, after: seq<Subject>, j: nat, n: nat)
    requires j < n <= |before| == |after| && after[..n - 1] == before[..j] + before[j + 1..n]
    ensures after[..j] == before[..j] && after[j..n - 1] == before[j..n][1..]
  {
    assert after[..j] == after[..n - 1][..j];
    assert after[j..n - 1] == after[..n - 1][j..];
  }

  ghost function ValueOf(b: Binding): BindingValue
    reads b.subjects
  {
    BindingValue(b.name, b.roleRef, b.subjects[..])
  }

  ghost function ValuesOf(bs: seq<Binding>): (r: seq<BindingValue>)
    reads set i | 0 <= i < |bs| :: bs[i].subjects
    ensures |r| == |bs| && forall i :: 0 <= i < |bs| ==> r[i] == ValueOf(bs[i])
  {
    seq(|bs|, i requires 0 <= i < |bs| reads set i | 0 <= i < |bs| :: bs[i].subjects => ValueOf(bs[i]))
  }

  /** The subjects of different bindings are different slices. */
  ghost predicate Separate(bs: seq<Binding>) {
    forall i, j :: 0 <= i < j < |bs| ==> bs[i].subjects != bs[j].subjects
  }

  class PartialBindings {
    var list: seq<Binding>

    constructor (bs: seq<Binding>)
      ensures list == bs
    {
      list := bs;
    }

    /** Returns, in order, the names of the roles of kind refKind that a binding gives to one
        of the service accounts, and deletes from the list the bindings without other subjects. */
    method GetRolesBoundToPartialBindings(refKind: string, roleNames: set<string>, saNames: set<string>)
      returns (inNames: seq<string>)
      requires Separate(list)
      modifies this, set i | 0 <= i < |list| :: list[i].subjects
      ensures inNames == BoundNames(old(ValuesOf(list)), |old(list)|, refKind, roleNames, saNames)
      ensures list == Staying(old(list), old(ValuesOf(list)), |old(list)|, refKind, roleNames, saNames)
      ensures forall b :: b in old(list) && !Resolves(b.roleRef, refKind, roleNames) ==> ValueOf(b) == old(ValueOf(b))
    {
      inNames := [];
      var i: nat := 0;
      ghost var all, vs, p := list, ValuesOf(list), 0;
      while i < |list|
        invariant Progress(all, vs, i, p, inNames, refKind, roleNames, saNames)
        decreases |list| - i
      {
        i, inNames := Visit(i, inNames, refKind, roleNames, saNames, all, vs, p);
        p := p + 1;
      }
      forall b | b in all && !Resolves(b.roleRef, refKind, roleNames)
        ensures ValueOf(b) == old(ValueOf(b))
      {
        var k :| 0 <= k < |all| && all[k] == b;
        assert vs[k] == old(ValueOf(all[k]));
      }
    }

    /** The first p of the bindings have been dealt with; i of them are still in the list. */
    ghost predicate Progress(all: seq<Binding>, vs: seq<BindingValue>, i: nat, p: nat, inNames: seq<string>,
                             refKind: string, roleNames: set<string>, saNames: set<string>)
      reads this, set k | 0 <= k < |all| :: all[k].subjects
    {
      && |vs| == |all| && i <= |list| && p <= |all|
      && list[i..] == all[p..]
      && list[..i] == Staying(all, vs, p, refKind, roleNames, saNames)
      && inNames == BoundNames(vs, p, refKind, roleNames, saNames)
      && (forall k :: 0 <= k < |all| && (p <= k || !Resolves(all[k].roleRef, refKind, roleNames)) ==>
            ValueOf(all[k]) == vs[k])
    }

    /** The body of the outer loop. */
    method Visit(i: nat, inNames: seq<string>, refKind: string, roleNames: set<string>, saNames: set<string>,
                 ghost all: seq<Binding>, ghost vs: seq<BindingValue>, ghost p: nat)
      returns (i': nat, inNames': seq<string>)
      requires Separate(all) && i < |list| && Progress(all, vs, i, p, inNames, refKind, roleNames, saNames)
      modifies this, set k | 0 <= k < |all| :: all[k].subjects
      ensures Progress(all, vs, i', p + 1, inNames', refKind, roleNames, saNames)
      ensures |list| - i' < |old(list)| - i
    {
      NextInList(list, all, i, p);
      var binding := list[i];
      assert binding == all[p];
      var addRole, remove := Examine(binding, refKind, roleNames, saNames);
      i', inNames' := i, inNames;
      if addRole {
        inNames' := inNames + [binding.roleRef.name];
      }
      if remove {
        list := list[..i] + list[i + 1..];
      } else {
        i' := i + 1;
      }
    }
  }

  lemma NextInList<T>(list: seq<T>, all: seq<T>, i: nat, p: nat)
    requires i < |list| && p <= |all| && list[i..] == all[p..]
    ensures p < |all| && list[i] == all[p]
    ensures list[i + 1..] == all[p + 1..] && list[..i + 1] == list[..i] + [list[i]]
    ensures var shorter := list[..i] + list[i + 1..];
            shorter[i..] == all[p + 1..] && shorter[..i] == list[..i]
  {
    assert |list[i..]| == |all[p..]| && list[i] == list[i..][0] && all[p] == all[p..][0];
    assert list[i + 1..] == list[i..][1..] && all[p + 1..] == all[p..][1..];
  }

  /** The body of the outer loop, for one binding. */
  method Examine(binding: Binding, refKind: string, roleNames: set<string>, saNames: set<string>)
    returns (addRole: bool, remove: bool)
    modifies binding.subjects
    ensures addRole <==> Names(old(ValueOf(binding)), refKind, roleNames, saNames)
    ensures remove <==> !Stays(old(ValueOf(binding)), refKind, roleNames, saNames)
    ensures !Resolves(binding.roleRef, refKind, roleNames) ==> ValueOf(binding) == old(ValueOf(binding))
  {
    var ref := binding.roleRef;
    if !(ref.name in roleNames) || ref.kind != refKind || !AcceptRefGroup(ref.apiGroup) {
      return false, false;
    }
    var n;
    n, addRole := DropCsvSubjects(binding.subjects, saNames);
    remove := n == 0;
  }

  // ----- What the split should produce -----

  /** The collected manifests as values; deployments and service accounts by account name. */
  datatype View = View(deployments: seq<string>, roles: seq<Role>, clusterRoles: seq<Role>,
                       roleBindings: seq<BindingValue>, clusterRoleBindings: seq<BindingValue>,
                       serviceAccounts: seq<string>)

  function AccountOf(deployment: string): string {
    if deployment == "" then DEFAULT_SERVICE_ACCOUNT else deployment
  }

  /** The service accounts of the CSV. */
  function Accounts(deployments: seq<string>, extraSAs: seq<string>): set<string> {
    (set d | d in deployments :: AccountOf(d)) + (set e | e in extraSAs)
  }

  /** Roles by name; of several with one name the last counts. */
  function ByName(roles: seq<Role>): map<string, Role> {
    if roles == [] then map[] else ByName(roles[..|roles| - 1])[roles[|roles| - 1].name := roles[|roles| - 1]]
  }

  /** Names of Roles given to CSV accounts by RoleBindings, one for each such binding. */
  function InRoleNames(v: View, accounts: set<string>): seq<string> {
    BoundNames(v.roleBindings, |v.roleBindings|, ROLE_KIND, ByName(v.roles).Keys, accounts)
  }

  /** Names of ClusterRoles given to CSV accounts by RoleBindings. */
  function InClusterRoleNamesNamespaced(v: View, accounts: set<string>): seq<string> {
    BoundNames(v.roleBindings, |v.roleBindings|, CLUSTER_ROLE_KIND, ByName(v.clusterRoles).Keys, accounts)
  }

  /** Names of ClusterRoles given to CSV accounts by ClusterRoleBindings. */
  function InClusterRoleNamesCluster(v: View, accounts: set<string>): seq<string> {
    BoundNames(v.clusterRoleBindings, |v.clusterRoleBindings|, CLUSTER_ROLE_KIND, ByName(v.clusterRoles).Keys, accounts)
  }

  /** The first n names looked up in a map each name is deleted from once it was found. */
  function RoleObjects(roles: map<string, Role>, names: seq<string>, n: nat): (r: seq<Object>)
    requires n <= |names|
    ensures |r| == n
  {
    if n == 0 then []
    else
      var name := names[n - 1];
      RoleObjects(roles, names, n - 1) +
      [RoleObject(if name in roles && name !in names[..n - 1] then Some(roles[name]) else None)]
  }

  function Lookup(roles: map<string, Role>, name: string): Option<Role> {
    if name in roles then Some(roles[name]) else None
  }

  function ClusterRoleObjects(roles: map<string, Role>, names: seq<string>): (r: seq<Object>)
    ensures |r| == |names|
  {
    seq(|names|, i requires 0 <= i < |names| => ClusterRoleObject(Lookup(roles, names[i])))
  }

  /** The RoleBindings with a reference that does not resolve or a subject outside the CSV. */
  function LeftBindings(vs: seq<BindingValue>, n: nat, roleNames: set<string>, cRoleNames: set<string>,
                        accounts: set<string>): seq<BindingValue>
    requires n <= |vs|
  {
    if n == 0 then []
    else LeftBindings(vs, n - 1, roleNames, cRoleNames, accounts) +
         if Stays(vs[n - 1], ROLE_KIND, roleNames, accounts)
           && Stays(vs[n - 1], CLUSTER_ROLE_KIND, cRoleNames, accounts)
         then [vs[n - 1]] else []
  }

  function LeftBindingsOf(v: View, accounts: set<string>): seq<BindingValue> {
    LeftBindings(v.roleBindings, |v.roleBindings|, ByName(v.roles).Keys, ByName(v.clusterRoles).Keys, accounts)
  }

  function LeftClusterBindingsOf(v: View, accounts: set<string>): seq<BindingValue> {
    var vs := v.clusterRoleBindings;
    Staying(vs, vs, |vs|, CLUSTER_ROLE_KIND, ByName(v.clusterRoles).Keys, accounts)
  }

  lemma RoleKindsDiffer()
    ensures ROLE_KIND != CLUSTER_ROLE_KIND
  {
    assert |ROLE_KIND| != |CLUSTER_ROLE_KIND|;
  }

  lemma {:induction false} SecondPassOnValues(vs: seq<BindingValue>, n: nat, rn: set<string>, crn: set<string>,
                                              sas: set<string>)
    requires n <= |vs|
    ensures var kept := Staying(vs, vs, n, ROLE_KIND, rn, sas);
            && BoundNames(kept, |kept|, CLUSTER_ROLE_KIND, crn, sas) == BoundNames(vs, n, CLUSTER_ROLE_KIND, crn, sas)
            && Staying(kept, kept, |kept|, CLUSTER_ROLE_KIND, crn, sas) == LeftBindings(vs, n, rn, crn, sas)
  {
    if n > 0 {
      RoleKindsDiffer();
      SecondPassOnValues(vs, n - 1, rn, crn, sas);
      var before, b := Staying(vs, vs, n - 1, ROLE_KIND, rn, sas), vs[n - 1];
      var kept := Staying(vs, vs, n, ROLE_KIND, rn, sas);
      if Stays(b, ROLE_KIND, rn, sas) {
        assert kept == before + [b];
        PassPrefix(before, kept, |before|, CLUSTER_ROLE_KIND, crn, sas);
        assert kept[|kept| - 1] == b;
      } else {
        assert kept == before;
        assert !Resolves(b.roleRef, CLUSTER_ROLE_KIND, crn);
        assert BoundNames(vs, n, CLUSTER_ROLE_KIND, crn, sas) == BoundNames(vs, n - 1, CLUSTER_ROLE_KIND, crn, sas);
        assert LeftBindings(vs, n, rn, crn, sas) == LeftBindings(vs, n - 1, rn, crn, sas);
      }
    }
  }

  lemma {:induction false} PassPrefix(a: seq<BindingValue>, b: seq<BindingValue>, n: nat, kind: string,
                                      rn: set<string>, sas: set<string>)
    requires n <= |a| && n <= |b| && forall i :: 0 <= i < n ==> a[i] == b[i]
    ensures BoundNames(a, n, kind, rn, sas) == BoundNames(b, n, kind, rn, sas)
    ensures Staying(a, a, n, kind, rn, sas) == Staying(b, b, n, kind, rn, sas)
  {
    if n > 0 { PassPrefix(a, b, n - 1, kind, rn, sas); }
  }

  function BindingNames(list: seq<Binding>): seq<string> {
    seq(|list|, i requires 0 <= i < |list| => list[i].name)
  }

  function ValueNames(vs: seq<BindingValue>): seq<string> {
    seq(|vs|, i requires 0 <= i < |vs| => vs[i].name)
  }

  /** b has the name and reference of v, and its subjects if the reference does not resolve for the kind. */
  predicate AsBefore(b: BindingValue, v: BindingValue, kind: string, rn: set<string>) {
    b.name == v.name && b.roleRef == v.roleRef && (!Resolves(v.roleRef, kind, rn) ==> b == v)
  }

  /** Which bindings a pass names and keeps depends only on the subjects of those that resolve for it. */
  lemma {:induction false} PassAgrees(list: seq<Binding>, vs: seq<BindingValue>, kept: seq<BindingValue>, n: nat,
                                      rn: set<string>, crn: set<string>, sas: set<string>)
    requires |list| == |vs| == |kept| && n <= |vs|
    requires forall i :: 0 <= i < |vs| ==> AsBefore(vs[i], kept[i], ROLE_KIND, rn) && list[i].name == kept[i].name
    ensures BoundNames(vs, n, CLUSTER_ROLE_KIND, crn, sas) == BoundNames(kept, n, CLUSTER_ROLE_KIND, crn, sas)
    ensures BindingNames(Staying(list, vs, n, CLUSTER_ROLE_KIND, crn, sas)) ==
            ValueNames(Staying(kept, kept, n, CLUSTER_ROLE_KIND, crn, sas))
  {
    if n > 0 {
      RoleKindsDiffer();
      PassAgrees(list, vs, kept, n - 1, rn, crn, sas);
      assert AsBefore(vs[n - 1], kept[n - 1], ROLE_KIND, rn);
      var before, beforeKept := Staying(list, vs, n - 1, CLUSTER_ROLE_KIND, crn, sas),
        Staying(kept, kept, n - 1, CLUSTER_ROLE_KIND, crn, sas);
      assert BindingNames(before + [list[n - 1]]) == BindingNames(before) + [list[n - 1].name];
      assert ValueNames(beforeKept + [kept[n - 1]]) == ValueNames(beforeKept) + [kept[n - 1].name];
      assert before + [] == before && beforeKept + [] == beforeKept;
    }
  }

  /** The positions from which a pass keeps bindings. */
  lemma {:induction false} StayingIndices<T>(list: seq<T>, vs: seq<BindingValue>, n: nat, kind: string,
                                             rn: set<string>, sas: set<string>)
    returns (idx: seq<nat>)
    requires n <= |vs| == |list|
    ensures |idx| == |Staying(list, vs, n, kind, rn, sas)| == |Staying(vs, vs, n, kind, rn, sas)|
    ensures forall i :: 0 <= i < |idx| ==> idx[i] < n && Staying(list, vs, n, kind, rn, sas)[i] == list[idx[i]]
    ensures forall i :: 0 <= i < |idx| ==> Staying(vs, vs, n, kind, rn, sas)[i] == vs[idx[i]]
    ensures forall i, j :: 0 <= i < j < |idx| ==> idx[i] < idx[j]
  {
    idx := [];
    if n > 0 {
      idx := StayingIndices(list, vs, n - 1, kind, rn, sas);
      if Stays(vs[n - 1], kind, rn, sas) {
        idx := idx + [n - 1];
      }
    }
  }

  function BindingByName(bs: seq<Binding>): map<string, Binding> {
    if bs == [] then map[] else BindingByName(bs[..|bs| - 1])[bs[|bs| - 1].name := bs[|bs| - 1]]
  }

  lemma {:induction false} BindingByNameKeys(bs: seq<Binding>)
    ensures forall i :: 0 <= i < |bs| ==> bs[i].name in BindingByName(bs)
    ensures forall n :: n in BindingByName(bs) ==> BindingByName(bs)[n].name == n
  {
    if bs != [] { BindingByNameKeys(bs[..|bs| - 1]); }
  }

  /** The bindings left over, as pointers to the collector's own. */
  function RoleBindingObjects(bs: map<string, Binding>, names: seq<string>): (r: seq<Object>)
    requires forall n :: n in names ==> n in bs
  {
    seq(|names|, i requires 0 <= i < |names| => RoleBindingObject(bs[names[i]]))
  }

  function ClusterRoleBindingObjects(bs: map<string, Binding>, names: seq<string>): (r: seq<Object>)
    requires forall n :: n in names ==> n in bs
  {
    seq(|names|, i requires 0 <= i < |names| => ClusterRoleBindingObject(bs[names[i]]))
  }

  function LeftRoleObjects(roles: map<string, Role>, names: seq<string>): seq<Object> {
    seq(|names|, i requires 0 <= i < |names| => RoleObject(Lookup(roles, names[i])))
  }

  function LeftAccounts(serviceAccounts: seq<string>, accounts: set<string>, n: nat): seq<Object>
    requires n <= |serviceAccounts|
  {
    if n == 0 then []
    else LeftAccounts(serviceAccounts, accounts, n - 1) +
         if serviceAccounts[n - 1] in accounts then [] else [ServiceAccountObject(serviceAccounts[n - 1])]
  }

  // ----- The split -----

  method IndexRoles(roles: seq<Role>) returns (m: map<string, Role>)
    ensures m == ByName(roles)
  {
    m := map[];
    for i := 0 to |roles|
      invariant m == ByName(roles[..i])
    {
      assert roles[..i + 1][..i] == roles[..i];
      m := m[roles[i].name := roles[i]];
    }
    assert roles[..|roles|] == roles;
  }

  method IndexBindings(bs: seq<Binding>) returns (m: map<string, Binding>)
    ensures m == BindingByName(bs)
  {
    m := map[];
    for i := 0 to |bs|
      invariant m == BindingByName(bs[..i])
    {
      assert bs[..i + 1][..i] == bs[..i];
      m := m[bs[i].name := bs[i]];
    }
    assert bs[..|bs|] == bs;
  }

  /** Partial bindings with subject slices of their own. */
  method CopyBindings(bs: seq<Binding>) returns (copies: seq<Binding>)
    ensures |copies| == |bs| && Separate(copies)
    ensures forall i :: 0 <= i < |bs| ==> fresh(copies[i].subjects) && ValueOf(copies[i]) == ValueOf(bs[i])
  {
    copies := [];
    for i := 0 to |bs|
      invariant |copies| == i && Separate(copies)
      invariant forall k :: 0 <= k < i ==> fresh(copies[k].subjects) && ValueOf(copies[k]) == ValueOf(bs[k])
    {
      var from := bs[i].subjects;
      var subjects := new Subject[from.Length](k requires 0 <= k < from.Length reads from => from[k]);
      assert subjects[..] == from[..];
      copies := copies + [Binding(bs[i].name, bs[i].roleRef, subjects)];
    }
  }

  /** Moves the named Roles out of the map, deleting each name as it goes; then lists what is left. */
  method TakeRoles(roles: map<string, Role>, names: seq<string>)
    returns (objs: seq<Object>, rest: seq<Object>, ghost rs: seq<string>)
    ensures objs == RoleObjects(roles, names, |names|)
    ensures NoDup(rs) && forall n :: n in rs <==> n in roles && n !in names
    ensures rest == LeftRoleObjects(roles, rs)
  {
    objs := [];
    var left := roles;
    for i := 0 to |names|
      invariant objs == RoleObjects(roles, names, i)
      invariant left == roles - set n | n in names[..i]
    {
      objs := objs + [RoleObject(Lookup(left, names[i]))];
      left := left - {names[i]};
      assert names[..i + 1] == names[..i] + [names[i]];
    }
    assert names[..|names|] == names;
    var ks := RangeKeys(left.Keys);
    rs := ks;
    assert forall i :: 0 <= i < |ks| ==> ks[i] in ks && Lookup(left, ks[i]) == Lookup(roles, ks[i]);
    rest := LeftRoleObjects(left, ks);
  }

  /** Deletes the named ClusterRoles from the map and lists what is left. */
  method LeaveClusterRoles(cRoles: map<string, Role>, names: seq<string>)
    returns (rest: seq<Object>, ghost crs: seq<string>)
    ensures NoDup(crs) && forall n :: n in crs <==> n in cRoles && n !in names
    ensures rest == ClusterRoleObjects(cRoles, crs)
  {
    var left := cRoles;
    for i := 0 to |names|
      invariant left == cRoles - set n | n in names[..i]
    {
      left := left - {names[i]};
      assert names[..i + 1] == names[..i] + [names[i]];
    }
    assert names[..|names|] == names;
    var ks := RangeKeys(left.Keys);
    crs := ks;
    assert forall i :: 0 <= i < |ks| ==> ks[i] in ks && Lookup(left, ks[i]) == Lookup(cRoles, ks[i]);
    rest := ClusterRoleObjects(left, ks);
  }

  method CollectAccounts(deployments: seq<string>, extraSAs: seq<string>) returns (csvSAs: set<string>)
    ensures csvSAs == Accounts(deployments, extraSAs)
  {
    csvSAs := {};
    for i := 0 to |deployments|
      invariant csvSAs == set d | d in deployments[..i] :: AccountOf(d)
    {
      assert deployments[..i + 1] == deployments[..i] + [deployments[i]];
      assert (set d | d in deployments[..i + 1] :: AccountOf(d)) ==
             (set d | d in deployments[..i] :: AccountOf(d)) + {AccountOf(deployments[i])};
      csvSAs := csvSAs + {if deployments[i] == "" then DEFAULT_SERVICE_ACCOUNT else deployments[i]};
    }
    assert deployments[..|deployments|] == deployments;
    for i := 0 to |extraSAs|
      invariant csvSAs == (set d | d in deployments :: AccountOf(d)) + set e | e in extraSAs[..i]
    {
      csvSAs := csvSAs + {extraSAs[i]};
      assert extraSAs[..i + 1] == extraSAs[..i] + [extraSAs[i]];
    }
    assert extraSAs[..|extraSAs|] == extraSAs;
  }

  /** Both passes over the RoleBindings: for Roles, then for ClusterRoles. */
  method PassTwice(bs: seq<Binding>, roleNames: set<string>, cRoleNames: set<string>, csvSAs: set<string>)
    returns (inRoleNames: seq<string>, inCRoleNames: seq<string>, left: seq<string>)
    ensures inRoleNames == BoundNames(old(ValuesOf(bs)), |bs|, ROLE_KIND, roleNames, csvSAs)
    ensures inCRoleNames == BoundNames(old(ValuesOf(bs)), |bs|, CLUSTER_ROLE_KIND, cRoleNames, csvSAs)
    ensures left == ValueNames(LeftBindings(old(ValuesOf(bs)), |bs|, roleNames, cRoleNames, csvSAs))
  {
    var copies := CopyBindings(bs);
    ghost var vs := old(ValuesOf(bs));
    assert ValuesOf(copies) == vs;
    var p := new PartialBindings(copies);
    inRoleNames := p.GetRolesBoundToPartialBindings(ROLE_KIND, roleNames, csvSAs);
    assert forall k :: 0 <= k < |copies| ==> copies[k] in copies;
    AfterFirstPass(copies, vs, p.list, roleNames, csvSAs);
    SecondPass(p.list, ValuesOf(p.list), vs, roleNames, cRoleNames, csvSAs);
    inCRoleNames := p.GetRolesBoundToPartialBindings(CLUSTER_ROLE_KIND, cRoleNames, csvSAs);
    left := BindingNames(p.list);
  }

  /** The first pass may have changed subjects in place, but not of any binding the second looks at. */
  lemma AfterFirstPass(copies: seq<Binding>, vs: seq<BindingValue>, list: seq<Binding>, rn: set<string>,
                       sas: set<string>)
    requires |vs| == |copies| && Separate(copies)
    requires forall k :: 0 <= k < |copies| ==> AsBefore(ValueOf(copies[k]), vs[k], ROLE_KIND, rn)
    requires list == Staying(copies, vs, |vs|, ROLE_KIND, rn, sas)
    ensures Separate(list) && forall i :: 0 <= i < |list| ==> list[i] in copies
    ensures var kept := Staying(vs, vs, |vs|, ROLE_KIND, rn, sas);
            |list| == |kept| && forall i :: 0 <= i < |list| ==> AsBefore(ValueOf(list[i]), kept[i], ROLE_KIND, rn)
  {
    var idx := StayingIndices(copies, vs, |vs|, ROLE_KIND, rn, sas);
    forall i | 0 <= i < |list|
      ensures list[i] == copies[idx[i]] && AsBefore(ValueOf(list[i]), vs[idx[i]], ROLE_KIND, rn)
    {
    }
  }

  lemma SecondPass(list: seq<Binding>, vs1: seq<BindingValue>, vs: seq<BindingValue>, rn: set<string>,
                   crn: set<string>, sas: set<string>)
    requires var kept := Staying(vs, vs, |vs|, ROLE_KIND, rn, sas);
             && |list| == |vs1| == |kept|
             && forall i :: 0 <= i < |list| ==> AsBefore(vs1[i], kept[i], ROLE_KIND, rn) && list[i].name == vs1[i].name
    ensures BoundNames(vs1, |list|, CLUSTER_ROLE_KIND, crn, sas) == BoundNames(vs, |vs|, CLUSTER_ROLE_KIND, crn, sas)
    ensures BindingNames(Staying(list, vs1, |list|, CLUSTER_ROLE_KIND, crn, sas)) ==
            ValueNames(LeftBindings(vs, |vs|, rn, crn, sas))
  {
    var kept := Staying(vs, vs, |vs|, ROLE_KIND, rn, sas);
    PassAgrees(list, vs1, kept, |kept|, rn, crn, sas);
    SecondPassOnValues(vs, |vs|, rn, crn, sas);
  }

  /** The three lists of a split; rs and crs are the orders in which the leftover roles are listed. */
  ghost predicate IsSplit(v: View, rbs: map<string, Binding>, crbs: map<string, Binding>, accounts: set<string>,
                          inPerms: seq<Object>, inCPerms: seq<Object>, out: seq<Object>,
                          rs: seq<string>, crs: seq<string>)
  {
    var roles, cRoles := ByName(v.roles), ByName(v.clusterRoles);
    var inRoles := InRoleNames(v, accounts);
    var inCRolesN, inCRolesC := InClusterRoleNamesNamespaced(v, accounts), InClusterRoleNamesCluster(v, accounts);
    var left, leftC := ValueNames(LeftBindingsOf(v, accounts)), ValueNames(LeftClusterBindingsOf(v, accounts));
    && inPerms == RoleObjects(roles, inRoles, |inRoles|) + ClusterRoleObjects(cRoles, inCRolesN)
    && inCPerms == ClusterRoleObjects(cRoles, inCRolesC)
    && NoDup(rs) && (forall n :: n in rs <==> n in roles && n !in inRoles)
    && NoDup(crs) && (forall n :: n in crs <==> n in cRoles && n !in inCRolesN && n !in inCRolesC)
    && (forall n :: n in left ==> n in rbs) && (forall n :: n in leftC ==> n in crbs)
    && out == LeftRoleObjects(roles, rs) + ClusterRoleObjects(cRoles, crs)
              + RoleBindingObjects(rbs, left) + ClusterRoleBindingObjects(crbs, leftC)
              + LeftAccounts(v.serviceAccounts, accounts, |v.serviceAccounts|)
  }

  lemma {:induction false} LeftBindingsNamed(vs: seq<BindingValue>, n: nat, rn: set<string>, crn: set<string>,
                                             sas: set<string>, names: set<string>)
    requires n <= |vs| && forall i :: 0 <= i < |vs| ==> vs[i].name in names
    ensures forall x :: x in ValueNames(LeftBindings(vs, n, rn, crn, sas)) ==> x in names
    ensures forall x :: x in ValueNames(Staying(vs, vs, n, CLUSTER_ROLE_KIND, crn, sas)) ==> x in names
  {
    if n > 0 {
      LeftBindingsNamed(vs, n - 1, rn, crn, sas, names);
      var a, b := LeftBindings(vs, n - 1, rn, crn, sas), Staying(vs, vs, n - 1, CLUSTER_ROLE_KIND, crn, sas);
      assert ValueNames(a + [vs[n - 1]]) == ValueNames(a) + [vs[n - 1].name];
      assert ValueNames(b + [vs[n - 1]]) == ValueNames(b) + [vs[n - 1].name];
      assert a + [] == a && b + [] == b;
    }
  }

  class Manifests {
    var deployments: seq<string>
    var roles: seq<Role>
    var clusterRoles: seq<Role>
    var roleBindings: seq<Binding>
    var clusterRoleBindings: seq<Binding>
    var serviceAccounts: seq<string>

    ghost function Contents(): View
      reads this, (set i | 0 <= i < |roleBindings| :: roleBindings[i].subjects),
            (set i | 0 <= i < |clusterRoleBindings| :: clusterRoleBindings[i].subjects)
    {
      View(deployments, roles, clusterRoles, ValuesOf(roleBindings), ValuesOf(clusterRoleBindings), serviceAccounts)
    }

    /** Splits the roles between the CSV's permissions and the objects left over. It has no
        modifies clause: the collector and the subjects of its bindings stay as they are. */
    method SplitCsvPermissionsObjects(extraSAs: seq<string>)
      returns (inPerms: seq<Object>, inCPerms: seq<Object>, out: seq<Object>, ghost rs: seq<string>,
               ghost crs: seq<string>)
      ensures IsSplit(old(Contents()), BindingByName(roleBindings), BindingByName(clusterRoleBindings),
                      Accounts(deployments, extraSAs), inPerms, inCPerms, out, rs, crs)
    {
      ghost var v, rbs, crbs := Contents(), roleBindings, clusterRoleBindings;
      var csvSAs := CollectAccounts(deployments, extraSAs);
      var roleMap := IndexRoles(roles);
      var cRoleMap := IndexRoles(clusterRoles);
      assert roleBindings == rbs && clusterRoleBindings == crbs;
      assert ValuesOf(rbs) == v.roleBindings && ValuesOf(crbs) == v.clusterRoleBindings;
      assert Contents() == v;
      var inRoleNames, inCRoleNamesN, inCRoleNamesC, left, leftC := BoundToAccounts(roleMap, cRoleMap, csvSAs);
      var roleBindingMap := IndexBindings(roleBindings);
      var cRoleBindingMap := IndexBindings(clusterRoleBindings);
      var leftRoles, leftCRoles;
      inPerms, leftRoles, rs := TakeRoles(roleMap, inRoleNames);
      inPerms := inPerms + ClusterRoleObjects(cRoleMap, inCRoleNamesN);
      inCPerms := ClusterRoleObjects(cRoleMap, inCRoleNamesC);
      leftCRoles, crs := LeaveClusterRoles(cRoleMap, inCRoleNamesN + inCRoleNamesC);
      var accountsLeft := AccountsLeft(csvSAs);
      out := leftRoles + leftCRoles + RoleBindingObjects(roleBindingMap, left)
             + ClusterRoleBindingObjects(cRoleBindingMap, leftC) + accountsLeft;
      ShowSplit(v, roleBindingMap, cRoleBindingMap, csvSAs, inRoleNames, inCRoleNamesN, inCRoleNamesC,
                left, leftC, inPerms, inCPerms, out, rs, crs);
    }

    /** The names of the roles given to the accounts, and of the bindings that stay outside the CSV. */
    method BoundToAccounts(roleMap: map<string, Role>, cRoleMap: map<string, Role>, csvSAs: set<string>)
      returns (inRoleNames: seq<string>, inCRoleNamesN: seq<string>, inCRoleNamesC: seq<string>, left: seq<string>,
               leftC: seq<string>)
      requires roleMap == ByName(roles) && cRoleMap == ByName(clusterRoles)
      ensures inRoleNames == InRoleNames(old(Contents()), csvSAs)
      ensures inCRoleNamesN == InClusterRoleNamesNamespaced(old(Contents()), csvSAs)
      ensures inCRoleNamesC == InClusterRoleNamesCluster(old(Contents()), csvSAs)
      ensures left == ValueNames(LeftBindingsOf(old(Contents()), csvSAs))
      ensures leftC == ValueNames(LeftClusterBindingsOf(old(Contents()), csvSAs))
      ensures forall n :: n in left ==> n in BindingByName(roleBindings)
      ensures forall n :: n in leftC ==> n in BindingByName(clusterRoleBindings)
    {
      LeftAreNamed(Contents(), roleBindings, clusterRoleBindings, csvSAs);
      ghost var vs := ValuesOf(clusterRoleBindings);
      inRoleNames, inCRoleNamesN, left := PassTwice(roleBindings, roleMap.Keys, cRoleMap.Keys, csvSAs);
      assert forall i :: 0 <= i < |vs| ==>
               clusterRoleBindings[i].subjects[..] == old(clusterRoleBindings[i].subjects[..]);
      assert ValuesOf(clusterRoleBindings) == vs;
      inCRoleNamesC, leftC := PassOnce(clusterRoleBindings, cRoleMap.Keys, csvSAs);
    }

    method AccountsLeft(csvSAs: set<string>) returns (objs: seq<Object>)
      ensures objs == LeftAccounts(serviceAccounts, csvSAs, |serviceAccounts|)
    {
      objs := [];
      for i := 0 to |serviceAccounts|
        invariant objs == LeftAccounts(serviceAccounts, csvSAs, i)
      {
        if serviceAccounts[i] !in csvSAs {
          objs := objs + [ServiceAccountObject(serviceAccounts[i])];
        }
      }
    }
  }

  lemma ShowSplit(v: View, rbs: map<string, Binding>, crbs: map<string, Binding>, accounts: set<string>,
                  inRoleNames: seq<string>, inCRoleNamesN: seq<string>, inCRoleNamesC: seq<string>,
                  left: seq<string>, leftC: seq<string>,
                  inPerms: seq<Object>, inCPerms: seq<Object>, out: seq<Object>, rs: seq<string>, crs: seq<string>)
    requires inRoleNames == InRoleNames(v, accounts)
    requires inCRoleNamesN == InClusterRoleNamesNamespaced(v, accounts)
    requires inCRoleNamesC == InClusterRoleNamesCluster(v, accounts)
    requires left == ValueNames(LeftBindingsOf(v, accounts)) && leftC == ValueNames(LeftClusterBindingsOf(v, accounts))
    requires (forall n :: n in left ==> n in rbs) && (forall n :: n in leftC ==> n in crbs)
    requires inPerms == RoleObjects(ByName(v.roles), inRoleNames, |inRoleNames|)
             + ClusterRoleObjects(ByName(v.clusterRoles), inCRoleNamesN)
    requires inCPerms == ClusterRoleObjects(ByName(v.clusterRoles), inCRoleNamesC)
    requires NoDup(rs) && forall n :: n in rs <==> n in ByName(v.roles) && n !in inRoleNames
    requires NoDup(crs) && forall n :: n in crs <==> n in ByName(v.clusterRoles) && n !in inCRoleNamesN + inCRoleNamesC
    requires out == LeftRoleObjects(ByName(v.roles), rs) + ClusterRoleObjects(ByName(v.clusterRoles), crs)
                    + RoleBindingObjects(rbs, left) + ClusterRoleBindingObjects(crbs, leftC)
                    + LeftAccounts(v.serviceAccounts, accounts, |v.serviceAccounts|)
    ensures IsSplit(v, rbs, crbs, accounts, inPerms, inCPerms, out, rs, crs)
  {
  }

  lemma LeftAreNamed(v: View, rbs: seq<Binding>, crbs: seq<Binding>, accounts: set<string>)
    requires v.roleBindings == ValuesOf(rbs) && v.clusterRoleBindings == ValuesOf(crbs)
    ensures forall n :: n in ValueNames(LeftBindingsOf(v, accounts)) ==> n in BindingByName(rbs)
    ensures forall n :: n in ValueNames(LeftClusterBindingsOf(v, accounts)) ==> n in BindingByName(crbs)
  {
    var rn, crn := ByName(v.roles).Keys, ByName(v.clusterRoles).Keys;
    BindingByNameKeys(rbs);
    BindingByNameKeys(crbs);
    LeftBindingsNamed(v.roleBindings, |rbs|, rn, crn, accounts, BindingByName(rbs).Keys);
    LeftBindingsNamed(v.clusterRoleBindings, |crbs|, rn, crn, accounts, BindingByName(crbs).Keys);
  }

  /** The pass over the ClusterRoleBindings. */
  method PassOnce(bs: seq<Binding>, cRoleNames: set<string>, csvSAs: set<string>)
    returns (inCRoleNames: seq<string>, left: seq<string>)
    ensures inCRoleNames == BoundNames(old(ValuesOf(bs)), |bs|, CLUSTER_ROLE_KIND, cRoleNames, csvSAs)
    ensures left == ValueNames(Staying(old(ValuesOf(bs)), old(ValuesOf(bs)), |bs|, CLUSTER_ROLE_KIND, cRoleNames,
                                       csvSAs))
  {
    var copies := CopyBindings(bs);
    ghost var vs := old(ValuesOf(bs));
    assert ValuesOf(copies) == vs;
    var p := new PartialBindings(copies);
    inCRoleNames := p.GetRolesBoundToPartialBindings(CLUSTER_ROLE_KIND, cRoleNames, csvSAs);
    left := BindingNames(p.list);
    PassAgrees(copies, vs, vs, |vs|, cRoleNames, cRoleNames, csvSAs);
  }
}
