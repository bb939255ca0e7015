/** The split read off the collected manifests, binding by binding and subject by subject. */
module RbacReading {
  import opened Slices
  import opened RbacSplit

  // ----- What the manifests say -----

  /** A service account of the CSV: named by a deployment, the default one if a deployment names none, or extra. */
  ghost predicate IsCsvAccount(deployments: seq<string>, extraSAs: seq<string>, sa: string) {
    sa in extraSAs || (sa != "" && sa in deployments) || (sa == "default" && "" in deployments)
  }

  lemma AccountsIff(deployments: seq<string>, extraSAs: seq<string>, sa: string)
    ensures sa in Accounts(deployments, extraSAs) <==> IsCsvAccount(deployments, extraSAs, sa)
  {
    if sa == "default" && "" in deployments {
      assert AccountOf("") == sa;
    }
    if sa != "" && sa in deployments {
      assert AccountOf(sa) == sa;
    }
  }

  function RoleName(r: Role): string {
    r.name
  }

  function BindingName(b: Binding): string {
    b.name
  }

  ghost predicate LastAt<T>(s: seq<T>, nameOf: T -> string, name: string, i: nat) {
    i < |s| && nameOf(s[i]) == name && forall j :: i < j < |s| ==> nameOf(s[j]) != name
  }

  /** The last element with the name is x. */
  ghost predicate LastNamed<T>(s: seq<T>, nameOf: T -> string, name: string, x: T) {
    exists i: nat :: LastAt(s, nameOf, name, i) && s[i] == x
  }

  lemma LastNamedSnoc<T>(front: seq<T>, last: T, nameOf: T -> string, name: string, x: T)
    ensures LastNamed(front + [last], nameOf, name, x) <==>
            if nameOf(last) == name then x == last else LastNamed(front, nameOf, name, x)
  {
    var all := front + [last];
    assert all[|front|] == last && forall i :: 0 <= i < |front| ==> all[i] == front[i];
    if nameOf(last) == name {
      assert LastAt(all, nameOf, name, |front|);
    } else {
      assert forall i: nat :: LastAt(all, nameOf, name, i) <==> LastAt(front, nameOf, name, i);
    }
  }

  lemma {:induction false} ByNameIff(roles: seq<Role>, name: string, r: Role)
    ensures LastNamed(roles, RoleName, name, r) <==> name in ByName(roles) && ByName(roles)[name] == r
  {
    if roles != [] {
      var front, last := roles[..|roles| - 1], roles[|roles| - 1];
      assert roles == front + [last];
      LastNamedSnoc(front, last, RoleName, name, r);
      ByNameIff(front, name, r);
    }
  }

  lemma {:induction false} BindingByNameIff(bs: seq<Binding>, name: string, b: Binding)
    ensures LastNamed(bs, BindingName, name, b) <==> name in BindingByName(bs) && BindingByName(bs)[name] == b
  {
    if bs != [] {
      var front, last := bs[..|bs| - 1], bs[|bs| - 1];
      assert bs == front + [last];
      LastNamedSnoc(front, last, BindingName, name, b);
      BindingByNameIff(front, name, b);
    }
  }

  ghost predicate IsNamed(roles: seq<Role>, name: string) {
    exists r :: LastNamed(roles, RoleName, name, r)
  }

  ghost predicate RefersTo(ref: RoleRef, kind: string, roles: seq<Role>) {
    && ref.kind == kind && (ref.apiGroup == "" || ref.apiGroup == "rbac.authorization.k8s.io")
    && IsNamed(roles, ref.name)
  }

  /** The subject is a service account of the CSV. */
  ghost predicate IsServed(s: Subject, accounts: set<string>) {
    s.kind == "ServiceAccount" && s.name in accounts
  }

  /** The binding gives a role of this kind to a service account of the CSV. */
  ghost predicate Gives(b: BindingValue, kind: string, roles: seq<Role>, accounts: set<string>) {
    RefersTo(b.roleRef, kind, roles) && exists s :: s in b.subjects && IsServed(s, accounts)
  }

  /** The binding gives such a role, and gives it to nobody but service accounts of the CSV. */
  ghost predicate GivesOnly(b: BindingValue, kind: string, roles: seq<Role>, accounts: set<string>) {
    RefersTo(b.roleRef, kind, roles) && forall s :: s in b.subjects ==> IsServed(s, accounts)
  }

  lemma RefersIff(ref: RoleRef, kind: string, roles: seq<Role>)
    ensures RefersTo(ref, kind, roles) <==> Resolves(ref, kind, ByName(roles).Keys)
  {
    if r :| LastNamed(roles, RoleName, ref.name, r) {
      ByNameIff(roles, ref.name, r);
    }
    if ref.name in ByName(roles) {
      ByNameIff(roles, ref.name, ByName(roles)[ref.name]);
    }
  }

  lemma {:induction false} NoOtherSubjects(subjects: seq<Subject>, accounts: set<string>)
    ensures OtherSubjects(subjects, accounts) == [] <==> forall s :: s in subjects ==> IsServed(s, accounts)
  {
    assert forall s :: IsServed(s, accounts) <==> CsvSubject(s, accounts);
    if subjects != [] {
      NoOtherSubjects(subjects[1..], accounts);
      assert forall s :: s in subjects <==> s == subjects[0] || s in subjects[1..];
    }
  }

  lemma GivesIff(b: BindingValue, kind: string, roles: seq<Role>, accounts: set<string>)
    ensures Gives(b, kind, roles, accounts) <==> Names(b, kind, ByName(roles).Keys, accounts)
    ensures GivesOnly(b, kind, roles, accounts) <==> !Stays(b, kind, ByName(roles).Keys, accounts)
  {
    RefersIff(b.roleRef, kind, roles);
    NoOtherSubjects(b.subjects, accounts);
    assert forall s :: IsServed(s, accounts) <==> CsvSubject(s, accounts);
    if s :| s in b.subjects && IsServed(s, accounts) {
      var i :| 0 <= i < |b.subjects| && b.subjects[i] == s;
      assert CsvSubject(b.subjects[i], accounts);
    }
  }

  // ----- The names a pass finds and the bindings it keeps -----

  ghost function Giving(kind: string, roles: seq<Role>, accounts: set<string>): BindingValue -> bool {
    b => Gives(b, kind, roles, accounts)
  }

  ghost predicate RefersBy(b: BindingValue, name: string) {
    b.roleRef.name == name
  }

  /** The role names, binding by binding, of the bindings that give a role of this kind to an account of the CSV. */
  ghost predicate AreGiven(vs: seq<BindingValue>, kind: string, roles: seq<Role>, accounts: set<string>,
                           names: seq<string>) {
    Picked(vs, Giving(kind, roles, accounts), RefersBy, names)
  }

  lemma {:induction false} BoundNamesGiven(vs: seq<BindingValue>, n: nat, kind: string, roles: seq<Role>,
                                           accounts: set<string>)
    requires n <= |vs|
    ensures AreGiven(vs[..n], kind, roles, accounts, BoundNames(vs, n, kind, ByName(roles).Keys, accounts))
  {
    if n > 0 {
      var b, names := vs[n - 1], BoundNames(vs, n - 1, kind, ByName(roles).Keys, accounts);
      BoundNamesGiven(vs, n - 1, kind, roles, accounts);
      GivesIff(b, kind, roles, accounts);
      PickedNext(vs[..n - 1], b, Giving(kind, roles, accounts), RefersBy, names, b.roleRef.name);
      assert vs[..n] == vs[..n - 1] + [b] && names + [] == names;
    }
  }

  /** RoleBindings that stay among the other objects. */
  ghost function StaysOut(v: View, accounts: set<string>): BindingValue -> bool {
    b => !GivesOnly(b, "Role", v.roles, accounts) && !GivesOnly(b, "ClusterRole", v.clusterRoles, accounts)
  }

  ghost function ClusterStaysOut(v: View, accounts: set<string>): BindingValue -> bool {
    b => !GivesOnly(b, "ClusterRole", v.clusterRoles, accounts)
  }

  ghost predicate HasName(b: BindingValue, name: string) {
    b.name == name
  }

  lemma KeepNext(vs: seq<BindingValue>, n: nat, keep: BindingValue -> bool, left: seq<BindingValue>)
    requires 0 < n <= |vs| && Picked(vs[..n - 1], keep, HasName, ValueNames(left))
    ensures Picked(vs[..n], keep, HasName, ValueNames(left + if keep(vs[n - 1]) then [vs[n - 1]] else []))
  {
    var b := vs[n - 1];
    PickedNext(vs[..n - 1], b, keep, HasName, ValueNames(left), b.name);
    assert vs[..n] == vs[..n - 1] + [b];
    assert ValueNames(left + [b]) == ValueNames(left) + [b.name] && left + [] == left;
  }

  lemma {:induction false} LeftStay(v: View, accounts: set<string>, n: nat)
    requires n <= |v.roleBindings|
    ensures Picked(v.roleBindings[..n], StaysOut(v, accounts), HasName,
                   ValueNames(LeftBindings(v.roleBindings, n, ByName(v.roles).Keys, ByName(v.clusterRoles).Keys,
                                           accounts)))
  {
    if n > 0 {
      var b := v.roleBindings[n - 1];
      var left := LeftBindings(v.roleBindings, n - 1, ByName(v.roles).Keys, ByName(v.clusterRoles).Keys, accounts);
      LeftStay(v, accounts, n - 1);
      GivesIff(b, "Role", v.roles, accounts);
      GivesIff(b, "ClusterRole", v.clusterRoles, accounts);
      KeepNext(v.roleBindings, n, StaysOut(v, accounts), left);
    }
  }

  lemma {:induction false} ClusterLeftStay(v: View, accounts: set<string>, n: nat)
    requires n <= |v.clusterRoleBindings|
    ensures var vs := v.clusterRoleBindings;
            Picked(vs[..n], ClusterStaysOut(v, accounts), HasName,
                   ValueNames(Staying(vs, vs, n, CLUSTER_ROLE_KIND, ByName(v.clusterRoles).Keys, accounts)))
  {
    var vs := v.clusterRoleBindings;
    if n > 0 {
      var b, left := vs[n - 1], Staying(vs, vs, n - 1, CLUSTER_ROLE_KIND, ByName(v.clusterRoles).Keys, accounts);
      ClusterLeftStay(v, accounts, n - 1);
      GivesIff(b, "ClusterRole", v.clusterRoles, accounts);
      KeepNext(vs, n, ClusterStaysOut(v, accounts), left);
    }
  }

  lemma {:induction false} AccountsLeftOut(serviceAccounts: seq<string>, accounts: set<string>, n: nat)
    requires n <= |serviceAccounts|
    ensures Picked(serviceAccounts[..n], Outside(accounts), IsAccountObject, LeftAccounts(serviceAccounts, accounts, n))
  {
    if n > 0 {
      var a, left := serviceAccounts[n - 1], LeftAccounts(serviceAccounts, accounts, n - 1);
      AccountsLeftOut(serviceAccounts, accounts, n - 1);
      AccountNext(serviceAccounts[..n - 1], a, accounts, left);
      assert serviceAccounts[..n] == serviceAccounts[..n - 1] + [a];
    }
  }

  lemma AccountNext(front: seq<string>, a: string, accounts: set<string>, left: seq<Object>)
    requires Picked(front, Outside(accounts), IsAccountObject, left)
    ensures Picked(front + [a], Outside(accounts), IsAccountObject,
                   left + if a in accounts then [] else [ServiceAccountObject(a)])
  {
    PickedNext(front, a, Outside(accounts), IsAccountObject, left, ServiceAccountObject(a));
    assert left + [] == left;
  }

  // ----- The three lists -----

  ghost function Outside(accounts: set<string>): string -> bool {
    a => a !in accounts
  }

  ghost predicate IsAccountObject(a: string, o: Object) {
    o == ServiceAccountObject(a)
  }

  ghost predicate IsRole(o: Object, roles: seq<Role>, name: string) {
    o.RoleObject? && o.role.Some? && LastNamed(roles, RoleName, name, o.role.value)
  }

  ghost predicate IsClusterRole(o: Object, roles: seq<Role>, name: string) {
    o.ClusterRoleObject? && o.clusterRole.Some? && LastNamed(roles, RoleName, name, o.clusterRole.value)
  }

  /** The Roles of these names, each where it is named first; nil where it is named again. */
  ghost predicate AreTaken(roles: seq<Role>, names: seq<string>, objs: seq<Object>) {
    |objs| == |names| && forall k :: 0 <= k < |names| ==>
      if names[k] in names[..k] then objs[k] == RoleObject(None) else IsRole(objs[k], roles, names[k])
  }

  /** The ClusterRoles of these names. */
  ghost predicate AreFound(roles: seq<Role>, names: seq<string>, objs: seq<Object>) {
    |objs| == |names| && forall k :: 0 <= k < |names| ==> IsClusterRole(objs[k], roles, names[k])
  }

  /** The Roles, then the ClusterRoles, that RoleBindings give to the accounts, binding by binding. */
  ghost predicate AreInPerms(v: View, accounts: set<string>, inPerms: seq<Object>) {
    exists names, cNames ::
      && AreGiven(v.roleBindings, "Role", v.roles, accounts, names)
      && AreGiven(v.roleBindings, "ClusterRole", v.clusterRoles, accounts, cNames)
      && |inPerms| == |names| + |cNames|
      && AreTaken(v.roles, names, inPerms[..|names|]) && AreFound(v.clusterRoles, cNames, inPerms[|names|..])
  }

  ghost predicate AreInClusterPerms(v: View, accounts: set<string>, inCPerms: seq<Object>) {
    exists names :: AreGiven(v.clusterRoleBindings, "ClusterRole", v.clusterRoles, accounts, names)
                    && AreFound(v.clusterRoles, names, inCPerms)
  }

  /** Some binding gives the role of this name to an account of the CSV. */
  ghost predicate IsGiven(vs: seq<BindingValue>, kind: string, roles: seq<Role>, accounts: set<string>, name: string) {
    exists b :: b in vs && b.roleRef.name == name && Gives(b, kind, roles, accounts)
  }

  /** Each Role that no RoleBinding gives to an account of the CSV, once. */
  ghost predicate AreRolesLeft(v: View, accounts: set<string>, objs: seq<Object>) {
    exists names: seq<string> ::
      && |names| == |objs| && NoDup(names) && (forall k :: 0 <= k < |names| ==> IsRole(objs[k], v.roles, names[k]))
      && forall n :: n in names <==>
           IsNamed(v.roles, n) && !IsGiven(v.roleBindings, "Role", v.roles, accounts, n)
  }

  /** Each ClusterRole that no binding gives to an account of the CSV, once. */
  ghost predicate AreClusterRolesLeft(v: View, accounts: set<string>, objs: seq<Object>) {
    exists names: seq<string> ::
      && NoDup(names) && AreFound(v.clusterRoles, names, objs)
      && forall n :: n in names <==>
           && IsNamed(v.clusterRoles, n)
           && !IsGiven(v.roleBindings, "ClusterRole", v.clusterRoles, accounts, n)
           && !IsGiven(v.clusterRoleBindings, "ClusterRole", v.clusterRoles, accounts, n)
  }

  ghost function IsCollected(bs: seq<Binding>): (BindingValue, Object) -> bool {
    (b: BindingValue, o: Object) => o.RoleBindingObject? && LastNamed(bs, BindingName, b.name, o.binding)
  }

  ghost function IsClusterCollected(bs: seq<Binding>): (BindingValue, Object) -> bool {
    (b: BindingValue, o: Object) => o.ClusterRoleBindingObject? && LastNamed(bs, BindingName, b.name, o.clusterBinding)
  }

  /** Roles and ClusterRoles in some order, then bindings and accounts as collected. */
  ghost predicate AreParts(v: View, bs: seq<Binding>, cbs: seq<Binding>, accounts: set<string>, roles: seq<Object>,
                           cRoles: seq<Object>, bindings: seq<Object>, cBindings: seq<Object>, sas: seq<Object>) {
    && AreRolesLeft(v, accounts, roles) && AreClusterRolesLeft(v, accounts, cRoles)
    && Picked(v.roleBindings, StaysOut(v, accounts), IsCollected(bs), bindings)
    && Picked(v.clusterRoleBindings, ClusterStaysOut(v, accounts), IsClusterCollected(cbs), cBindings)
    && Picked(v.serviceAccounts, Outside(accounts), IsAccountObject, sas)
  }

  /** Everything the CSV does not take over. */
  ghost predicate AreLeftOut(v: View, bs: seq<Binding>, cbs: seq<Binding>, accounts: set<string>, out: seq<Object>) {
    exists a, b, c, d | 0 <= a <= b <= c <= d <= |out| ::
      AreParts(v, bs, cbs, accounts, out[..a], out[a..b], out[b..c], out[c..d], out[d..])
  }

  lemma {:induction false} BoundNamesResolve(vs: seq<BindingValue>, n: nat, kind: string, rn: set<string>,
                                             sas: set<string>)
    requires n <= |vs|
    ensures forall x :: x in BoundNames(vs, n, kind, rn, sas) ==> x in rn
    ensures forall x :: x in BoundNames(vs, n, kind, rn, sas) <==>
                        exists i :: 0 <= i < n && Names(vs[i], kind, rn, sas) && vs[i].roleRef.name == x
  {
    if n > 0 { BoundNamesResolve(vs, n - 1, kind, rn, sas); }
  }

  lemma GivenIff(vs: seq<BindingValue>, kind: string, roles: seq<Role>, accounts: set<string>, name: string)
    ensures IsGiven(vs, kind, roles, accounts, name) <==>
            name in BoundNames(vs, |vs|, kind, ByName(roles).Keys, accounts)
  {
    BoundNamesResolve(vs, |vs|, kind, ByName(roles).Keys, accounts);
    if b :| b in vs && b.roleRef.name == name && Gives(b, kind, roles, accounts) {
      var i :| 0 <= i < |vs| && vs[i] == b;
      GivesIff(b, kind, roles, accounts);
    }
    if i :| 0 <= i < |vs| && Names(vs[i], kind, ByName(roles).Keys, accounts) && vs[i].roleRef.name == name {
      GivesIff(vs[i], kind, roles, accounts);
    }
  }

  lemma {:induction false} TakenRead(roles: seq<Role>, names: seq<string>, n: nat)
    requires n <= |names| && forall x :: x in names ==> x in ByName(roles)
    ensures AreTaken(roles, names[..n], RoleObjects(ByName(roles), names, n))
  {
    if n > 0 {
      TakenRead(roles, names, n - 1);
      var name, objs := names[n - 1], RoleObjects(ByName(roles), names, n);
      assert name in names;
      NamedIff(roles, name);
      assert names[..n][..n - 1] == names[..n - 1];
      forall k | 0 <= k < n - 1
        ensures names[..n][..k] == names[..n - 1][..k] && objs[k] == RoleObjects(ByName(roles), names, n - 1)[k]
      {
      }
    }
  }

  lemma FoundRead(roles: seq<Role>, names: seq<string>)
    requires forall x :: x in names ==> x in ByName(roles)
    ensures AreFound(roles, names, ClusterRoleObjects(ByName(roles), names))
  {
    forall k | 0 <= k < |names|
      ensures IsClusterRole(ClusterRoleObjects(ByName(roles), names)[k], roles, names[k])
    {
      assert names[k] in names;
      NamedIff(roles, names[k]);
    }
  }

  lemma NamesGiven(vs: seq<BindingValue>, kind: string, roles: seq<Role>, accounts: set<string>)
    ensures var names := BoundNames(vs, |vs|, kind, ByName(roles).Keys, accounts);
            AreGiven(vs, kind, roles, accounts, names) && forall x :: x in names ==> x in ByName(roles)
  {
    assert vs[..|vs|] == vs;
    BoundNamesGiven(vs, |vs|, kind, roles, accounts);
    BoundNamesResolve(vs, |vs|, kind, ByName(roles).Keys, accounts);
  }

  lemma PermsRead(v: View, accounts: set<string>)
    ensures var names := InRoleNames(v, accounts);
            AreInPerms(v, accounts, RoleObjects(ByName(v.roles), names, |names|) +
              ClusterRoleObjects(ByName(v.clusterRoles), InClusterRoleNamesNamespaced(v, accounts)))
  {
    var names, cNames := InRoleNames(v, accounts), InClusterRoleNamesNamespaced(v, accounts);
    NamesGiven(v.roleBindings, "Role", v.roles, accounts);
    NamesGiven(v.roleBindings, "ClusterRole", v.clusterRoles, accounts);
    TakenRead(v.roles, names, |names|);
    FoundRead(v.clusterRoles, cNames);
    assert names[..|names|] == names;
    JoinPerms(v, accounts, names, cNames, RoleObjects(ByName(v.roles), names, |names|),
              ClusterRoleObjects(ByName(v.clusterRoles), cNames));
  }

  lemma JoinPerms(v: View, accounts: set<string>, names: seq<string>, cNames: seq<string>, taken: seq<Object>,
                  found: seq<Object>)
    requires AreGiven(v.roleBindings, "Role", v.roles, accounts, names) && AreTaken(v.roles, names, taken)
    requires AreGiven(v.roleBindings, "ClusterRole", v.clusterRoles, accounts, cNames)
    requires AreFound(v.clusterRoles, cNames, found)
    ensures AreInPerms(v, accounts, taken + found)
  {
    assert (taken + found)[..|names|] == taken && (taken + found)[|names|..] == found;
  }

  lemma ClusterPermsRead(v: View, accounts: set<string>)
    ensures AreInClusterPerms(v, accounts, ClusterRoleObjects(ByName(v.clusterRoles),
                                                              InClusterRoleNamesCluster(v, accounts)))
  {
    NamesGiven(v.clusterRoleBindings, "ClusterRole", v.clusterRoles, accounts);
    FoundRead(v.clusterRoles, InClusterRoleNamesCluster(v, accounts));
  }

  lemma NamedIff(roles: seq<Role>, name: string)
    ensures IsNamed(roles, name) <==> name in ByName(roles)
    ensures name in ByName(roles) ==> LastNamed(roles, RoleName, name, ByName(roles)[name])
  {
    if r :| LastNamed(roles, RoleName, name, r) {
      ByNameIff(roles, name, r);
    }
    if name in ByName(roles) {
      ByNameIff(roles, name, ByName(roles)[name]);
    }
  }

  lemma RolesLeftRead(v: View, accounts: set<string>, rs: seq<string>)
    requires NoDup(rs) && forall n :: n in rs <==> n in ByName(v.roles) && n !in InRoleNames(v, accounts)
    ensures AreRolesLeft(v, accounts, LeftRoleObjects(ByName(v.roles), rs))
  {
    var objs := LeftRoleObjects(ByName(v.roles), rs);
    forall k | 0 <= k < |rs|
      ensures IsRole(objs[k], v.roles, rs[k])
    {
      assert rs[k] in rs;
      NamedIff(v.roles, rs[k]);
    }
    forall n
      ensures n in rs <==> IsNamed(v.roles, n) && !IsGiven(v.roleBindings, "Role", v.roles, accounts, n)
    {
      NamedIff(v.roles, n);
      GivenIff(v.roleBindings, "Role", v.roles, accounts, n);
    }
  }

  lemma ClusterRolesLeftRead(v: View, accounts: set<string>, crs: seq<string>)
    requires NoDup(crs)
    requires forall n :: n in crs <==> && n in ByName(v.clusterRoles)
                                       && n !in InClusterRoleNamesNamespaced(v, accounts)
                                       && n !in InClusterRoleNamesCluster(v, accounts)
    ensures AreClusterRolesLeft(v, accounts, ClusterRoleObjects(ByName(v.clusterRoles), crs))
  {
    FoundRead(v.clusterRoles, crs);
    forall n
      ensures n in crs <==>
              && IsNamed(v.clusterRoles, n)
              && !IsGiven(v.roleBindings, "ClusterRole", v.clusterRoles, accounts, n)
              && !IsGiven(v.clusterRoleBindings, "ClusterRole", v.clusterRoles, accounts, n)
    {
      NamedIff(v.clusterRoles, n);
      GivenIff(v.roleBindings, "ClusterRole", v.clusterRoles, accounts, n);
      GivenIff(v.clusterRoleBindings, "ClusterRole", v.clusterRoles, accounts, n);
    }
  }

  lemma BindingsLeftRead(v: View, bs: seq<Binding>, cbs: seq<Binding>, accounts: set<string>)
    requires forall n :: n in ValueNames(LeftBindingsOf(v, accounts)) ==> n in BindingByName(bs)
    requires forall n :: n in ValueNames(LeftClusterBindingsOf(v, accounts)) ==> n in BindingByName(cbs)
    ensures Picked(v.roleBindings, StaysOut(v, accounts), IsCollected(bs),
                   RoleBindingObjects(BindingByName(bs), ValueNames(LeftBindingsOf(v, accounts))))
    ensures Picked(v.clusterRoleBindings, ClusterStaysOut(v, accounts), IsClusterCollected(cbs),
                   ClusterRoleBindingObjects(BindingByName(cbs), ValueNames(LeftClusterBindingsOf(v, accounts))))
  {
    var names, cNames := ValueNames(LeftBindingsOf(v, accounts)), ValueNames(LeftClusterBindingsOf(v, accounts));
    var objs, cObjs := RoleBindingObjects(BindingByName(bs), names),
      ClusterRoleBindingObjects(BindingByName(cbs), cNames);
    LeftStay(v, accounts, |v.roleBindings|);
    ClusterLeftStay(v, accounts, |v.clusterRoleBindings|);
    assert v.roleBindings[..|v.roleBindings|] == v.roleBindings;
    assert v.clusterRoleBindings[..|v.clusterRoleBindings|] == v.clusterRoleBindings;
    forall k | 0 <= k < |names|
      ensures objs[k] == RoleBindingObject(BindingByName(bs)[names[k]])
      ensures LastNamed(bs, BindingName, names[k], BindingByName(bs)[names[k]])
    {
      assert names[k] in names;
      BindingByNameIff(bs, names[k], BindingByName(bs)[names[k]]);
    }
    forall k | 0 <= k < |cNames|
      ensures cObjs[k] == ClusterRoleBindingObject(BindingByName(cbs)[cNames[k]])
      ensures LastNamed(cbs, BindingName, cNames[k], BindingByName(cbs)[cNames[k]])
    {
      assert cNames[k] in cNames;
      BindingByNameIff(cbs, cNames[k], BindingByName(cbs)[cNames[k]]);
    }
    PickedMade(v.roleBindings, StaysOut(v, accounts), HasName, names, IsCollected(bs), objs);
    PickedMade(v.clusterRoleBindings, ClusterStaysOut(v, accounts), HasName, cNames, IsClusterCollected(cbs), cObjs);
  }

  lemma Join(v: View, bs: seq<Binding>, cbs: seq<Binding>, accounts: set<string>, roles: seq<Object>,
             cRoles: seq<Object>, bindings: seq<Object>, cBindings: seq<Object>, sas: seq<Object>)
    requires AreParts(v, bs, cbs, accounts, roles, cRoles, bindings, cBindings, sas)
    ensures AreLeftOut(v, bs, cbs, accounts, roles + cRoles + bindings + cBindings + sas)
  {
    CutFive(roles, cRoles, bindings, cBindings, sas);
  }

  lemma PartsRead(v: View, bs: seq<Binding>, cbs: seq<Binding>, accounts: set<string>, rs: seq<string>,
                  crs: seq<string>)
    requires forall n :: n in ValueNames(LeftBindingsOf(v, accounts)) ==> n in BindingByName(bs)
    requires forall n :: n in ValueNames(LeftClusterBindingsOf(v, accounts)) ==> n in BindingByName(cbs)
    requires NoDup(rs) && forall n :: n in rs <==> n in ByName(v.roles) && n !in InRoleNames(v, accounts)
    requires NoDup(crs)
    requires forall n :: n in crs <==> && n in ByName(v.clusterRoles)
                                       && n !in InClusterRoleNamesNamespaced(v, accounts)
                                       && n !in InClusterRoleNamesCluster(v, accounts)
    ensures AreParts(v, bs, cbs, accounts, LeftRoleObjects(ByName(v.roles), rs),
                     ClusterRoleObjects(ByName(v.clusterRoles), crs),
                     RoleBindingObjects(BindingByName(bs), ValueNames(LeftBindingsOf(v, accounts))),
                     ClusterRoleBindingObjects(BindingByName(cbs), ValueNames(LeftClusterBindingsOf(v, accounts))),
                     LeftAccounts(v.serviceAccounts, accounts, |v.serviceAccounts|))
  {
    RolesLeftRead(v, accounts, rs);
    ClusterRolesLeftRead(v, accounts, crs);
    BindingsLeftRead(v, bs, cbs, accounts);
    AccountsLeftOut(v.serviceAccounts, accounts, |v.serviceAccounts|);
    assert v.serviceAccounts[..|v.serviceAccounts|] == v.serviceAccounts;
  }

  lemma OutRead(v: View, bs: seq<Binding>, cbs: seq<Binding>, accounts: set<string>, inPerms: seq<Object>,
                inCPerms: seq<Object>, out: seq<Object>, rs: seq<string>, crs: seq<string>)
    requires IsSplit(v, BindingByName(bs), BindingByName(cbs), accounts, inPerms, inCPerms, out, rs, crs)
    ensures AreLeftOut(v, bs, cbs, accounts, out)
  {
    PartsRead(v, bs, cbs, accounts, rs, crs);
    Join(v, bs, cbs, accounts, LeftRoleObjects(ByName(v.roles), rs), ClusterRoleObjects(ByName(v.clusterRoles), crs),
         RoleBindingObjects(BindingByName(bs), ValueNames(LeftBindingsOf(v, accounts))),
         ClusterRoleBindingObjects(BindingByName(cbs), ValueNames(LeftClusterBindingsOf(v, accounts))),
         LeftAccounts(v.serviceAccounts, accounts, |v.serviceAccounts|));
  }

  /** The three lists of a split, read off the manifests. */
  lemma SplitRead(v: View, bs: seq<Binding>, cbs: seq<Binding>, accounts: set<string>, inPerms: seq<Object>,
                  inCPerms: seq<Object>, out: seq<Object>, rs: seq<string>, crs: seq<string>)
    requires IsSplit(v, BindingByName(bs), BindingByName(cbs), accounts, inPerms, inCPerms, out, rs, crs)
    ensures AreInPerms(v, accounts, inPerms) && AreInClusterPerms(v, accounts, inCPerms)
    ensures AreLeftOut(v, bs, cbs, accounts, out)
  {
    PermsRead(v, accounts);
    ClusterPermsRead(v, accounts);
    OutRead(v, bs, cbs, accounts, inPerms, inCPerms, out, rs, crs);
  }

  lemma CutFive<T>(p: seq<T>, q: seq<T>, r: seq<T>, s: seq<T>, t: seq<T>)
    ensures var all, a, b, c := p + q + r + s + t, |p|, |p| + |q|, |p| + |q| + |r|;
            && all[..a] == p && all[a..b] == q && all[b..c] == r && all[c..c + |s|] == s && all[c + |s|..] == t
  {
  }
}
