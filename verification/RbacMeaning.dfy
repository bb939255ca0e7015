/** Split followed by fold preserves what the manifests grant to the CSV's service accounts. */
module RbacMeaning {
  import opened Slices
  import opened RbacSplit
  import opened RbacReading
  import opened RbacConservation
  import opened RbacFold
  import Text

  // ----- Reference semantics: what the manifests themselves grant -----

  /** A RoleBinding grants the rules of the Role or ClusterRole it refers to. */
  function NamespaceGrant(v: View, ref: RoleRef): Option<seq<int>> {
    NamespacedRules(ByName(v.roles), ByName(v.clusterRoles), ref)
  }

  /** A ClusterRoleBinding grants the rules of the ClusterRole it refers to. */
  function ClusterGrant(v: View, ref: RoleRef): Option<seq<int>> {
    if ref.kind == CLUSTER_ROLE_KIND then RulesIn(ByName(v.clusterRoles), ref.name) else None
  }

  /** What the API server demands of bindings. */
  ghost predicate WellFormed(v: View) {
    && (forall b :: b in v.roleBindings ==> AcceptRefGroup(b.roleRef.apiGroup))
    && (forall b :: b in v.clusterRoleBindings ==>
          AcceptRefGroup(b.roleRef.apiGroup) && b.roleRef.kind == CLUSTER_ROLE_KIND)
  }

  // ----- The lookup maps rebuilt from the split -----

  function Restrict(roles: map<string, Role>, names: seq<string>): map<string, Role> {
    map n | n in names && n in roles :: roles[n]
  }

  lemma {:induction false} ByNameKeys(roles: seq<Role>)
    ensures forall n :: n in ByName(roles) ==> ByName(roles)[n].name == n
  {
    if roles != [] { ByNameKeys(roles[..|roles| - 1]); }
  }

  lemma RestrictNext(roles: map<string, Role>, names: seq<string>, name: string)
    requires name in roles
    ensures Restrict(roles, names + [name]) == Restrict(roles, names)[name := roles[name]]
  {
  }

  lemma {:induction false} RoleSetOfTaken(roles: map<string, Role>, names: seq<string>, n: nat)
    requires n <= |names| && (forall x :: x in names ==> x in roles) && forall x :: x in roles ==> roles[x].name == x
    ensures RoleSet(RoleObjects(roles, names, n)) == if NoDup(names[..n]) then Some(Restrict(roles, names[..n]))
            else None
  {
    if n > 0 {
      var before, name := names[..n - 1], names[n - 1];
      RoleSetOfTaken(roles, names, n - 1);
      assert RoleObjects(roles, names, n)[..n - 1] == RoleObjects(roles, names, n - 1);
      assert names[..n] == before + [name];
      assert name in names;
      NoDupAppend(before, name);
      RestrictNext(roles, before, name);
    } else {
      assert Restrict(roles, names[..0]) == map[];
    }
  }

  lemma {:induction false} NoClusterRoleTaken(roles: map<string, Role>, names: seq<string>, n: nat)
    requires n <= |names|
    ensures ClusterRoleSet(RoleObjects(roles, names, n)) == Some(map[])
  {
    if n > 0 {
      NoClusterRoleTaken(roles, names, n - 1);
      assert RoleObjects(roles, names, n)[..n - 1] == RoleObjects(roles, names, n - 1);
    }
  }

  lemma {:induction false} SetsWithClusterRoles(objs: seq<Object>, cRoles: map<string, Role>, names: seq<string>)
    requires (forall x :: x in names ==> x in cRoles) && forall x :: x in cRoles ==> cRoles[x].name == x
    requires ClusterRoleSet(objs) == Some(map[])
    ensures RoleSet(objs + ClusterRoleObjects(cRoles, names)) == RoleSet(objs)
    ensures ClusterRoleSet(objs + ClusterRoleObjects(cRoles, names)) == Some(Restrict(cRoles, names))
  {
    var all := objs + ClusterRoleObjects(cRoles, names);
    if names == [] {
      assert all == objs;
    } else {
      var front, last := names[..|names| - 1], names[|names| - 1];
      SetsWithClusterRoles(objs, cRoles, front);
      assert last in names;
      assert all[..|all| - 1] == objs + ClusterRoleObjects(cRoles, front);
      assert names == front + [last];
      assert Restrict(cRoles, names) == Restrict(cRoles, front)[last := cRoles[last]];
    }
  }

  /** What ApplyRoles and ApplyClusterRoles read back from a split. */
  lemma SetsOfSplit(v: View, rbs: map<string, Binding>, crbs: map<string, Binding>, accounts: set<string>,
                    inPerms: seq<Object>, inCPerms: seq<Object>, out: seq<Object>, rs: seq<string>, crs: seq<string>)
    requires IsSplit(v, rbs, crbs, accounts, inPerms, inCPerms, out, rs, crs)
    ensures RoleSet(inPerms) == if NoDup(InRoleNames(v, accounts))
            then Some(Restrict(ByName(v.roles), InRoleNames(v, accounts))) else None
    ensures ClusterRoleSet(inPerms) == Some(Restrict(ByName(v.clusterRoles), InClusterRoleNamesNamespaced(v, accounts)))
    ensures ClusterRoleSet(inCPerms) == Some(Restrict(ByName(v.clusterRoles), InClusterRoleNamesCluster(v, accounts)))
  {
    var roles, cRoles := ByName(v.roles), ByName(v.clusterRoles);
    var names, inN, inC := InRoleNames(v, accounts), InClusterRoleNamesNamespaced(v, accounts),
      InClusterRoleNamesCluster(v, accounts);
    ByNameKeys(v.roles);
    ByNameKeys(v.clusterRoles);
    BoundNamesResolve(v.roleBindings, |v.roleBindings|, ROLE_KIND, roles.Keys, accounts);
    BoundNamesResolve(v.roleBindings, |v.roleBindings|, CLUSTER_ROLE_KIND, cRoles.Keys, accounts);
    BoundNamesResolve(v.clusterRoleBindings, |v.clusterRoleBindings|, CLUSTER_ROLE_KIND, cRoles.Keys, accounts);
    RoleSetOfTaken(roles, names, |names|);
    NoClusterRoleTaken(roles, names, |names|);
    assert names[..|names|] == names;
    SetsWithClusterRoles(RoleObjects(roles, names, |names|), cRoles, inN);
    SetsWithClusterRoles([], cRoles, inC);
    assert [] + ClusterRoleObjects(cRoles, inC) == inCPerms;
  }

  // ----- Agreement with the reference semantics -----

  /** Two readings of role references agree where an account of the CSV is concerned. */
  ghost predicate Agree(bindings: seq<BindingValue>, f: RulesOf, g: RulesOf, accounts: set<string>) {
    forall b :: b in bindings && HasCsvSubject(b.subjects, accounts) ==> f(b.roleRef) == g(b.roleRef)
  }

  lemma {:induction false} NoSubjectNoRules(subjects: seq<Subject>, m: nat, sa: string, rules: Option<seq<int>>,
                                            accounts: set<string>)
    requires m <= |subjects| && sa in accounts && !HasCsvSubject(subjects, accounts)
    ensures SubjectRules(subjects, m, sa, rules) == []
  {
    if m > 0 {
      NoSubjectNoRules(subjects, m - 1, sa, rules, accounts);
      assert !CsvSubject(subjects[m - 1], accounts);
    }
  }

  lemma {:induction false} AgreeOnRules(bindings: seq<BindingValue>, n: nat, f: RulesOf, g: RulesOf,
                                        accounts: set<string>, sa: string)
    requires n <= |bindings| && Agree(bindings, f, g, accounts) && sa in accounts
    ensures Rules(bindings, n, f, sa) == Rules(bindings, n, g, sa)
  {
    if n > 0 {
      var b := bindings[n - 1];
      AgreeOnRules(bindings, n - 1, f, g, accounts, sa);
      assert b in bindings;
      if !HasCsvSubject(b.subjects, accounts) {
        NoSubjectNoRules(b.subjects, |b.subjects|, sa, f(b.roleRef), accounts);
        NoSubjectNoRules(b.subjects, |b.subjects|, sa, g(b.roleRef), accounts);
      }
    }
  }

  lemma AgreeOnAllRules(bindings: seq<BindingValue>, f: RulesOf, g: RulesOf, accounts: set<string>)
    requires Agree(bindings, f, g, accounts)
    ensures AllRules(bindings, f, accounts) == AllRules(bindings, g, accounts)
  {
    forall sa | sa in accounts
      ensures Rules(bindings, |bindings|, f, sa) == Rules(bindings, |bindings|, g, sa)
    {
      AgreeOnRules(bindings, |bindings|, f, g, accounts, sa);
    }
  }

  lemma NamespaceAgrees(v: View, accounts: set<string>, b: BindingValue)
    requires WellFormed(v) && b in v.roleBindings && HasCsvSubject(b.subjects, accounts)
    ensures NamespacedRules(Restrict(ByName(v.roles), InRoleNames(v, accounts)),
                            Restrict(ByName(v.clusterRoles), InClusterRoleNamesNamespaced(v, accounts)), b.roleRef)
            == NamespaceGrant(v, b.roleRef)
  {
    var i :| 0 <= i < |v.roleBindings| && v.roleBindings[i] == b;
    BoundNamesResolve(v.roleBindings, |v.roleBindings|, ROLE_KIND, ByName(v.roles).Keys, accounts);
    BoundNamesResolve(v.roleBindings, |v.roleBindings|, CLUSTER_ROLE_KIND, ByName(v.clusterRoles).Keys, accounts);
    RoleKindsDiffer();
    assert b.roleRef.kind == ROLE_KIND && b.roleRef.name in ByName(v.roles)
           ==> Names(b, ROLE_KIND, ByName(v.roles).Keys, accounts);
    assert b.roleRef.kind == CLUSTER_ROLE_KIND && b.roleRef.name in ByName(v.clusterRoles) ==>
           Names(b, CLUSTER_ROLE_KIND, ByName(v.clusterRoles).Keys, accounts);
  }

  lemma ClusterAgrees(v: View, accounts: set<string>, b: BindingValue)
    requires WellFormed(v) && b in v.clusterRoleBindings && HasCsvSubject(b.subjects, accounts)
    ensures RulesIn(Restrict(ByName(v.clusterRoles), InClusterRoleNamesCluster(v, accounts)), b.roleRef.name)
            == ClusterGrant(v, b.roleRef)
  {
    var i :| 0 <= i < |v.clusterRoleBindings| && v.clusterRoleBindings[i] == b;
    BoundNamesResolve(v.clusterRoleBindings, |v.clusterRoleBindings|, CLUSTER_ROLE_KIND, ByName(v.clusterRoles).Keys,
                      accounts);
    assert b.roleRef.name in ByName(v.clusterRoles) ==> Names(b, CLUSTER_ROLE_KIND, ByName(v.clusterRoles).Keys,
                                                              accounts);
  }

  /** For well-formed bindings the rules folded from a split are those the manifests grant. */
  lemma SplitPreservesMeaning(v: View, rbs: map<string, Binding>, crbs: map<string, Binding>, accounts: set<string>,
                              inPerms: seq<Object>, inCPerms: seq<Object>, out: seq<Object>, rs: seq<string>,
                                crs: seq<string>)
    requires IsSplit(v, rbs, crbs, accounts, inPerms, inCPerms, out, rs, crs) && WellFormed(v)
    requires NoDup(InRoleNames(v, accounts))
    ensures RoleSet(inPerms).Some? && ClusterRoleSet(inPerms).Some? && ClusterRoleSet(inCPerms).Some?
    ensures AllRules(v.roleBindings, (ref: RoleRef) => NamespacedRules(RoleSet(inPerms).value,
        ClusterRoleSet(inPerms).value, ref), accounts)
            == AllRules(v.roleBindings, (ref: RoleRef) => NamespaceGrant(v, ref), accounts)
    ensures AllRules(v.clusterRoleBindings, (ref: RoleRef) => RulesIn(ClusterRoleSet(inCPerms).value, ref.name),
                     accounts)
            == AllRules(v.clusterRoleBindings, (ref: RoleRef) => ClusterGrant(v, ref), accounts)
  {
    SetsOfSplit(v, rbs, crbs, accounts, inPerms, inCPerms, out, rs, crs);
    var f := (ref: RoleRef) => NamespacedRules(RoleSet(inPerms).value, ClusterRoleSet(inPerms).value, ref);
    var g := (ref: RoleRef) => NamespaceGrant(v, ref);
    forall b | b in v.roleBindings && HasCsvSubject(b.subjects, accounts)
      ensures f(b.roleRef) == g(b.roleRef)
    {
      NamespaceAgrees(v, accounts, b);
    }
    AgreeOnAllRules(v.roleBindings, f, g, accounts);
    var fc := (ref: RoleRef) => RulesIn(ClusterRoleSet(inCPerms).value, ref.name);
    var gc := (ref: RoleRef) => ClusterGrant(v, ref);
    forall b | b in v.clusterRoleBindings && HasCsvSubject(b.subjects, accounts)
      ensures fc(b.roleRef) == gc(b.roleRef)
    {
      ClusterAgrees(v, accounts, b);
    }
    AgreeOnAllRules(v.clusterRoleBindings, fc, gc, accounts);
  }

  // ----- What the manifests grant, read off them -----

  /** A RoleBinding stands for the rules of the Role or ClusterRole of that name; of several the last counts. */
  ghost function NamespaceGrants(v: View): Grant {
    (ref: RoleRef, rules: seq<int>) => exists r: Role ::
      && r.rules == rules
      && (|| (ref.kind == "Role" && LastNamed(v.roles, RoleName, ref.name, r))
          || (ref.kind == "ClusterRole" && LastNamed(v.clusterRoles, RoleName, ref.name, r)))
  }

  ghost function ClusterGrants(v: View): Grant {
    (ref: RoleRef, rules: seq<int>) => exists r: Role ::
      r.rules == rules && ref.kind == "ClusterRole" && LastNamed(v.clusterRoles, RoleName, ref.name, r)
  }

  lemma GrantsRead(v: View)
    ensures Reads(NamespaceGrants(v), (ref: RoleRef) => NamespaceGrant(v, ref))
    ensures Reads(ClusterGrants(v), (ref: RoleRef) => ClusterGrant(v, ref))
  {
    forall ref: RoleRef, r
      ensures LastNamed(v.roles, RoleName, ref.name, r) <==>
              ref.name in ByName(v.roles) && ByName(v.roles)[ref.name] == r
      ensures LastNamed(v.clusterRoles, RoleName, ref.name, r) <==>
              ref.name in ByName(v.clusterRoles) && ByName(v.clusterRoles)[ref.name] == r
    {
      ByNameIff(v.roles, ref.name, r);
      ByNameIff(v.clusterRoles, ref.name, r);
    }
  }

  /** Strictly sorted by name, an entry for each service account of the CSV that is granted some rule, with all it
      is granted. */
  ghost predicate ArePermissions(perms: seq<Permission>, bindings: seq<BindingValue>, grant: Grant,
                                 deployments: seq<string>, extraSAs: seq<string>) {
    && (forall i, j :: 0 <= i < j < |perms| ==>
          Text.Smaller(perms[i].serviceAccountName, perms[j].serviceAccountName))
    && (forall sa :: (exists p :: p in perms && p.serviceAccountName == sa) <==>
          IsCsvAccount(deployments, extraSAs, sa) && exists x :: HasRule(bindings, grant, sa, x))
    && (forall p :: p in perms ==>
          && IsGranted(bindings, grant, p.serviceAccountName, p.rules)
          && forall x :: x in p.rules <==> HasRule(bindings, grant, p.serviceAccountName, x))
  }

  lemma PermissionsRead(perms: seq<Permission>, bindings: seq<BindingValue>, grant: Grant, rulesOf: RulesOf,
                        deployments: seq<string>, extraSAs: seq<string>)
    requires IsPermissionList(perms, AllRules(bindings, rulesOf, Accounts(deployments, extraSAs)))
    requires Reads(grant, rulesOf)
    ensures ArePermissions(perms, bindings, grant, deployments, extraSAs)
  {
    var all := AllRules(bindings, rulesOf, Accounts(deployments, extraSAs));
    forall i, j | 0 <= i < j < |perms|
      ensures Text.Smaller(perms[i].serviceAccountName, perms[j].serviceAccountName)
    {
      Text.LessIff(perms[i].serviceAccountName, perms[j].serviceAccountName);
    }
    forall p | p in perms
      ensures IsCsvAccount(deployments, extraSAs, p.serviceAccountName) && p.rules != []
      ensures IsGranted(bindings, grant, p.serviceAccountName, p.rules)
      ensures forall x :: x in p.rules <==> HasRule(bindings, grant, p.serviceAccountName, x)
    {
      assert Permission(p.serviceAccountName, p.rules) in perms;
      AccountsIff(deployments, extraSAs, p.serviceAccountName);
      GrantedRules(bindings, grant, rulesOf, p.serviceAccountName);
      GrantedHave(bindings, grant, rulesOf, p.serviceAccountName, p.rules);
    }
    forall p | p in perms
      ensures exists x :: HasRule(bindings, grant, p.serviceAccountName, x)
    {
      var x := p.rules[0];
      assert x in p.rules && HasRule(bindings, grant, p.serviceAccountName, x);
    }
    forall sa, x | IsCsvAccount(deployments, extraSAs, sa) && HasRule(bindings, grant, sa, x)
      ensures exists p :: p in perms && p.serviceAccountName == sa
    {
      AccountsIff(deployments, extraSAs, sa);
      GrantedRules(bindings, grant, rulesOf, sa);
      GrantedHave(bindings, grant, rulesOf, sa, Rules(bindings, |bindings|, rulesOf, sa));
      assert x in all[sa];
      var p := Permission(sa, all[sa]);
      assert p in perms && p.serviceAccountName == sa;
    }
  }

  lemma BothRead(v: View, perms: seq<Permission>, cPerms: seq<Permission>, deployments: seq<string>,
                 extraSAs: seq<string>)
    requires IsPermissionList(perms, AllRules(v.roleBindings, (ref: RoleRef) => NamespaceGrant(v, ref),
                                              Accounts(deployments, extraSAs)))
    requires IsPermissionList(cPerms, AllRules(v.clusterRoleBindings, (ref: RoleRef) => ClusterGrant(v, ref),
                                               Accounts(deployments, extraSAs)))
    ensures ArePermissions(perms, v.roleBindings, NamespaceGrants(v), deployments, extraSAs)
    ensures ArePermissions(cPerms, v.clusterRoleBindings, ClusterGrants(v), deployments, extraSAs)
  {
    GrantsRead(v);
    PermissionsRead(perms, v.roleBindings, NamespaceGrants(v), (ref: RoleRef) => NamespaceGrant(v, ref), deployments,
                    extraSAs);
    PermissionsRead(cPerms, v.clusterRoleBindings, ClusterGrants(v), (ref: RoleRef) => ClusterGrant(v, ref),
                    deployments, extraSAs);
  }

  /** The RBAC part of applying the collected manifests to a CSV. It panics exactly if two
      RoleBindings give the same Role to service accounts of the CSV. */
  method ApplyRbac(c: Manifests, strategy: Strategy, extraSAs: seq<string>) returns (panicked: bool)
    modifies strategy
    ensures var bindings := old(c.Contents()).roleBindings;
            panicked <==>
            exists i, j :: 0 <= i < j < |bindings|
                           && BothGive(bindings[i], bindings[j], c.roles, Accounts(c.deployments, extraSAs))
    ensures !panicked && WellFormed(old(c.Contents())) ==>
              var v := old(c.Contents());
              && ArePermissions(strategy.permissions, v.roleBindings, NamespaceGrants(v), c.deployments, extraSAs)
              && ArePermissions(strategy.clusterPermissions, v.clusterRoleBindings, ClusterGrants(v), c.deployments,
                                extraSAs)
  {
    ghost var v, accounts := c.Contents(), Accounts(c.deployments, extraSAs);
    ghost var rbs, crbs := c.roleBindings, c.clusterRoleBindings;
    var inPerms, inCPerms, out, rs, crs := c.SplitCsvPermissionsObjects(extraSAs);
    assert c.roleBindings == rbs && c.clusterRoleBindings == crbs;
    assert ValuesOf(rbs) == v.roleBindings && ValuesOf(crbs) == v.clusterRoleBindings;
    assert c.Contents() == v;
    PanicsIff(v, BindingByName(rbs), BindingByName(crbs), accounts, inPerms, inCPerms, out, rs, crs);
    panicked := strategy.ApplyRoles(c, inPerms, extraSAs);
    if !panicked {
      assert ValuesOf(rbs) == v.roleBindings && ValuesOf(crbs) == v.clusterRoleBindings;
      assert c.Contents() == v;
      panicked := strategy.ApplyClusterRoles(c, inCPerms, extraSAs);
      if WellFormed(v) {
        SplitPreservesMeaning(v, BindingByName(rbs), BindingByName(crbs), accounts, inPerms, inCPerms, out, rs, crs);
        BothRead(v, strategy.permissions, strategy.clusterPermissions, c.deployments, extraSAs);
      }
    }
  }

  // ----- When it panics -----

  lemma PanicsIff(v: View, rbs: map<string, Binding>, crbs: map<string, Binding>, accounts: set<string>,
                  inPerms: seq<Object>, inCPerms: seq<Object>, out: seq<Object>, rs: seq<string>, crs: seq<string>)
    requires IsSplit(v, rbs, crbs, accounts, inPerms, inCPerms, out, rs, crs)
    ensures RoleSet(inPerms).None? <==>
            exists i, j :: 0 <= i < j < |v.roleBindings|
                           && BothGive(v.roleBindings[i], v.roleBindings[j], v.roles, accounts)
    ensures RoleSet(inPerms).None? <==> !NoDup(InRoleNames(v, accounts))
    ensures ClusterRoleSet(inPerms).Some? && ClusterRoleSet(inCPerms).Some?
  {
    SetsOfSplit(v, rbs, crbs, accounts, inPerms, inCPerms, out, rs, crs);
    NoPanicIff(v, accounts);
  }

  /** The condition under which ApplyRbac does not panic, on the bindings themselves. */
  lemma NoPanicIff(v: View, accounts: set<string>)
    ensures NoDup(InRoleNames(v, accounts)) <==>
            forall i, j :: 0 <= i < j < |v.roleBindings| ==>
              !BothGive(v.roleBindings[i], v.roleBindings[j], v.roles, accounts)
  {
    NamedOnce(v.roleBindings, |v.roleBindings|, v.roles, accounts);
  }

  /** Well-formed manifests with two RoleBindings that give one Role to one account. */
  lemma SharedRolePanics()
    ensures var ref, sa := RoleRef(RBAC_GROUP, ROLE_KIND, "leader"), [Subject(SERVICE_ACCOUNT_KIND, "manager", 0)];
            var v := View(["manager"], [Role("leader", [1])], [],
                          [BindingValue("a", ref, sa), BindingValue("b", ref, sa)], [], []);
            WellFormed(v) && !NoDup(InRoleNames(v, Accounts(v.deployments, [])))
  {
    var ref, sa := RoleRef(RBAC_GROUP, ROLE_KIND, "leader"), [Subject(SERVICE_ACCOUNT_KIND, "manager", 0)];
    var v := View(["manager"], [Role("leader", [1])], [], [BindingValue("a", ref, sa), BindingValue("b", ref, sa)],
                  [], []);
    var accounts := Accounts(v.deployments, []);
    assert AccountOf(v.deployments[0]) in accounts && IsServed(sa[0], accounts);
    assert LastAt(v.roles, RoleName, "leader", 0) && v.roles[0].name == "leader";
    assert LastNamed(v.roles, RoleName, "leader", v.roles[0]);
    assert Gives(v.roleBindings[0], "Role", v.roles, accounts) && Gives(v.roleBindings[1], "Role", v.roles, accounts);
    assert BothGive(v.roleBindings[0], v.roleBindings[1], v.roles, accounts);
    NoPanicIff(v, accounts);
  }
}
