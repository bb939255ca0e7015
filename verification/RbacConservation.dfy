/** The split neither loses nor duplicates objects. */
module RbacConservation {
  import opened Slices
  import opened RbacSplit
  import opened RbacReading

  ghost predicate UniqueNames(roles: seq<Role>) {
    forall i, j :: 0 <= i < j < |roles| ==> roles[i].name != roles[j].name
  }

  ghost predicate UniqueBindings(vs: seq<BindingValue>) {
    forall i, j :: 0 <= i < j < |vs| ==> vs[i].name != vs[j].name
  }

  lemma {:induction false} ByNameUnique(roles: seq<Role>)
    requires UniqueNames(roles)
    ensures forall r :: r in roles ==> r.name in ByName(roles) && ByName(roles)[r.name] == r
    ensures forall n :: n in ByName(roles) ==> ByName(roles)[n].name == n && ByName(roles)[n] in roles
  {
    if roles != [] {
      var front, last := roles[..|roles| - 1], roles[|roles| - 1];
      ByNameUnique(front);
      assert roles == front + [last];
      assert forall r :: r in front ==> r.name != last.name;
    }
  }

  /** How often a Role is handed on from the list of names: once if it is named, however often. */
  lemma {:induction false} TakenOnce(roles: map<string, Role>, names: seq<string>, n: nat, r: Role)
    requires n <= |names| && forall x :: x in roles ==> roles[x].name == x
    requires r.name in roles && roles[r.name] == r
    ensures multiset(RoleObjects(roles, names, n))[RoleObject(Some(r))] == if r.name in names[..n] then 1 else 0
  {
    if n > 0 {
      TakenOnce(roles, names, n - 1, r);
      var name, before := names[n - 1], names[..n - 1];
      assert names[..n] == before + [name];
      var next := RoleObject(if name in roles && name !in before then Some(roles[name]) else None);
      assert RoleObjects(roles, names, n) == RoleObjects(roles, names, n - 1) + [next];
      CountNext(RoleObjects(roles, names, n - 1), next, RoleObject(Some(r)));
      if name != r.name {
        assert next.role != Some(r);
      }
    }
  }

  lemma CountNext(s: seq<Object>, next: Object, x: Object)
    ensures multiset(s + [next])[x] == multiset(s)[x] + if next == x then 1 else 0
  {
  }

  lemma {:induction false} LeftOnce(roles: map<string, Role>, names: seq<string>, r: Role)
    requires NoDup(names) && forall x :: x in roles ==> roles[x].name == x
    requires r.name in roles && roles[r.name] == r
    ensures multiset(LeftRoleObjects(roles, names))[RoleObject(Some(r))] == if r.name in names then 1 else 0
  {
    if names != [] {
      var front, last := names[..|names| - 1], names[|names| - 1];
      LeftOnce(roles, front, r);
      assert LeftRoleObjects(roles, names) == LeftRoleObjects(roles, front) + [RoleObject(Lookup(roles, last))];
      assert names == front + [last];
    }
  }

  lemma {:induction false} NilTaken(roles: map<string, Role>, names: seq<string>, n: nat)
    requires n <= |names| && forall x :: x in names ==> x in roles
    ensures RoleObject(None) in RoleObjects(roles, names, n) <==> !NoDup(names[..n])
  {
    if n > 0 {
      NilTaken(roles, names, n - 1);
      assert names[..n] == names[..n - 1] + [names[n - 1]];
    }
  }

  lemma {:induction false} LeftAccountsMembers(serviceAccounts: seq<string>, accounts: set<string>, n: nat)
    requires n <= |serviceAccounts|
    ensures forall o :: o in LeftAccounts(serviceAccounts, accounts, n) ==> o.ServiceAccountObject?
    ensures forall a :: ServiceAccountObject(a) in LeftAccounts(serviceAccounts, accounts, n) <==>
                        a in serviceAccounts[..n] && a !in accounts
  {
    if n > 0 {
      LeftAccountsMembers(serviceAccounts, accounts, n - 1);
      assert serviceAccounts[..n] == serviceAccounts[..n - 1] + [serviceAccounts[n - 1]];
    }
  }

  lemma {:induction false} TakenAreRoles(roles: map<string, Role>, names: seq<string>, n: nat)
    requires n <= |names|
    ensures forall o :: o in RoleObjects(roles, names, n) ==> o.RoleObject?
  {
    if n > 0 { TakenAreRoles(roles, names, n - 1); }
  }

  lemma CountLeft(a: seq<Object>, b: seq<Object>, c: seq<Object>, d: seq<Object>, e: seq<Object>, x: Object)
    requires x !in b && x !in c && x !in d && x !in e
    ensures multiset(a + b + c + d + e)[x] == multiset(a)[x]
  {
  }

  // ----- What becomes of each kind of object -----

  /** The Role is handed on exactly once, to the CSV if a RoleBinding gives it to one of
      its accounts and to the other objects if not. */
  ghost predicate RoleConserved(v: View, accounts: set<string>, inPerms: seq<Object>, inCPerms: seq<Object>,
                                out: seq<Object>, r: Role) {
    var given := IsGiven(v.roleBindings, "Role", v.roles, accounts, r.name);
    && multiset(inPerms)[RoleObject(Some(r))] == (if given then 1 else 0)
    && multiset(out)[RoleObject(Some(r))] == (if given then 0 else 1)
    && RoleObject(Some(r)) !in inCPerms
  }

  /** The ClusterRole is among the other objects exactly if it is in neither list of permissions, and in each
      of these exactly if a binding of that scope gives it to an account of the CSV. */
  ghost predicate ClusterRoleConserved(v: View, accounts: set<string>, inPerms: seq<Object>, inCPerms: seq<Object>,
                                       out: seq<Object>, r: Role) {
    && (ClusterRoleObject(Some(r)) in out <==>
          ClusterRoleObject(Some(r)) !in inPerms && ClusterRoleObject(Some(r)) !in inCPerms)
    && (ClusterRoleObject(Some(r)) in inPerms <==>
          IsGiven(v.roleBindings, "ClusterRole", v.clusterRoles, accounts, r.name))
    && (ClusterRoleObject(Some(r)) in inCPerms <==>
          IsGiven(v.clusterRoleBindings, "ClusterRole", v.clusterRoles, accounts, r.name))
  }

  /** The RoleBinding is left out of the other objects exactly if its reference resolves and
      every subject is a service account of the CSV. */
  ghost predicate RoleBindingConserved(v: View, rbs: map<string, Binding>, accounts: set<string>, out: seq<Object>,
                                       b: BindingValue) {
    && b.name in rbs
    && (RoleBindingObject(rbs[b.name]) !in out <==>
          GivesOnly(b, "Role", v.roles, accounts) || GivesOnly(b, "ClusterRole", v.clusterRoles, accounts))
  }

  ghost predicate ClusterRoleBindingConserved(v: View, crbs: map<string, Binding>, accounts: set<string>,
                                              out: seq<Object>, b: BindingValue) {
    && b.name in crbs
    && (ClusterRoleBindingObject(crbs[b.name]) !in out <==>
          GivesOnly(b, "ClusterRole", v.clusterRoles, accounts))
  }

  lemma RolesConserved(v: View, rbs: map<string, Binding>, crbs: map<string, Binding>, accounts: set<string>,
                       inPerms: seq<Object>, inCPerms: seq<Object>, out: seq<Object>, rs: seq<string>,
                       crs: seq<string>, r: Role)
    requires IsSplit(v, rbs, crbs, accounts, inPerms, inCPerms, out, rs, crs)
    requires UniqueNames(v.roles) && r in v.roles
    ensures RoleConserved(v, accounts, inPerms, inCPerms, out, r)
  {
    var roles, names, x := ByName(v.roles), InRoleNames(v, accounts), RoleObject(Some(r));
    ByNameUnique(v.roles);
    GivenIff(v.roleBindings, "Role", v.roles, accounts, r.name);
    RoleTaken(roles, names, ClusterRoleObjects(ByName(v.clusterRoles), InClusterRoleNamesNamespaced(v, accounts)), r);
    LeftAccountsMembers(v.serviceAccounts, accounts, |v.serviceAccounts|);
    RoleLeft(roles, rs, ClusterRoleObjects(ByName(v.clusterRoles), crs),
             RoleBindingObjects(rbs, ValueNames(LeftBindingsOf(v, accounts))),
             ClusterRoleBindingObjects(crbs, ValueNames(LeftClusterBindingsOf(v, accounts))),
             LeftAccounts(v.serviceAccounts, accounts, |v.serviceAccounts|), r);
  }

  lemma RoleTaken(roles: map<string, Role>, names: seq<string>, others: seq<Object>, r: Role)
    requires (forall x :: x in roles ==> roles[x].name == x) && r.name in roles && roles[r.name] == r
    requires RoleObject(Some(r)) !in others
    ensures multiset(RoleObjects(roles, names, |names|) + others)[RoleObject(Some(r))] ==
            if r.name in names then 1 else 0
  {
    assert names[..|names|] == names;
    TakenOnce(roles, names, |names|, r);
  }

  lemma RoleLeft(roles: map<string, Role>, rs: seq<string>, b: seq<Object>, c: seq<Object>, d: seq<Object>,
                 e: seq<Object>, r: Role)
    requires NoDup(rs) && (forall x :: x in roles ==> roles[x].name == x) && r.name in roles && roles[r.name] == r
    requires var x := RoleObject(Some(r)); x !in b && x !in c && x !in d && x !in e
    ensures multiset(LeftRoleObjects(roles, rs) + b + c + d + e)[RoleObject(Some(r))] == if r.name in rs then 1 else 0
  {
    LeftOnce(roles, rs, r);
    CountLeft(LeftRoleObjects(roles, rs), b, c, d, e, RoleObject(Some(r)));
  }

  /** Both bindings give one and the same Role to service accounts of the CSV. */
  ghost predicate BothGive(a: BindingValue, b: BindingValue, roles: seq<Role>, accounts: set<string>) {
    Gives(a, "Role", roles, accounts) && Gives(b, "Role", roles, accounts) && a.roleRef.name == b.roleRef.name
  }

  lemma {:induction false} NamedOnce(bindings: seq<BindingValue>, n: nat, roles: seq<Role>, accounts: set<string>)
    requires n <= |bindings|
    ensures NoDup(BoundNames(bindings, n, ROLE_KIND, ByName(roles).Keys, accounts)) <==>
            forall i, j :: 0 <= i < j < n ==> !BothGive(bindings[i], bindings[j], roles, accounts)
  {
    if n > 0 {
      var b, before := bindings[n - 1], BoundNames(bindings, n - 1, ROLE_KIND, ByName(roles).Keys, accounts);
      NamedOnce(bindings, n - 1, roles, accounts);
      NoDupAppend(before, b.roleRef.name);
      GivesIff(b, "Role", roles, accounts);
      if Gives(b, "Role", roles, accounts) {
        NamedBefore(bindings, n - 1, roles, accounts, b);
      } else {
        assert before + [] == before;
      }
    }
  }

  lemma NamedBefore(bindings: seq<BindingValue>, n: nat, roles: seq<Role>, accounts: set<string>, b: BindingValue)
    requires n <= |bindings| && Gives(b, "Role", roles, accounts)
    ensures b.roleRef.name in BoundNames(bindings, n, ROLE_KIND, ByName(roles).Keys, accounts) <==>
            exists i :: 0 <= i < n && BothGive(bindings[i], b, roles, accounts)
  {
    BoundNamesResolve(bindings, n, ROLE_KIND, ByName(roles).Keys, accounts);
    forall i | 0 <= i < n
      ensures Gives(bindings[i], "Role", roles, accounts) <==>
              Names(bindings[i], ROLE_KIND, ByName(roles).Keys, accounts)
    {
      GivesIff(bindings[i], "Role", roles, accounts);
    }
  }

  /** inPerms has a nil pointer exactly if two relevant RoleBindings give the same Role to CSV accounts. */
  lemma NilIffNamedTwice(v: View, rbs: map<string, Binding>, crbs: map<string, Binding>, accounts: set<string>,
                         inPerms: seq<Object>, inCPerms: seq<Object>, out: seq<Object>, rs: seq<string>,
                           crs: seq<string>)
    requires IsSplit(v, rbs, crbs, accounts, inPerms, inCPerms, out, rs, crs)
    ensures RoleObject(None) in inPerms <==>
            exists i, j :: 0 <= i < j < |v.roleBindings|
                           && BothGive(v.roleBindings[i], v.roleBindings[j], v.roles, accounts)
    ensures ClusterRoleObject(None) !in inPerms && ClusterRoleObject(None) !in inCPerms && RoleObject(None) !in inCPerms
  {
    var names := InRoleNames(v, accounts);
    NamedOnce(v.roleBindings, |v.roleBindings|, v.roles, accounts);
    var inN, inC := InClusterRoleNamesNamespaced(v, accounts), InClusterRoleNamesCluster(v, accounts);
    BoundNamesResolve(v.roleBindings, |v.roleBindings|, ROLE_KIND, ByName(v.roles).Keys, accounts);
    BoundNamesResolve(v.roleBindings, |v.roleBindings|, CLUSTER_ROLE_KIND, ByName(v.clusterRoles).Keys, accounts);
    BoundNamesResolve(v.clusterRoleBindings, |v.clusterRoleBindings|, CLUSTER_ROLE_KIND, ByName(v.clusterRoles).Keys,
                      accounts);
    NilTaken(ByName(v.roles), names, |names|);
    TakenAreRoles(ByName(v.roles), names, |names|);
    assert names[..|names|] == names;
    FoundClusterRoles(ByName(v.clusterRoles), inN);
    FoundClusterRoles(ByName(v.clusterRoles), inC);
  }

  lemma FoundClusterRoles(cRoles: map<string, Role>, names: seq<string>)
    requires forall x :: x in names ==> x in cRoles
    ensures forall o :: o in ClusterRoleObjects(cRoles, names) ==> o.ClusterRoleObject? && o.clusterRole.Some?
  {
    assert forall i :: 0 <= i < |names| ==> names[i] in names;
  }

  lemma ClusterRolesConserved(v: View, rbs: map<string, Binding>, crbs: map<string, Binding>, accounts: set<string>,
                              inPerms: seq<Object>, inCPerms: seq<Object>, out: seq<Object>, rs: seq<string>,
                                crs: seq<string>, r: Role)
    requires IsSplit(v, rbs, crbs, accounts, inPerms, inCPerms, out, rs, crs)
    requires UniqueNames(v.clusterRoles) && r in v.clusterRoles
    ensures ClusterRoleConserved(v, accounts, inPerms, inCPerms, out, r)
  {
    var cRoles, x := ByName(v.clusterRoles), ClusterRoleObject(Some(r));
    ByNameUnique(v.clusterRoles);
    GivenIff(v.roleBindings, "ClusterRole", v.clusterRoles, accounts, r.name);
    GivenIff(v.clusterRoleBindings, "ClusterRole", v.clusterRoles, accounts, r.name);
    var names := InRoleNames(v, accounts);
    TakenAreRoles(ByName(v.roles), names, |names|);
    assert x in inPerms <==> x in ClusterRoleObjects(cRoles, InClusterRoleNamesNamespaced(v, accounts));
    LookedUp(cRoles, InClusterRoleNamesNamespaced(v, accounts), r);
    LookedUp(cRoles, InClusterRoleNamesCluster(v, accounts), r);
    ClusterRoleLeft(v, rbs, crbs, accounts, rs, crs, r);
  }

  lemma ClusterRoleLeft(v: View, rbs: map<string, Binding>, crbs: map<string, Binding>, accounts: set<string>,
                        rs: seq<string>, crs: seq<string>, r: Role)
    requires forall x :: x in ByName(v.clusterRoles) ==> ByName(v.clusterRoles)[x].name == x
    requires r.name in ByName(v.clusterRoles) && ByName(v.clusterRoles)[r.name] == r
    requires forall n :: n in ValueNames(LeftBindingsOf(v, accounts)) ==> n in rbs
    requires forall n :: n in ValueNames(LeftClusterBindingsOf(v, accounts)) ==> n in crbs
    ensures r.name in crs <==>
            ClusterRoleObject(Some(r)) in
            LeftRoleObjects(ByName(v.roles), rs) + ClusterRoleObjects(ByName(v.clusterRoles), crs)
            + RoleBindingObjects(rbs, ValueNames(LeftBindingsOf(v, accounts)))
            + ClusterRoleBindingObjects(crbs, ValueNames(LeftClusterBindingsOf(v, accounts)))
            + LeftAccounts(v.serviceAccounts, accounts, |v.serviceAccounts|)
  {
    LookedUp(ByName(v.clusterRoles), crs, r);
    LeftAccountsMembers(v.serviceAccounts, accounts, |v.serviceAccounts|);
  }

  lemma LookedUp(cRoles: map<string, Role>, names: seq<string>, r: Role)
    requires forall x :: x in cRoles ==> cRoles[x].name == x
    requires r.name in cRoles && cRoles[r.name] == r
    ensures ClusterRoleObject(Some(r)) in ClusterRoleObjects(cRoles, names) <==> r.name in names
  {
    if r.name in names {
      var i :| 0 <= i < |names| && names[i] == r.name;
      assert ClusterRoleObjects(cRoles, names)[i] == ClusterRoleObject(Some(r));
    }
  }

  lemma {:induction false} LeftBindingsFilter(vs: seq<BindingValue>, n: nat, rn: set<string>, crn: set<string>,
                                              accounts: set<string>, p: BindingValue -> bool)
    requires n <= |vs|
    requires forall b :: p(b) <==> Stays(b, ROLE_KIND, rn, accounts) && Stays(b, CLUSTER_ROLE_KIND, crn, accounts)
    ensures LeftBindings(vs, n, rn, crn, accounts) == Filter(vs[..n], p)
  {
    if n > 0 {
      LeftBindingsFilter(vs, n - 1, rn, crn, accounts, p);
      FilterAppend(vs[..n - 1], vs[n - 1], p);
      assert vs[..n] == vs[..n - 1] + [vs[n - 1]];
    }
  }

  lemma {:induction false} StayingFilter(vs: seq<BindingValue>, n: nat, kind: string, names: set<string>,
                                         accounts: set<string>, p: BindingValue -> bool)
    requires n <= |vs| && forall b :: p(b) <==> Stays(b, kind, names, accounts)
    ensures Staying(vs, vs, n, kind, names, accounts) == Filter(vs[..n], p)
  {
    if n > 0 {
      StayingFilter(vs, n - 1, kind, names, accounts, p);
      FilterAppend(vs[..n - 1], vs[n - 1], p);
      assert vs[..n] == vs[..n - 1] + [vs[n - 1]];
    }
  }

  lemma LeftMembers(v: View, accounts: set<string>, b: BindingValue)
    requires b in v.roleBindings
    ensures forall x :: x in LeftBindingsOf(v, accounts) ==> x in v.roleBindings
    ensures b in LeftBindingsOf(v, accounts) <==>
            Stays(b, ROLE_KIND, ByName(v.roles).Keys, accounts)
              && Stays(b, CLUSTER_ROLE_KIND, ByName(v.clusterRoles).Keys, accounts)
  {
    var vs, rn, crn := v.roleBindings, ByName(v.roles).Keys, ByName(v.clusterRoles).Keys;
    var stays := (x: BindingValue) => Stays(x, ROLE_KIND, rn, accounts) && Stays(x, CLUSTER_ROLE_KIND, crn, accounts);
    LeftBindingsFilter(vs, |vs|, rn, crn, accounts, stays);
    assert vs[..|vs|] == vs;
    forall x
      ensures x in LeftBindingsOf(v, accounts) <==> x in vs && stays(x)
    {
      FilterMembers(vs, stays, x);
    }
  }

  lemma LeftClusterMembers(v: View, accounts: set<string>, b: BindingValue)
    requires b in v.clusterRoleBindings
    ensures forall x :: x in LeftClusterBindingsOf(v, accounts) ==> x in v.clusterRoleBindings
    ensures b in LeftClusterBindingsOf(v, accounts) <==> Stays(b, CLUSTER_ROLE_KIND, ByName(v.clusterRoles).Keys,
                                                               accounts)
  {
    var vs, crn := v.clusterRoleBindings, ByName(v.clusterRoles).Keys;
    var stays := (x: BindingValue) => Stays(x, CLUSTER_ROLE_KIND, crn, accounts);
    StayingFilter(vs, |vs|, CLUSTER_ROLE_KIND, crn, accounts, stays);
    assert vs[..|vs|] == vs;
    forall x
      ensures x in LeftClusterBindingsOf(v, accounts) <==> x in vs && stays(x)
    {
      FilterMembers(vs, stays, x);
    }
  }

  lemma NameListed(vs: seq<BindingValue>, left: seq<BindingValue>, b: BindingValue)
    requires UniqueBindings(vs) && b in vs && forall x :: x in left ==> x in vs
    ensures b.name in ValueNames(left) <==> b in left
  {
    if b in left {
      var i :| 0 <= i < |left| && left[i] == b;
      assert ValueNames(left)[i] == b.name;
    }
    if b.name in ValueNames(left) {
      var i :| 0 <= i < |left| && left[i].name == b.name;
      assert left[i] in left;
    }
  }

  ghost predicate KeyedByName(bs: map<string, Binding>, vs: seq<BindingValue>) {
    && (forall b :: b in vs ==> b.name in bs)
    && (forall n :: n in bs ==> bs[n].name == n)
  }

  lemma CollectedKeyed(bs: seq<Binding>)
    ensures KeyedByName(BindingByName(bs), ValuesOf(bs))
  {
    BindingByNameKeys(bs);
    forall b | b in ValuesOf(bs)
      ensures b.name in BindingByName(bs)
    {
      var i :| 0 <= i < |bs| && ValuesOf(bs)[i] == b;
      assert bs[i].name == b.name;
    }
  }

  lemma RoleBindingsConserved(v: View, rbs: map<string, Binding>, crbs: map<string, Binding>, accounts: set<string>,
                              inPerms: seq<Object>, inCPerms: seq<Object>, out: seq<Object>, rs: seq<string>,
                                crs: seq<string>, b: BindingValue)
    requires IsSplit(v, rbs, crbs, accounts, inPerms, inCPerms, out, rs, crs)
    requires UniqueBindings(v.roleBindings) && KeyedByName(rbs, v.roleBindings) && b in v.roleBindings
    ensures RoleBindingConserved(v, rbs, accounts, out, b)
  {
    var vs, left, x := v.roleBindings, LeftBindingsOf(v, accounts), RoleBindingObject(rbs[b.name]);
    GivesIff(b, "Role", v.roles, accounts);
    GivesIff(b, "ClusterRole", v.clusterRoles, accounts);
    LeftMembers(v, accounts, b);
    NameListed(vs, left, b);
    LeftAccountsMembers(v.serviceAccounts, accounts, |v.serviceAccounts|);
    InTheMiddle(LeftRoleObjects(ByName(v.roles), rs) + ClusterRoleObjects(ByName(v.clusterRoles), crs),
                RoleBindingObjects(rbs, ValueNames(left)),
                ClusterRoleBindingObjects(crbs, ValueNames(LeftClusterBindingsOf(v, accounts))),
                LeftAccounts(v.serviceAccounts, accounts, |v.serviceAccounts|), x);
    RoleBindingListed(rbs, ValueNames(left), b.name);
  }

  lemma InTheMiddle(a: seq<Object>, b: seq<Object>, c: seq<Object>, d: seq<Object>, x: Object)
    requires x !in a && x !in c && x !in d
    ensures x in a + b + c + d <==> x in b
  {
  }

  lemma RoleBindingListed(rbs: map<string, Binding>, names: seq<string>, n: string)
    requires n in rbs && (forall m :: m in rbs ==> rbs[m].name == m) && forall m :: m in names ==> m in rbs
    ensures RoleBindingObject(rbs[n]) in RoleBindingObjects(rbs, names) <==> n in names
  {
    if n in names {
      var i :| 0 <= i < |names| && names[i] == n;
      assert RoleBindingObjects(rbs, names)[i] == RoleBindingObject(rbs[n]);
    }
  }

  lemma ClusterRoleBindingsConserved(v: View, rbs: map<string, Binding>, crbs: map<string, Binding>,
                                     accounts: set<string>,
                                     inPerms: seq<Object>, inCPerms: seq<Object>, out: seq<Object>, rs: seq<string>,
                                       crs: seq<string>, b: BindingValue)
    requires IsSplit(v, rbs, crbs, accounts, inPerms, inCPerms, out, rs, crs)
    requires UniqueBindings(v.clusterRoleBindings) && KeyedByName(crbs, v.clusterRoleBindings)
             && b in v.clusterRoleBindings
    ensures ClusterRoleBindingConserved(v, crbs, accounts, out, b)
  {
    var vs, left, x := v.clusterRoleBindings, LeftClusterBindingsOf(v, accounts),
      ClusterRoleBindingObject(crbs[b.name]);
    var names := ValueNames(left);
    GivesIff(b, "ClusterRole", v.clusterRoles, accounts);
    LeftClusterMembers(v, accounts, b);
    NameListed(vs, left, b);
    LeftAccountsMembers(v.serviceAccounts, accounts, |v.serviceAccounts|);
    InTheMiddle(LeftRoleObjects(ByName(v.roles), rs) + ClusterRoleObjects(ByName(v.clusterRoles), crs)
                + RoleBindingObjects(rbs, ValueNames(LeftBindingsOf(v, accounts))),
                ClusterRoleBindingObjects(crbs, names), [],
                LeftAccounts(v.serviceAccounts, accounts, |v.serviceAccounts|), x);
    if b.name in names {
      var i :| 0 <= i < |names| && names[i] == b.name;
      assert ClusterRoleBindingObjects(crbs, names)[i] == x;
    }
  }

  /** A service account is among the other objects exactly if it is collected and not the CSV's. */
  lemma AccountsConserved(v: View, rbs: map<string, Binding>, crbs: map<string, Binding>, accounts: set<string>,
                          inPerms: seq<Object>, inCPerms: seq<Object>, out: seq<Object>, rs: seq<string>,
                            crs: seq<string>, a: string)
    requires IsSplit(v, rbs, crbs, accounts, inPerms, inCPerms, out, rs, crs)
    ensures ServiceAccountObject(a) in out <==> a in v.serviceAccounts && a !in accounts
  {
    LeftAccountsMembers(v.serviceAccounts, accounts, |v.serviceAccounts|);
    assert v.serviceAccounts[..|v.serviceAccounts|] == v.serviceAccounts;
    InTheMiddle(LeftRoleObjects(ByName(v.roles), rs) + ClusterRoleObjects(ByName(v.clusterRoles), crs)
                + RoleBindingObjects(rbs, ValueNames(LeftBindingsOf(v, accounts)))
                + ClusterRoleBindingObjects(crbs, ValueNames(LeftClusterBindingsOf(v, accounts))),
                LeftAccounts(v.serviceAccounts, accounts, |v.serviceAccounts|), [], [], ServiceAccountObject(a));
  }

  // ----- A binding that stays without its Role -----

  /** The Role a RoleBinding refers to is missing from the other objects exactly if some RoleBinding to it has
      a subject of the CSV, and the RoleBinding itself is there exactly if it has some other subject. */
  lemma LeftWithoutRole(v: View, rbs: map<string, Binding>, crbs: map<string, Binding>, accounts: set<string>,
                        inPerms: seq<Object>, inCPerms: seq<Object>, out: seq<Object>, rs: seq<string>,
                        crs: seq<string>, b: BindingValue, r: Role)
    requires IsSplit(v, rbs, crbs, accounts, inPerms, inCPerms, out, rs, crs)
    requires UniqueNames(v.roles) && UniqueBindings(v.roleBindings) && KeyedByName(rbs, v.roleBindings)
    requires b in v.roleBindings && r in v.roles && r.name == b.roleRef.name && RefersTo(b.roleRef, "Role", v.roles)
    ensures RoleBindingObject(rbs[b.name]) in out && RoleObject(Some(r)) !in out <==>
            && (exists s :: s in b.subjects && !IsServed(s, accounts))
            && exists a :: a in v.roleBindings && a.roleRef.name == r.name && Gives(a, "Role", v.roles, accounts)
  {
    RolesConserved(v, rbs, crbs, accounts, inPerms, inCPerms, out, rs, crs, r);
    RoleBindingsConserved(v, rbs, crbs, accounts, inPerms, inCPerms, out, rs, crs, b);
    RoleKindsDiffer();
  }

  // ----- The split of the collected manifests -----

  /** Nothing collected is lost or handed on twice, as far as names are unique. */
  ghost predicate Conserved(v: View, rbs: map<string, Binding>, crbs: map<string, Binding>, accounts: set<string>,
                            inPerms: seq<Object>, inCPerms: seq<Object>, out: seq<Object>) {
    && (UniqueNames(v.roles) ==>
          forall r :: r in v.roles ==> RoleConserved(v, accounts, inPerms, inCPerms, out, r))
    && (UniqueNames(v.clusterRoles) ==>
          forall r :: r in v.clusterRoles ==> ClusterRoleConserved(v, accounts, inPerms, inCPerms, out, r))
    && (UniqueBindings(v.roleBindings) ==>
          forall b :: b in v.roleBindings ==> RoleBindingConserved(v, rbs, accounts, out, b))
    && (UniqueBindings(v.clusterRoleBindings) ==>
          forall b :: b in v.clusterRoleBindings ==> ClusterRoleBindingConserved(v, crbs, accounts, out, b))
    && (forall a :: ServiceAccountObject(a) in out <==> a in v.serviceAccounts && a !in accounts)
  }

  lemma SplitConserves(v: View, rbs: map<string, Binding>, crbs: map<string, Binding>, accounts: set<string>,
                       inPerms: seq<Object>, inCPerms: seq<Object>, out: seq<Object>, rs: seq<string>,
                       crs: seq<string>)
    requires IsSplit(v, rbs, crbs, accounts, inPerms, inCPerms, out, rs, crs)
    requires KeyedByName(rbs, v.roleBindings) && KeyedByName(crbs, v.clusterRoleBindings)
    ensures Conserved(v, rbs, crbs, accounts, inPerms, inCPerms, out)
  {
    forall r | UniqueNames(v.roles) && r in v.roles
      ensures RoleConserved(v, accounts, inPerms, inCPerms, out, r)
    {
      RolesConserved(v, rbs, crbs, accounts, inPerms, inCPerms, out, rs, crs, r);
    }
    forall r | UniqueNames(v.clusterRoles) && r in v.clusterRoles
      ensures ClusterRoleConserved(v, accounts, inPerms, inCPerms, out, r)
    {
      ClusterRolesConserved(v, rbs, crbs, accounts, inPerms, inCPerms, out, rs, crs, r);
    }
    forall b | UniqueBindings(v.roleBindings) && b in v.roleBindings
      ensures RoleBindingConserved(v, rbs, accounts, out, b)
    {
      RoleBindingsConserved(v, rbs, crbs, accounts, inPerms, inCPerms, out, rs, crs, b);
    }
    forall b | UniqueBindings(v.clusterRoleBindings) && b in v.clusterRoleBindings
      ensures ClusterRoleBindingConserved(v, crbs, accounts, out, b)
    {
      ClusterRoleBindingsConserved(v, rbs, crbs, accounts, inPerms, inCPerms, out, rs, crs, b);
    }
    forall a
      ensures ServiceAccountObject(a) in out <==> a in v.serviceAccounts && a !in accounts
    {
      AccountsConserved(v, rbs, crbs, accounts, inPerms, inCPerms, out, rs, crs, a);
    }
  }

  /** The lists are those the manifests prescribe, and nothing collected is lost. */
  ghost predicate Bundled(v: View, bs: seq<Binding>, cbs: seq<Binding>, accounts: set<string>,
                          inPerms: seq<Object>, inCPerms: seq<Object>, out: seq<Object>) {
    && Conserved(v, BindingByName(bs), BindingByName(cbs), accounts, inPerms, inCPerms, out)
    && AreInPerms(v, accounts, inPerms) && AreInClusterPerms(v, accounts, inCPerms)
    && AreLeftOut(v, bs, cbs, accounts, out)
  }

  lemma SplitBundles(v: View, bs: seq<Binding>, cbs: seq<Binding>, accounts: set<string>, inPerms: seq<Object>,
                     inCPerms: seq<Object>, out: seq<Object>, rs: seq<string>, crs: seq<string>)
    requires IsSplit(v, BindingByName(bs), BindingByName(cbs), accounts, inPerms, inCPerms, out, rs, crs)
    requires KeyedByName(BindingByName(bs), v.roleBindings) && KeyedByName(BindingByName(cbs), v.clusterRoleBindings)
    ensures Bundled(v, bs, cbs, accounts, inPerms, inCPerms, out)
  {
    SplitRead(v, bs, cbs, accounts, inPerms, inCPerms, out, rs, crs);
    SplitConserves(v, BindingByName(bs), BindingByName(cbs), accounts, inPerms, inCPerms, out, rs, crs);
  }

  /** The two splits of one generation: the permissions of the first go to the CSV, the other objects of the
      second to the manifests directory. Together they conserve what was collected. */
  method SplitForBundle(c: Manifests, extraSAs: seq<string>)
    returns (inPerms: seq<Object>, inCPerms: seq<Object>, rbacObjs: seq<Object>)
    ensures Bundled(old(c.Contents()), c.roleBindings, c.clusterRoleBindings, Accounts(c.deployments, extraSAs),
                    inPerms, inCPerms, rbacObjs)
  {
    ghost var v, accounts := c.Contents(), Accounts(c.deployments, extraSAs);
    ghost var rbs, crbs := c.roleBindings, c.clusterRoleBindings;
    CollectedKeyed(rbs);
    CollectedKeyed(crbs);
    ghost var rs, crs;
    var first, inPerms', inCPerms';
    inPerms, inCPerms, first, rs, crs := c.SplitCsvPermissionsObjects(extraSAs);
    assert c.roleBindings == rbs && c.clusterRoleBindings == crbs;
    assert ValuesOf(rbs) == v.roleBindings && ValuesOf(crbs) == v.clusterRoleBindings;
    assert c.Contents() == v;
    inPerms', inCPerms', rbacObjs, rs, crs := c.SplitCsvPermissionsObjects(extraSAs);
    SplitBundles(v, rbs, crbs, accounts, inPerms, inCPerms, rbacObjs, rs, crs);
  }
}
