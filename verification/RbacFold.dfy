/** Folding the roles handed to the CSV into one permission entry per service account
    (internal/generate/clusterserviceversion/clusterserviceversion_updaters.go). */
module RbacFold {
  import opened Slices
  import opened RbacSplit
  import Text

  /** StrategyDeploymentPermissions */
  datatype Permission = Permission(serviceAccountName: string, rules: seq<int>)

  /** The rules a role reference stands for, if the role is known. */
  type RulesOf = RoleRef -> Option<seq<int>>

  // ----- What each account should get -----

  predicate Grants(s: Subject, sa: string) {
    s.kind == SERVICE_ACCOUNT_KIND && s.name == sa
  }

  /** The rules once for each of the first m subjects that is the account. */
  function SubjectRules(subjects: seq<Subject>, m: nat, sa: string, rules: Option<seq<int>>): seq<int>
    requires m <= |subjects|
  {
    if m == 0 then []
    else SubjectRules(subjects, m - 1, sa, rules) +
         if Grants(subjects[m - 1], sa) && rules.Some? then rules.value else []
  }

  /** What the first n bindings grant the account, in binding order. */
  function Rules(bindings: seq<BindingValue>, n: nat, rulesOf: RulesOf, sa: string): seq<int>
    requires n <= |bindings|
  {
    if n == 0 then []
    else Rules(bindings, n - 1, rulesOf, sa) +
         SubjectRules(bindings[n - 1].subjects, |bindings[n - 1].subjects|, sa, rulesOf(bindings[n - 1].roleRef))
  }

  function AllRules(bindings: seq<BindingValue>, rulesOf: RulesOf, accounts: set<string>): map<string, seq<int>> {
    map sa | sa in accounts :: Rules(bindings, |bindings|, rulesOf, sa)
  }

  /** Strictly sorted by account, one entry for each account with rules. */
  ghost predicate IsPermissionList(perms: seq<Permission>, rules: map<string, seq<int>>) {
    && (forall i, j :: 0 <= i < j < |perms| ==> Text.Less(perms[i].serviceAccountName, perms[j].serviceAccountName))
    && (forall sa, rs :: Permission(sa, rs) in perms <==> sa in rules && rules[sa] == rs && rs != [])
  }

  // ----- What each account gets, read off the bindings -----

  /** Subject number `subject` of binding number `binding`. */
  datatype Place = Place(binding: nat, subject: nat)

  predicate Earlier(p: Place, q: Place) {
    p.binding < q.binding || (p.binding == q.binding && p.subject < q.subject)
  }

  /** Which rules a role reference stands for. */
  type Grant = (RoleRef, seq<int>) -> bool

  ghost predicate IsPlace(bindings: seq<BindingValue>, p: Place) {
    p.binding < |bindings| && p.subject < |bindings[p.binding].subjects|
  }

  /** The subject there is the service account, and the binding's reference stands for some rules. */
  ghost predicate GrantsAt(bindings: seq<BindingValue>, grant: Grant, sa: string, p: Place) {
    && IsPlace(bindings, p)
    && bindings[p.binding].subjects[p.subject].kind == "ServiceAccount"
    && bindings[p.binding].subjects[p.subject].name == sa
    && exists rules :: grant(bindings[p.binding].roleRef, rules)
  }

  /** The places before `bound` that grant the account some rules, each once and in order, and what each grants. */
  ghost predicate LaidOut(bindings: seq<BindingValue>, grant: Grant, sa: string, bound: Place, places: seq<Place>,
                          shares: seq<seq<int>>) {
    && (forall p :: p in places <==> GrantsAt(bindings, grant, sa, p) && Earlier(p, bound))
    && (forall k, l :: 0 <= k < l < |places| ==> Earlier(places[k], places[l]))
    && |shares| == |places|
    && forall k :: 0 <= k < |places| ==>
         IsPlace(bindings, places[k]) && grant(bindings[places[k].binding].roleRef, shares[k])
  }

  /** The rules are those of all places that grant the account some, each place once, earlier places first. */
  ghost predicate IsGranted(bindings: seq<BindingValue>, grant: Grant, sa: string, rules: seq<int>) {
    exists places: seq<Place>, shares: seq<seq<int>> ::
      LaidOut(bindings, grant, sa, Place(|bindings|, 0), places, shares) && rules == Flatten(shares)
  }

  /** Some place grants the account the rule. */
  ghost predicate HasRule(bindings: seq<BindingValue>, grant: Grant, sa: string, x: int) {
    exists p, rules :: GrantsAt(bindings, grant, sa, p) && grant(bindings[p.binding].roleRef, rules) && x in rules
  }

  lemma SharesHave(bindings: seq<BindingValue>, grant: Grant, sa: string, places: seq<Place>, shares: seq<seq<int>>,
                   x: int)
    requires LaidOut(bindings, grant, sa, Place(|bindings|, 0), places, shares)
    requires forall ref, a, b :: grant(ref, a) && grant(ref, b) ==> a == b
    ensures x in Flatten(shares) <==> HasRule(bindings, grant, sa, x)
  {
    FlattenMembers(shares, x);
    if p, rules :| GrantsAt(bindings, grant, sa, p) && grant(bindings[p.binding].roleRef, rules) && x in rules {
      var k :| 0 <= k < |places| && places[k] == p;
      assert shares[k] == rules;
    }
    if k :| 0 <= k < |shares| && x in shares[k] {
      assert places[k] in places;
    }
  }

  ghost predicate Reads(grant: Grant, rulesOf: RulesOf) {
    forall ref, rules :: grant(ref, rules) <==> rulesOf(ref) == Some(rules)
  }

  /** What the bindings before number n grant, and the first m subjects of that one. */
  ghost function RulesTo(bindings: seq<BindingValue>, rulesOf: RulesOf, sa: string, n: nat, m: nat): seq<int>
    requires n <= |bindings| && m <= if n < |bindings| then |bindings[n].subjects| else 0
  {
    Rules(bindings, n, rulesOf, sa) +
    if m == 0 then [] else SubjectRules(bindings[n].subjects, m, sa, rulesOf(bindings[n].roleRef))
  }

  lemma LaySubject(bindings: seq<BindingValue>, grant: Grant, rulesOf: RulesOf, sa: string, p: Place,
                   places: seq<Place>, shares: seq<seq<int>>)
    returns (places': seq<Place>, shares': seq<seq<int>>)
    requires LaidOut(bindings, grant, sa, p, places, shares) && IsPlace(bindings, p) && Reads(grant, rulesOf)
    ensures LaidOut(bindings, grant, sa, p.(subject := p.subject + 1), places', shares')
    ensures Flatten(shares') == Flatten(shares) +
            var s, rules := bindings[p.binding].subjects[p.subject], rulesOf(bindings[p.binding].roleRef);
            if Grants(s, sa) && rules.Some? then rules.value else []
  {
    places', shares' := places, shares;
    var rules := rulesOf(bindings[p.binding].roleRef);
    if GrantsAt(bindings, grant, sa, p) {
      assert grant(bindings[p.binding].roleRef, rules.value);
      FlattenSnoc(shares, rules.value);
      places', shares' := places + [p], shares + [rules.value];
    } else if rules.Some? {
      assert grant(bindings[p.binding].roleRef, rules.value);
    }
  }

  lemma LayBinding(bindings: seq<BindingValue>, grant: Grant, sa: string, n: nat, places: seq<Place>,
                   shares: seq<seq<int>>)
    requires n < |bindings|
    requires LaidOut(bindings, grant, sa, Place(n, |bindings[n].subjects|), places, shares)
    ensures LaidOut(bindings, grant, sa, Place(n + 1, 0), places, shares)
  {
  }

  lemma RulesNext(bindings: seq<BindingValue>, rulesOf: RulesOf, sa: string, n: nat, m: nat)
    requires n < |bindings| && 0 < m <= |bindings[n].subjects|
    ensures RulesTo(bindings, rulesOf, sa, n, m) == RulesTo(bindings, rulesOf, sa, n, m - 1) +
            var s, rules := bindings[n].subjects[m - 1], rulesOf(bindings[n].roleRef);
            if Grants(s, sa) && rules.Some? then rules.value else []
  {
    var s, rules, before := bindings[n].subjects[m - 1], rulesOf(bindings[n].roleRef), Rules(bindings, n, rulesOf, sa);
    var last := if Grants(s, sa) && rules.Some? then rules.value else [];
    Regroup(before, SubjectRules(bindings[n].subjects, m - 1, sa, rules), last);
    assert SubjectRules(bindings[n].subjects, 0, sa, rules) == [] && before + [] == before && [] + last == last;
  }

  lemma RulesOfBinding(bindings: seq<BindingValue>, rulesOf: RulesOf, sa: string, n: nat)
    requires n < |bindings|
    ensures RulesTo(bindings, rulesOf, sa, n, |bindings[n].subjects|) == RulesTo(bindings, rulesOf, sa, n + 1, 0)
  {
  }

  lemma {:induction false} LayOut(bindings: seq<BindingValue>, grant: Grant, rulesOf: RulesOf, sa: string, n: nat,
                                  m: nat)
    returns (places: seq<Place>, shares: seq<seq<int>>)
    requires n <= |bindings| && (m <= if n < |bindings| then |bindings[n].subjects| else 0) && Reads(grant, rulesOf)
    ensures LaidOut(bindings, grant, sa, Place(n, m), places, shares)
    ensures Flatten(shares) == RulesTo(bindings, rulesOf, sa, n, m)
    decreases n, m
  {
    if m > 0 {
      places, shares := LayOut(bindings, grant, rulesOf, sa, n, m - 1);
      places, shares := LaySubject(bindings, grant, rulesOf, sa, Place(n, m - 1), places, shares);
      RulesNext(bindings, rulesOf, sa, n, m);
    } else if n > 0 {
      places, shares := LayOut(bindings, grant, rulesOf, sa, n - 1, |bindings[n - 1].subjects|);
      LayBinding(bindings, grant, sa, n - 1, places, shares);
      RulesOfBinding(bindings, rulesOf, sa, n - 1);
    } else {
      places, shares := [], [];
    }
  }

  /** Rules lists what the bindings grant the account. */
  lemma GrantedRules(bindings: seq<BindingValue>, grant: Grant, rulesOf: RulesOf, sa: string)
    requires Reads(grant, rulesOf)
    ensures IsGranted(bindings, grant, sa, Rules(bindings, |bindings|, rulesOf, sa))
  {
    var places, shares := LayOut(bindings, grant, rulesOf, sa, |bindings|, 0);
    assert Rules(bindings, |bindings|, rulesOf, sa) + [] == Rules(bindings, |bindings|, rulesOf, sa);
  }

  lemma GrantedHave(bindings: seq<BindingValue>, grant: Grant, rulesOf: RulesOf, sa: string, rules: seq<int>)
    requires Reads(grant, rulesOf) && IsGranted(bindings, grant, sa, rules)
    ensures forall x :: x in rules <==> HasRule(bindings, grant, sa, x)
  {
    var places, shares :| LaidOut(bindings, grant, sa, Place(|bindings|, 0), places, shares)
                          && rules == Flatten(shares);
    forall x
      ensures x in rules <==> HasRule(bindings, grant, sa, x)
    {
      SharesHave(bindings, grant, sa, places, shares, x);
    }
  }

  /** How often the rule is granted, over all places. */
  ghost function TimesIn(shares: seq<seq<int>>, x: int): nat {
    if shares == [] then 0 else TimesIn(shares[..|shares| - 1], x) + multiset(shares[|shares| - 1])[x]
  }

  /** A rule is listed as often as the places that grant it do so together. */
  lemma GrantedTimes(bindings: seq<BindingValue>, grant: Grant, sa: string, rules: seq<int>, x: int)
    returns (places: seq<Place>, shares: seq<seq<int>>)
    requires IsGranted(bindings, grant, sa, rules)
    ensures LaidOut(bindings, grant, sa, Place(|bindings|, 0), places, shares)
    ensures multiset(rules)[x] == TimesIn(shares, x)
  {
    places, shares :| LaidOut(bindings, grant, sa, Place(|bindings|, 0), places, shares) && rules == Flatten(shares);
    FlattenTimes(shares, x);
  }

  lemma {:induction false} FlattenTimes(shares: seq<seq<int>>, x: int)
    ensures multiset(Flatten(shares))[x] == TimesIn(shares, x)
  {
    if shares != [] {
      FlattenTimes(shares[..|shares| - 1], x);
      assert multiset(Flatten(shares)) == multiset(Flatten(shares[..|shares| - 1])) + multiset(shares[|shares| - 1]);
    }
  }

  // ----- Looking roles up -----

  /** The Roles among the objects by name; None if one is a nil pointer, which cannot be read. */
  function RoleSet(objs: seq<Object>): Option<map<string, Role>> {
    if objs == [] then Some(map[])
    else
      var rest, o := RoleSet(objs[..|objs| - 1]), objs[|objs| - 1];
      if !o.RoleObject? || rest.None? then rest
      else if o.role.None? then None
      else Some(rest.value[o.role.value.name := o.role.value])
  }

  function ClusterRoleSet(objs: seq<Object>): Option<map<string, Role>> {
    if objs == [] then Some(map[])
    else
      var rest, o := ClusterRoleSet(objs[..|objs| - 1]), objs[|objs| - 1];
      if !o.ClusterRoleObject? || rest.None? then rest
      else if o.clusterRole.None? then None
      else Some(rest.value[o.clusterRole.value.name := o.clusterRole.value])
  }

  function RulesIn(roles: map<string, Role>, name: string): Option<seq<int>> {
    if name in roles then Some(roles[name].rules) else None
  }

  function NamespacedRules(roles: map<string, Role>, cRoles: map<string, Role>, ref: RoleRef): Option<seq<int>> {
    if ref.kind == ROLE_KIND then RulesIn(roles, ref.name)
    else if ref.kind == CLUSTER_ROLE_KIND then RulesIn(cRoles, ref.name)
    else None
  }

  // ----- The fold -----

  method InitPermissionSet(deployments: seq<string>, extraSAs: seq<string>)
    returns (saToPermissions: map<string, Permission>)
    ensures saToPermissions == map sa | sa in Accounts(deployments, extraSAs) :: Permission(sa, [])
  {
    saToPermissions := map[];
    ghost var accounts: set<string> := {};
    for i := 0 to |deployments|
      invariant accounts == set d | d in deployments[..i] :: AccountOf(d)
      invariant saToPermissions.Keys == accounts
      invariant forall sa :: sa in accounts ==> saToPermissions[sa] == Permission(sa, [])
    {
      var saName := if deployments[i] == "" then DEFAULT_SERVICE_ACCOUNT else deployments[i];
      assert deployments[..i + 1] == deployments[..i] + [deployments[i]];
      assert (set d | d in deployments[..i + 1] :: AccountOf(d)) == accounts + {AccountOf(deployments[i])};
      saToPermissions := saToPermissions[saName := Permission(saName, [])];
      accounts := accounts + {saName};
    }
    assert deployments[..|deployments|] == deployments;
    for i := 0 to |extraSAs|
      invariant accounts == (set d | d in deployments :: AccountOf(d)) + set e | e in extraSAs[..i]
      invariant saToPermissions.Keys == accounts
      invariant forall sa :: sa in accounts ==> saToPermissions[sa] == Permission(sa, [])
    {
      assert extraSAs[..i + 1] == extraSAs[..i] + [extraSAs[i]];
      saToPermissions := saToPermissions[extraSAs[i] := Permission(extraSAs[i], [])];
      accounts := accounts + {extraSAs[i]};
    }
    assert extraSAs[..|extraSAs|] == extraSAs;
  }

  ghost predicate FoldedTo(m: map<string, Permission>, accounts: set<string>, rules: string -> seq<int>) {
    m.Keys == accounts && forall sa :: sa in accounts ==> m[sa] == Permission(sa, rules(sa))
  }

  method FoldBinding(binding: Binding, rules: Option<seq<int>>, saToPermissions: map<string, Permission>,
                     ghost accounts: set<string>, ghost before: string -> seq<int>)
    returns (m: map<string, Permission>)
    requires FoldedTo(saToPermissions, accounts, before)
    ensures var subjects := old(ValueOf(binding)).subjects;
            FoldedTo(m, accounts, sa => before(sa) + SubjectRules(subjects, |subjects|, sa, rules))
  {
    m := saToPermissions;
    ghost var subjects := ValueOf(binding).subjects;
    for j := 0 to binding.subjects.Length
      invariant m.Keys == accounts
      invariant forall sa :: sa in accounts ==>
                  m[sa] == Permission(sa, before(sa) + SubjectRules(subjects, j, sa, rules))
    {
      var subject := binding.subjects[j];
      assert subject == subjects[j];
      if subject.kind == SERVICE_ACCOUNT_KIND && subject.name in m && rules.Some? {
        var perm := m[subject.name];
        m := m[subject.name := perm.(rules := perm.rules + rules.value)];
      }
    }
  }

  method FoldBindings(bindings: seq<Binding>, rulesOf: RulesOf, saToPermissions: map<string, Permission>,
                      ghost accounts: set<string>)
    returns (m: map<string, Permission>)
    requires saToPermissions == map sa | sa in accounts :: Permission(sa, [])
    ensures m == map sa | sa in accounts :: Permission(sa, Rules(old(ValuesOf(bindings)), |bindings|, rulesOf, sa))
  {
    m := saToPermissions;
    ghost var vs := ValuesOf(bindings);
    for i := 0 to |bindings|
      invariant FoldedTo(m, accounts, sa => Rules(vs, i, rulesOf, sa))
    {
      assert ValueOf(bindings[i]) == vs[i];
      m := FoldBinding(bindings[i], rulesOf(bindings[i].roleRef), m, accounts, sa => Rules(vs, i, rulesOf, sa));
    }
  }

  method SortedPermissions(saToPermissions: map<string, Permission>, ghost rules: map<string, seq<int>>)
    returns (perms: seq<Permission>)
    requires saToPermissions == map sa | sa in rules :: Permission(sa, rules[sa])
    ensures IsPermissionList(perms, rules)
  {
    var keys := RangeKeys(saToPermissions.Keys);
    perms := [];
    for i := 0 to |keys|
      invariant NoDup(perms)
      invariant forall p :: p in perms <==> p.serviceAccountName in keys[..i] && p.serviceAccountName in rules
                                            && p.rules == rules[p.serviceAccountName] && p.rules != []
    {
      var perm := saToPermissions[keys[i]];
      assert keys[..i + 1] == keys[..i] + [keys[i]] && keys[i] !in keys[..i];
      if |perm.rules| != 0 {
        NoDupAppend(perms, perm);
        perms := perms + [perm];
      }
    }
    assert keys[..|keys|] == keys;
    var less := (a: Permission, b: Permission) => Text.Less(a.serviceAccountName, b.serviceAccountName);
    NameOrderIsWeak(less);
    ghost var unsorted, perm := perms, [];
    perms, perm := SortSlice(perms, less);
    PermuteKeepsMembers(unsorted, perm);
    StrictlySorted(perms, less, rules);
  }

  lemma NameOrderIsWeak(less: (Permission, Permission) -> bool)
    requires forall a, b :: less(a, b) <==> Text.Less(a.serviceAccountName, b.serviceAccountName)
    ensures WeakOrder(less)
  {
    forall a: Permission, b: Permission | less(a, b)
      ensures !less(b, a)
    {
      Text.LessAsymmetric(a.serviceAccountName, b.serviceAccountName);
    }
    forall a: Permission, b: Permission, c: Permission | !less(b, a) && !less(c, b)
      ensures !less(c, a)
    {
      Text.NotLessTransitive(a.serviceAccountName, b.serviceAccountName, c.serviceAccountName);
    }
  }

  lemma StrictlySorted(perms: seq<Permission>, less: (Permission, Permission) -> bool, rules: map<string, seq<int>>)
    requires forall a, b :: less(a, b) <==> Text.Less(a.serviceAccountName, b.serviceAccountName)
    requires Sorted(perms, less) && NoDup(perms)
    requires forall p :: p in perms ==> p.serviceAccountName in rules && p.rules == rules[p.serviceAccountName]
    ensures forall i, j :: 0 <= i < j < |perms| ==> Text.Less(perms[i].serviceAccountName, perms[j].serviceAccountName)
  {
    forall i, j | 0 <= i < j < |perms|
      ensures Text.Less(perms[i].serviceAccountName, perms[j].serviceAccountName)
    {
      assert perms[i] in perms && perms[j] in perms && !less(perms[j], perms[i]);
      Text.LessTotal(perms[i].serviceAccountName, perms[j].serviceAccountName);
    }
  }

  /** Reads the objects into lookup maps; fails where Go would dereference a nil pointer. */
  method ReadObjects(objs: seq<Object>)
    returns (roleSet: Option<map<string, Role>>, cRoleSet: Option<map<string, Role>>)
    ensures roleSet == RoleSet(objs) && cRoleSet == ClusterRoleSet(objs)
  {
    roleSet, cRoleSet := Some(map[]), Some(map[]);
    for i := 0 to |objs|
      invariant roleSet == RoleSet(objs[..i]) && cRoleSet == ClusterRoleSet(objs[..i])
    {
      assert objs[..i + 1][..i] == objs[..i];
      match objs[i]
      case RoleObject(r) =>
        roleSet := if roleSet.None? || r.None? then None else Some(roleSet.value[r.value.name := r.value]);
      case ClusterRoleObject(r) =>
        cRoleSet := if cRoleSet.None? || r.None? then None else Some(cRoleSet.value[r.value.name := r.value]);
      case _ =>
    }
    assert objs[..|objs|] == objs;
  }

  /** The part of the CSV's install strategy that holds permissions. */
  class Strategy {
    var permissions: seq<Permission>
    var clusterPermissions: seq<Permission>

    method ApplyRoles(c: Manifests, objs: seq<Object>, extraSAs: seq<string>) returns (panicked: bool)
      modifies this`permissions
      ensures panicked <==> RoleSet(objs).None? || ClusterRoleSet(objs).None?
      ensures panicked ==> permissions == old(permissions)
      ensures !panicked ==>
                IsPermissionList(permissions, AllRules(old(c.Contents()).roleBindings,
                  (ref: RoleRef) => NamespacedRules(RoleSet(objs).value, ClusterRoleSet(objs).value, ref),
                    Accounts(c.deployments, extraSAs)))
    {
      ghost var v := c.Contents();
      var roleSet, cRoleSet := ReadObjects(objs);
      if roleSet.None? || cRoleSet.None? {
        return true;
      }
      var rulesOf := (ref: RoleRef) => NamespacedRules(roleSet.value, cRoleSet.value, ref);
      permissions := Fold(c.roleBindings, v.roleBindings, rulesOf, c.deployments, extraSAs);
      panicked := false;
    }

    method ApplyClusterRoles(c: Manifests, objs: seq<Object>, extraSAs: seq<string>) returns (panicked: bool)
      modifies this`clusterPermissions
      ensures panicked <==> ClusterRoleSet(objs).None?
      ensures panicked ==> clusterPermissions == old(clusterPermissions)
      ensures !panicked ==>
                IsPermissionList(clusterPermissions, AllRules(old(c.Contents()).clusterRoleBindings,
                  (ref: RoleRef) => RulesIn(ClusterRoleSet(objs).value, ref.name), Accounts(c.deployments, extraSAs)))
    {
      ghost var v := c.Contents();
      var _, cRoleSet := ReadObjects(objs);
      if cRoleSet.None? {
        return true;
      }
      var rulesOf := (ref: RoleRef) => RulesIn(cRoleSet.value, ref.name);
      clusterPermissions := Fold(c.clusterRoleBindings, v.clusterRoleBindings, rulesOf, c.deployments, extraSAs);
      panicked := false;
    }
  }

  method Fold(bindings: seq<Binding>, ghost vs: seq<BindingValue>, rulesOf: RulesOf, deployments: seq<string>,
              extraSAs: seq<string>)
    returns (perms: seq<Permission>)
    requires vs == ValuesOf(bindings)
    ensures IsPermissionList(perms, AllRules(vs, rulesOf, Accounts(deployments, extraSAs)))
  {
    ghost var accounts := Accounts(deployments, extraSAs);
    var saToPermissions := InitPermissionSet(deployments, extraSAs);
    assert ValuesOf(bindings) == vs;
    saToPermissions := FoldBindings(bindings, rulesOf, saToPermissions, accounts);
    perms := SortedPermissions(saToPermissions, AllRules(vs, rulesOf, accounts));
  }
}
