/** What a reader of the custom resource is told after a call, condition by condition. */
module HelmReading {
  import opened Slices
  import opened HelmStatus
  import opened HelmManager
  import opened HelmReconcile
  import opened HelmRuns

  /** The conditions have exactly one of this kind, and it is this one, whenever it was set. */
  ghost predicate Says(s: Status, kind: ConditionKind, status: Truth, reason: Reason, message: string) {
    exists i: nat :: OnlyAt(s.conditions, kind, i) && s.conditions[i].status == status
                     && s.conditions[i].reason == reason && s.conditions[i].message == message
  }

  ghost predicate OnlyAt(cs: seq<Condition>, kind: ConditionKind, i: nat) {
    i < |cs| && forall j :: 0 <= j < |cs| ==> (cs[j].kind == kind <==> j == i)
  }

  ghost predicate Silent(s: Status, kind: ConditionKind) {
    forall c :: c in s.conditions ==> c.kind != kind
  }

  /** What Helm's notes for a revision are, if it has any. */
  function Notes(r: Record): string {
    match r.info
    case Some(info) => info.notes
    case None => ""
  }

  // ----- Lookups and what the list holds -----

  lemma LookupIsOnly(cs: seq<Condition>, kind: ConditionKind) returns (i: nat)
    requires OneOfEach(cs) && Lookup(cs, kind).Some?
    ensures OnlyAt(cs, kind, i) && Lookup(cs, kind).value == cs[i]
  {
    OneOfEachIsUnique(cs);
    i := LookupIndex(cs, kind);
  }

  lemma {:induction false} LookupIndex(cs: seq<Condition>, kind: ConditionKind) returns (i: nat)
    requires Lookup(cs, kind).Some?
    ensures i < |cs| && cs[i].kind == kind && Lookup(cs, kind).value == cs[i]
  {
    i := 0;
    if cs[0].kind != kind {
      i := LookupIndex(cs[1..], kind);
      i := i + 1;
    }
  }

  lemma SaysIff(s: Status, c: Condition)
    requires OneOfEach(s.conditions)
    ensures Shows(s.conditions, c) <==> Says(s, c.kind, c.status, c.reason, c.message)
  {
    if Lookup(s.conditions, c.kind).Some? {
      var i := LookupIsOnly(s.conditions, c.kind);
      assert forall j: nat :: OnlyAt(s.conditions, c.kind, j) ==> j == i;
    } else {
      LookupFinds(s.conditions, c.kind);
    }
  }

  lemma SilentIff(s: Status, kind: ConditionKind)
    ensures Lookup(s.conditions, kind).None? <==> Silent(s, kind)
  {
    LookupFinds(s.conditions, kind);
    assert forall i :: 0 <= i < |s.conditions| ==> s.conditions[i] in s.conditions;
  }

  // ----- After a call without error -----

  /** The status says the release is initialized and deployed, names it, and says nothing is wrong. */
  ghost predicate SaysDeployed(s: Status, reason: Reason, r: Record) {
    && Says(s, Initialized, True, NoReason, "")
    && Says(s, Deployed, True, reason, Notes(r))
    && Silent(s, ReleaseFailed) && Silent(s, Irreconcilable)
    && s.release == Some(Release(r.name, r.manifest))
  }

  lemma CleanIff(s: Status, reason: Reason, r: Record)
    ensures Clean(s, reason, r) <==> OneOfEach(s.conditions) && SaysDeployed(s, reason, r)
  {
    if OneOfEach(s.conditions) {
      SaysIff(s, Started());
      SaysIff(s, Running(reason, r));
      SilentIff(s, ReleaseFailed);
      SilentIff(s, Irreconcilable);
    }
  }

  /** What the server stores now. */
  ghost predicate Stores(server: Server, c: CustomResource) {
    server.versions != [] && server.versions[|server.versions| - 1] == Some(c)
  }

  /** The deployed revision of the highest version. */
  ghost predicate LatestRevision(storage: seq<Record>, r: Record) {
    && r in storage && r.info.Some? && r.info.value.phase == DeployedPhase
    && forall q :: q in storage && q.info.Some? && q.info.value.phase == DeployedPhase ==> q.version <= r.version
  }

  ghost predicate HasFinalizer(c: CustomResource) {
    "helm.sdk.operatorframework.io/uninstall-release" in c.finalizers || "uninstall-helm-release" in c.finalizers
  }

  /** An error-free call on the current version of a live resource stores it with a finalizer and says what was done:
      installed if nothing was deployed, upgraded if the latest revision's manifest is no longer the chart's,
      and otherwise what the latest revision is. */
  lemma ErrorFreeSays(server: Server, base: nat, o: CustomResource, storage: seq<Record>, e: Events)
    returns (c: CustomResource)
    requires base + 1 == |server.versions| && server.versions[base] == Some(o)
    requires !o.deleting && OneOfEach(o.status.conditions) && DistinctVersions(storage)
    requires Step(server, base, storage, e).answer.failure.None?
    ensures Stores(Step(server, base, storage, e).server, c) && HasFinalizer(c) && !c.deleting
    ensures !AnyDeployed(storage) ==>
              e.install.Installed? && SaysDeployed(c.status, InstallSuccessful, e.install.record)
    ensures forall r :: LatestRevision(storage, r) && e.sync.candidate == Ok(r.manifest) ==>
              SaysDeployed(c.status, if r.version == 1 then InstallSuccessful else UpgradeSuccessful, r)
    ensures forall r :: LatestRevision(storage, r) && e.sync.candidate != Ok(r.manifest) ==>
              e.upgrade.Upgraded? && SaysDeployed(c.status, UpgradeSuccessful, e.upgrade.record)
    ensures c.finalizers == o.finalizers
            || c.finalizers == o.finalizers + ["helm.sdk.operatorframework.io/uninstall-release"]
  {
    c := ErrorFreeStores(server, base, o, storage, e);
    if !AnyDeployed(storage) {
      NothingLoaded(storage, e.sync);
    }
    forall r | LatestRevision(storage, r)
      ensures AfterSync(storage, e.sync).release == Some(r)
      ensures AfterSync(storage, e.sync).upgrade <==> e.sync.candidate != Ok(r.manifest)
    {
      LatestLoaded(storage, e.sync, r);
    }
  }

  lemma ErrorFreeStores(server: Server, base: nat, o: CustomResource, storage: seq<Record>, e: Events)
    returns (c: CustomResource)
    requires base + 1 == |server.versions| && server.versions[base] == Some(o)
    requires !o.deleting && OneOfEach(o.status.conditions)
    requires Step(server, base, storage, e).answer.failure.None?
    ensures Stores(Step(server, base, storage, e).server, c) && HasFinalizer(c) && !c.deleting
    ensures AfterSync(storage, e.sync).failure.None? && Goal(storage, e).Some?
    ensures SaysDeployed(c.status, GoalReason(storage, e), Goal(storage, e).value)
    ensures c.finalizers == o.finalizers || c.finalizers == o.WithFinalizer().finalizers
  {
    ErrorFreeIsClean(server, base, o, storage, e);
    ErrorFreeFinalizers(server, base, o, storage, e);
    var after := Step(server, base, storage, e).server;
    c := CleanStores(after, o, GoalReason(storage, e), Goal(storage, e).value);
  }

  lemma ErrorFreeFinalizers(server: Server, base: nat, o: CustomResource, storage: seq<Record>, e: Events)
    requires base + 1 == |server.versions| && server.versions[base] == Some(o) && !o.deleting
    requires Step(server, base, storage, e).answer.failure.None?
    ensures AfterSync(storage, e.sync).failure.None?
    ensures KeepsFinalizers(Step(server, base, storage, e).server, o)
  {
    ErrorFreeSynced(server, base, o, storage, e);
    LiveFinalizers(server, base, o, storage, e);
  }

  lemma CleanStores(server: Server, o: CustomResource, reason: Reason, r: Record) returns (c: CustomResource)
    requires EndsGuardedAndClean(server, o, reason, r)
    ensures Stores(server, c) && HasFinalizer(c) && !c.deleting && SaysDeployed(c.status, reason, r)
  {
    c := server.versions[|server.versions| - 1].value;
    CleanIff(c.status, reason, r);
  }

  lemma ErrorFreeSynced(server: Server, base: nat, o: CustomResource, storage: seq<Record>, e: Events)
    requires base < |server.versions| && server.versions[base] == Some(o) && !o.deleting
    requires Step(server, base, storage, e).answer.failure.None?
    ensures e.period.Ok? && AfterSync(storage, e.sync).failure.None?
    ensures Step(server, base, storage, e) == StepLive(server, base, o, storage, e)
  {
  }

  /** The finalizers are as they were or with the reconciler's own. */
  ghost predicate KeepsFinalizers(server: Server, o: CustomResource) {
    && server.versions != [] && server.versions[|server.versions| - 1].Some?
    && var c := server.versions[|server.versions| - 1].value;
    && (c.finalizers == o.finalizers || c.finalizers == o.WithFinalizer().finalizers)
  }

  lemma WriteFinalizers(server: Server, base: nat, o: CustomResource, c: CustomResource, w: Write)
    requires KeepsFinalizers(server, o)
    requires c.finalizers == o.finalizers || c.finalizers == o.WithFinalizer().finalizers
    ensures KeepsFinalizers(server.After(base, Some(c), w), o)
  {
  }

  lemma LiveFinalizers(server: Server, base: nat, o: CustomResource, storage: seq<Record>, e: Events)
    requires KeepsFinalizers(server, o) && e.period.Ok? && AfterSync(storage, e.sync).failure.None?
    ensures KeepsFinalizers(StepLive(server, base, o, storage, e).server, o)
  {
    var s := o.status.Set(Started(), e.now).Remove(Irreconcilable);
    var synced := AfterSync(storage, e.sync);
    WriteFinalizers(server, base, o, o.WithFinalizer(), e.objectWrite);
    if synced.release.None? {
      InstallFinalizers(server, base, o, s, synced.storage, e);
    } else if o.Guarded() {
      InstalledFinalizers(server, base, o, o, s, synced, e);
    } else {
      InstalledFinalizers(server.After(base, Some(o.WithFinalizer()), e.objectWrite), base + 1, o, o.WithFinalizer(), s,
                          synced, e);
    }
  }

  lemma InstallFinalizers(server: Server, base: nat, o: CustomResource, s: Status, storage: seq<Record>, e: Events)
    requires KeepsFinalizers(server, o) && e.period.Ok?
    ensures KeepsFinalizers(StepInstall(server, base, o, s, storage, e).server, o)
  {
    var c := o.WithFinalizer();
    WriteFinalizers(server, base, o, c, e.objectWrite);
    forall s': Status
      ensures KeepsFinalizers(server.After(base, Some(o.(status := s')), e.statusWrite), o)
      ensures KeepsFinalizers(server.After(base, Some(c), e.objectWrite)
                              .After(base + 1, Some(c.(status := s')), e.statusWrite), o)
    {
      WriteFinalizers(server, base, o, o.(status := s'), e.statusWrite);
      WriteFinalizers(server.After(base, Some(c), e.objectWrite), base + 1, o, c.(status := s'), e.statusWrite);
    }
  }

  lemma InstalledFinalizers(server: Server, base: nat, seen: CustomResource, c: CustomResource, s: Status,
                            synced: Synced, e: Events)
    requires KeepsFinalizers(server, seen) && e.period.Ok? && synced.release.Some?
    requires c.finalizers == seen.finalizers || c.finalizers == seen.WithFinalizer().finalizers
    ensures KeepsFinalizers(StepInstalled(server, base, seen, c, s, synced, e).server, seen)
  {
    forall s': Status
      ensures KeepsFinalizers(server.After(base, Some(c.(status := s')), e.statusWrite), seen)
    {
      WriteFinalizers(server, base, seen, c.(status := s'), e.statusWrite);
    }
  }

  lemma NothingLoaded(storage: seq<Record>, replies: SyncReplies)
    requires DistinctVersions(storage) && AfterSync(storage, replies).failure.None? && !AnyDeployed(storage)
    ensures AfterSync(storage, replies).release.None?
  {
    SyncLoadsLatest(storage, replies);
  }

  lemma LatestLoaded(storage: seq<Record>, replies: SyncReplies, r: Record)
    requires DistinctVersions(storage) && AfterSync(storage, replies).failure.None? && LatestRevision(storage, r)
    ensures AfterSync(storage, replies).release == Some(r)
    ensures AfterSync(storage, replies).upgrade <==> replies.candidate != Ok(r.manifest)
  {
    SyncLoadsLatest(storage, replies);
    assert IsDeployed(r);
    var i :| 0 <= i < |storage| && storage[i] == r;
    var j :| 0 <= j < |storage| && storage[j] == AfterSync(storage, replies).release.value;
  }

  /** Such a call asks to be repeated after the period that holds for the resource. */
  lemma ErrorFreeRepeats(server: Server, base: nat, o: CustomResource, storage: seq<Record>, e: Events)
    requires base < |server.versions| && server.versions[base] == Some(o) && !o.deleting
    requires Step(server, base, storage, e).answer.failure.None?
    ensures e.period.Ok? && Step(server, base, storage, e).answer.requeueAfter == e.period.value
  {
  }

  /** With nothing deployed, a working call on the current version is free of errors exactly if Sync, the install and
      the release hook succeed and both writes are accepted. */
  lemma InstallErrorFreeIff(server: Server, base: nat, o: CustomResource, storage: seq<Record>, e: Events)
    requires Works(server, base, o, e) && !o.deleting && DistinctVersions(storage) && !AnyDeployed(storage)
    ensures Step(server, base, storage, e).answer.failure.None? <==>
            && AfterSync(storage, e.sync).failure.None? && e.install.Installed? && e.hook.None?
            && e.objectWrite.Accepted? && e.statusWrite.Accepted?
  {
    if AfterSync(storage, e.sync).failure.None? {
      NothingLoaded(storage, e.sync);
    }
  }

  /** With a revision deployed: exactly if Sync, the upgrade or else the reconciliation, and the release hook succeed,
      a missing finalizer is accepted, and so is the status, unless it needs no write. */
  lemma InstalledErrorFreeIff(server: Server, base: nat, o: CustomResource, storage: seq<Record>, e: Events, r: Record)
    requires Works(server, base, o, e) && !o.deleting && DistinctVersions(storage) && LatestRevision(storage, r)
    ensures Step(server, base, storage, e).answer.failure.None? <==>
            && AfterSync(storage, e.sync).failure.None? && e.hook.None?
            && (HasFinalizer(o) || e.objectWrite.Accepted?)
            && if e.sync.candidate != Ok(r.manifest) then e.upgrade.Upgraded? && e.statusWrite.Accepted?
               else
                 && e.reconcile.None?
                 && (e.statusWrite.Accepted?
                     || SaysDeployed(o.status, if r.version == 1 then InstallSuccessful else UpgradeSuccessful, r))
  {
    if AfterSync(storage, e.sync).failure.None? {
      LatestLoaded(storage, e.sync, r);
      UnchangedIff(o, r, e);
    }
  }

  /** The status a call with nothing to do arrives at is the one it found, exactly if that was clean. */
  lemma UnchangedIff(o: CustomResource, r: Record, e: Events)
    requires OneOfEach(o.status.conditions)
    ensures o.status.Set(Started(), e.now).Remove(Irreconcilable).Remove(ReleaseFailed).Remove(Irreconcilable)
            .Set(Running(ReasonFor(r), r), e.later).(release := ReleaseOf(r)) == o.status
            <==> SaysDeployed(o.status, if r.version == 1 then InstallSuccessful else UpgradeSuccessful, r)
  {
    var s := o.status.Set(Started(), e.now).Remove(Irreconcilable);
    KeepIsInstalled(s, o, r, e);
    EndsClean(o.status, ReasonFor(r), r, e);
    CleanIff(o.status, ReasonFor(r), r);
    if Clean(o.status, ReasonFor(r), r) {
      SetIsQuiet(o.status.conditions, Started(), e.now);
      RemoveIsQuiet(o.status.conditions, Irreconcilable);
      RemoveIsQuiet(o.status.conditions, ReleaseFailed);
      SetIsQuiet(o.status.conditions, Running(ReasonFor(r), r), e.later);
    }
  }

  // ----- After a call that fails -----

  /** A call that cannot read the resource, make a manager or tell the period answers with that and leaves everything
      as it was; it has nothing to do if the resource is not there, or is being deleted without a finalizer. */
  lemma EarlyReturnSays(server: Server, base: nat, storage: seq<Record>, e: Events)
    requires base < |server.versions|
    ensures var out, o := Step(server, base, storage, e), server.versions[base];
            && (e.get.Some? ==> out == Outcome(server, storage, Answer(0, e.get), []))
            && (e.get.None? && o.None? ==> out == Outcome(server, storage, Answer(0, None), []))
            && (e.get.None? && o.Some? && e.newManager.Some? ==>
                  out == Outcome(server, storage, Answer(0, e.newManager), []))
            && (e.get.None? && o.Some? && e.newManager.None? && e.period.Err? ==>
                  out == Outcome(server, storage, Answer(0, Some(e.period.failure)), []))
            && (e.get.None? && o.Some? && e.newManager.None? && e.period.Ok? && o.value.deleting
                && !HasFinalizer(o.value) ==>
                  out == Outcome(server, storage, Answer(0, None), []))
  {
  }

  /** The conditions say this, whenever it was set. */
  ghost predicate SaysThat(s: Status, c: Condition) {
    Says(s, c.kind, c.status, c.reason, c.message)
  }

  lemma SetSays(s: Status, c: Condition, now: int, d: Condition)
    requires OneOfEach(s.conditions)
    ensures OneOfEach(s.Set(c, now).conditions) && SaysThat(s.Set(c, now), c)
    ensures d.kind != c.kind && SaysThat(s, d) ==> SaysThat(s.Set(c, now), d)
    ensures d.kind != c.kind && Silent(s, d.kind) ==> Silent(s.Set(c, now), d.kind)
  {
    SetShows(s.conditions, c, now, d);
    SaysIff(s.Set(c, now), c);
    SaysIff(s, d);
    SaysIff(s.Set(c, now), d);
    SilentIff(s, d.kind);
    SilentIff(s.Set(c, now), d.kind);
    LookupAfterSet(s.conditions, c, now, d.kind);
  }

  lemma RemoveSays(s: Status, removed: ConditionKind, d: Condition)
    requires OneOfEach(s.conditions)
    ensures OneOfEach(s.Remove(removed).conditions) && Silent(s.Remove(removed), removed)
    ensures d.kind != removed && SaysThat(s, d) ==> SaysThat(s.Remove(removed), d)
  {
    RemoveShows(s.conditions, removed, d);
    SilentIff(s.Remove(removed), removed);
    SaysIff(s, d);
    SaysIff(s.Remove(removed), d);
  }

  /** The call reads the current version of the resource and gets as far as working on it. */
  ghost predicate Works(server: Server, base: nat, o: CustomResource, e: Events) {
    && base + 1 == |server.versions| && server.versions[base] == Some(o) && OneOfEach(o.status.conditions)
    && e.get.None? && e.newManager.None? && e.period.Ok?
  }

  /** The resource is stored with nothing but its status changed, which says that the kind of problem is there. */
  ghost predicate TellsOf(server: Server, o: CustomResource, kind: ConditionKind, reason: Reason, f: Failure) {
    exists c :: Stores(server, c) && c == o.(status := c.status, finalizers := c.finalizers)
                && c.status.release == o.status.release && Says(c.status, kind, True, reason, f.message)
                && Says(c.status, Initialized, True, NoReason, "")
  }

  /** A failing call's status: initialized, with the problem. */
  ghost predicate TellsStatus(o: CustomResource, s: Status, kind: ConditionKind, reason: Reason, f: Failure) {
    Says(s, kind, True, reason, f.message) && Says(s, Initialized, True, NoReason, "") && s.release == o.status.release
  }

  lemma StatusTells(o: CustomResource, s: Status, kind: ConditionKind, reason: Reason, f: Failure, now: int)
    requires OneOfEach(s.conditions) && SaysThat(s, Started()) && s.release == o.status.release && kind != Initialized
    ensures TellsStatus(o, s.Set(Problem(kind, reason, f), now), kind, reason, f)
  {
    SetSays(s, Problem(kind, reason, f), now, Started());
    assert SaysThat(s.Set(Problem(kind, reason, f), now), Started());
    assert SaysThat(s.Set(Problem(kind, reason, f), now), Problem(kind, reason, f));
  }

  lemma StartedStatus(o: CustomResource, e: Events)
    requires OneOfEach(o.status.conditions)
    ensures var s := o.status.Set(Started(), e.now); OneOfEach(s.conditions) && SaysThat(s, Started())
    ensures var s := o.status.Set(Started(), e.now).Remove(Irreconcilable);
            OneOfEach(s.conditions) && SaysThat(s, Started())
    ensures var s := o.status.Set(Started(), e.now).Remove(Irreconcilable).Remove(ReleaseFailed);
            OneOfEach(s.conditions) && SaysThat(s, Started())
  {
    var s := o.status.Set(Started(), e.now);
    SetSays(o.status, Started(), e.now, Started());
    RemoveSays(s, Irreconcilable, Started());
    RemoveSays(s.Remove(Irreconcilable), ReleaseFailed, Started());
  }

  lemma Tells(server: Server, o: CustomResource, c: CustomResource, kind: ConditionKind, reason: Reason, f: Failure)
    requires Stores(server, c) && c == o.(status := c.status, finalizers := c.finalizers)
    requires TellsStatus(o, c.status, kind, reason, f)
    ensures TellsOf(server, o, kind, reason, f)
  {
  }

  /** The call answers with the failure of Sync and says the resource cannot be reconciled. */
  lemma SyncFailureSays(server: Server, base: nat, o: CustomResource, storage: seq<Record>, e: Events, f: Failure)
    requires Works(server, base, o, e) && !o.deleting && AfterSync(storage, e.sync).failure == Some(f)
    requires !e.statusWrite.Refused?
    ensures Step(server, base, storage, e).answer == Answer(0, Some(f))
    ensures TellsOf(Step(server, base, storage, e).server, o, Irreconcilable, ReconcileError, f)
  {
    var s := o.status.Set(Started(), e.now);
    StartedStatus(o, e);
    StatusTells(o, s, Irreconcilable, ReconcileError, f, e.later);
    Tells(Step(server, base, storage, e).server, o,
          o.(status := s.Set(Problem(Irreconcilable, ReconcileError, f), e.later)), Irreconcilable, ReconcileError, f);
  }

  /** The call finds nothing deployed, and installing fails: it says so, and records no release. */
  lemma InstallFailureSays(server: Server, base: nat, o: CustomResource, storage: seq<Record>, e: Events)
    requires Works(server, base, o, e) && !o.deleting && DistinctVersions(storage)
    requires AfterSync(storage, e.sync).failure.None? && !AnyDeployed(storage) && e.install.InstallFailed?
    requires !e.statusWrite.Refused?
    ensures Step(server, base, storage, e).answer == Answer(0, Some(e.install.failure))
    ensures TellsOf(Step(server, base, storage, e).server, o, ReleaseFailed, InstallError, e.install.failure)
  {
    NothingLoaded(storage, e.sync);
    var s, f := o.status.Set(Started(), e.now).Remove(Irreconcilable), e.install.failure;
    StartedStatus(o, e);
    StatusTells(o, s, ReleaseFailed, InstallError, f, e.later);
    Tells(Step(server, base, storage, e).server, o,
          o.(status := s.Set(Problem(ReleaseFailed, InstallError, f), e.later)), ReleaseFailed, InstallError, f);
  }

  /** The latest revision's manifest is no longer the chart's, and upgrading fails: the call says so, and
      rolls back exactly if the failed upgrade was recorded. */
  lemma UpgradeFailureSays(server: Server, base: nat, o: CustomResource, storage: seq<Record>, e: Events, r: Record)
    requires Works(server, base, o, e) && !o.deleting && DistinctVersions(storage)
    requires AfterSync(storage, e.sync).failure.None? && LatestRevision(storage, r)
    requires e.sync.candidate != Ok(r.manifest) && e.upgrade.UpgradeFailed?
    requires !e.statusWrite.Refused? && (HasFinalizer(o) || e.objectWrite.Accepted?)
    ensures var out := Step(server, base, storage, e);
            && out.answer == Answer(0, Some(e.upgrade.failure))
            && out.storage == (if e.upgrade.recorded then e.upgrade.rolledBack else e.upgrade.after)
            && TellsOf(out.server, o, ReleaseFailed, UpgradeError, e.upgrade.failure)
  {
    LatestLoaded(storage, e.sync, r);
    var s, f := o.status.Set(Started(), e.now).Remove(Irreconcilable), e.upgrade.failure;
    StartedStatus(o, e);
    StatusTells(o, s, ReleaseFailed, UpgradeError, f, e.later);
    var c := if o.Guarded() then o else o.WithFinalizer();
    Tells(Step(server, base, storage, e).server, o,
          c.(status := s.Set(Problem(ReleaseFailed, UpgradeError, f), e.later)), ReleaseFailed, UpgradeError, f);
  }

  /** The latest revision is up to date, and reconciling it fails: the call says so and no longer speaks of a
      failed release. */
  lemma ReconcileFailureSays(server: Server, base: nat, o: CustomResource, storage: seq<Record>, e: Events, r: Record)
    requires Works(server, base, o, e) && !o.deleting && DistinctVersions(storage)
    requires LatestRevision(storage, r) && AfterSync(storage, e.sync).failure.None?
    requires e.sync.candidate == Ok(r.manifest) && e.reconcile.Some?
    requires !e.statusWrite.Refused? && (HasFinalizer(o) || e.objectWrite.Accepted?)
    ensures Step(server, base, storage, e).answer == Answer(0, e.reconcile)
    ensures TellsOf(Step(server, base, storage, e).server, o, Irreconcilable, ReconcileError, e.reconcile.value)
    ensures exists c :: Stores(Step(server, base, storage, e).server, c) && Silent(c.status, ReleaseFailed)
  {
    LatestLoaded(storage, e.sync, r);
    var s, f := o.status.Set(Started(), e.now).Remove(Irreconcilable).Remove(ReleaseFailed), e.reconcile.value;
    StartedStatus(o, e);
    StatusTells(o, s, Irreconcilable, ReconcileError, f, e.later);
    StaysSilent(o, e, f);
    var c := if o.Guarded() then o else o.WithFinalizer();
    Tells(Step(server, base, storage, e).server, o,
          c.(status := s.Set(Problem(Irreconcilable, ReconcileError, f), e.later)), Irreconcilable, ReconcileError, f);
  }

  lemma StaysSilent(o: CustomResource, e: Events, f: Failure)
    requires OneOfEach(o.status.conditions)
    ensures Silent(o.status.Set(Started(), e.now).Remove(Irreconcilable).Remove(ReleaseFailed)
                   .Set(Problem(Irreconcilable, ReconcileError, f), e.later), ReleaseFailed)
  {
    var s, d := o.status.Set(Started(), e.now).Remove(Irreconcilable), Problem(ReleaseFailed, NoReason, f);
    StartedStatus(o, e);
    RemoveSays(s, ReleaseFailed, d);
    SetSays(s.Remove(ReleaseFailed), Problem(Irreconcilable, ReconcileError, f), e.later, d);
  }

  // ----- While the resource is being deleted -----

  /** Uninstalling fails: the call answers with the failure and says so. */
  lemma UninstallFailureSays(server: Server, base: nat, o: CustomResource, storage: seq<Record>, e: Events)
    requires Works(server, base, o, e) && o.deleting && HasFinalizer(o) && e.uninstall.UninstallFailed?
    requires !e.statusWrite.Refused?
    ensures var out := Step(server, base, storage, e);
            && out.answer == Answer(0, Some(e.uninstall.failure)) && out.storage == e.uninstall.after
            && exists s :: Stores(out.server, o.(status := s)) && s.release == o.status.release
                           && Says(s, ReleaseFailed, True, UninstallError, e.uninstall.failure.message)
  {
    var c := Problem(ReleaseFailed, UninstallError, e.uninstall.failure);
    SetSays(o.status, c, e.now, c);
    assert SaysThat(o.status.Set(c, e.now), c);
    assert Stores(Step(server, base, storage, e).server, o.(status := o.status.Set(c, e.now)));
  }

  ghost predicate WaitsForDeletion(o: CustomResource) {
    "helm.sdk.operatorframework.io/uninstall-wait" in o.annotations &&
    o.annotations["helm.sdk.operatorframework.io/uninstall-wait"] in ["1", "t", "T", "true", "TRUE", "True"]
  }

  /** What the status says of a release that was uninstalled or was not there. */
  ghost predicate SaysGone(o: CustomResource, e: Events, s: Status) {
    && Silent(s, ReleaseFailed)
    && (WaitsForDeletion(o) ==>
          && Says(s, Deployed, False, UninstallSuccessful, "Waiting until all resources are deleted.")
          && s.release == o.status.release)
    && (!WaitsForDeletion(o) && e.uninstall.Uninstalled? ==>
          Says(s, Deployed, False, UninstallSuccessful, "") && s.release == None)
    && (!WaitsForDeletion(o) && e.uninstall.ReleaseNotFound? ==>
          forall d: Condition :: d.kind != ReleaseFailed && SaysThat(o.status, d) ==> SaysThat(s, d))
  }

  lemma UninstalledSays(o: CustomResource, e: Events)
    requires OneOfEach(o.status.conditions) && !e.uninstall.UninstallFailed?
    ensures OneOfEach(UninstalledStatus(o, e).conditions) && SaysGone(o, e, UninstalledStatus(o, e))
  {
    var s, f := o.status.Remove(ReleaseFailed), Problem(ReleaseFailed, NoReason, Failure(""));
    forall d: Condition | d.kind != ReleaseFailed && SaysThat(o.status, d)
      ensures SaysThat(s, d)
    {
      RemoveSays(o.status, ReleaseFailed, d);
    }
    RemoveSays(o.status, ReleaseFailed, f);
    SetSays(s, Gone(WAITING), e.now, f);
    SetSays(s, Gone(""), e.now, f);
    assert SaysThat(s.Set(Gone(WAITING), e.now), Gone(WAITING)) && SaysThat(s.Set(Gone(""), e.now), Gone(""));
    assert o.Waits() <==> WaitsForDeletion(o);
  }

  /** The first thing the call stores says that the release is gone. */
  lemma UninstallSays(server: Server, base: nat, o: CustomResource, storage: seq<Record>, e: Events)
    requires Works(server, base, o, e) && o.deleting && HasFinalizer(o) && !e.uninstall.UninstallFailed?
    requires !e.statusWrite.Refused?
    ensures var out := Step(server, base, storage, e);
            && (e.uninstall.Uninstalled? ==> out.storage == []) && |out.server.versions| > base + 1
            && exists s :: out.server.versions[base + 1] == Some(o.(status := s)) && SaysGone(o, e, s)
  {
    UninstalledSays(o, e);
    FirstStored(server, base, o, if e.uninstall.Uninstalled? then [] else storage, e);
  }

  lemma FirstStored(server: Server, base: nat, o: CustomResource, storage: seq<Record>, e: Events)
    requires base + 1 == |server.versions| && e.period.Ok? && !e.statusWrite.Refused?
    ensures var out := StepUninstalled(server, base, o, storage, e);
            && out.storage == storage && |out.server.versions| > base + 1
            && out.server.versions[base + 1] == Some(o.(status := UninstalledStatus(o, e)))
  {
  }

  /** Something is left to wait for: the call keeps the finalizer and asks to be repeated after the period. */
  lemma WaitingSays(server: Server, base: nat, o: CustomResource, storage: seq<Record>, e: Events)
    requires Works(server, base, o, e) && o.deleting && HasFinalizer(o) && !e.uninstall.UninstallFailed?
    requires WaitsForDeletion(o) && o.status.release.Some? && o.status.release.value.manifest != ""
    requires AfterCleanup(o.status.release.value.manifest, e.cleanup).allDeleted == Ok(false)
    requires e.statusWrite.Accepted?
    ensures var out := Step(server, base, storage, e);
            && out.answer == Answer(e.period.value, None)
            && out.deleted == AfterCleanup(o.status.release.value.manifest, e.cleanup).deleted
            && exists s :: Stores(out.server, o.(status := s)) && SaysGone(o, e, s)
  {
    UninstalledSays(o, e);
    assert Stores(Step(server, base, storage, e).server, o.(status := UninstalledStatus(o, e)));
  }

  ghost predicate IsOther(finalizer: string) {
    finalizer != "helm.sdk.operatorframework.io/uninstall-release" && finalizer != "uninstall-helm-release"
  }

  /** The call that takes the finalizer off keeps every other finalizer, and the server drops the resource
      exactly if there is none; it answers once the deletion was seen. */
  lemma DetachStores(server: Server, base: nat, o: CustomResource, storage: seq<Record>, e: Events)
    requires base < |server.versions| && IsGuarded(server) && server.versions[base] == Some(o)
    requires !IsGuarded(Step(server, base, storage, e).server)
    ensures var versions := Step(server, base, storage, e).server.versions;
            exists others :: && Picked(o.finalizers, IsOther, Same, others) && versions != []
                             && match versions[|versions| - 1]
                                case None => others == []
                                case Some(c) => others != [] && c.finalizers == others
    ensures Step(server, base, storage, e).answer == Answer(0, if e.objectWrite.Accepted? then e.deletionSeen
                                                               else Some(e.objectWrite.failure))
  {
    FinalizerRemovedIff(server, base, storage, e);
    var o' := o.(status := UninstalledStatus(o, e));
    FilterPicks(o.finalizers, IsOther);
    SameFilter(o.finalizers);
    assert o'.WithoutFinalizers().finalizers == Filter(o.finalizers, IsOther);
  }

  lemma {:induction false} SameFilter(finalizers: seq<string>)
    ensures Filter(finalizers, f => f != FINALIZER && f != FINALIZER_LEGACY) == Filter(finalizers, IsOther)
  {
    if finalizers != [] {
      SameFilter(finalizers[1..]);
    }
  }

  /** Cleaning up what must be waited for fails: the call answers with the failure and says so. */
  lemma CleanupFailureSays(server: Server, base: nat, o: CustomResource, storage: seq<Record>, e: Events, f: Failure)
    requires Works(server, base, o, e) && o.deleting && HasFinalizer(o) && !e.uninstall.UninstallFailed?
    requires WaitsForDeletion(o) && o.status.release.Some? && o.status.release.value.manifest != ""
    requires AfterCleanup(o.status.release.value.manifest, e.cleanup).allDeleted == Err(f)
    requires e.statusWrite.Accepted? && !e.lateStatusWrite.Refused?
    ensures var out := Step(server, base, storage, e);
            && out.answer == Answer(0, Some(f))
            && exists s :: Stores(out.server, o.(status := s)) && s.release == o.status.release
                           && Says(s, ReleaseFailed, True, UninstallError, f.message)
                           && Says(s, Deployed, False, UninstallSuccessful, "Waiting until all resources are deleted.")
  {
    UninstalledSays(o, e);
    var s, c := UninstalledStatus(o, e), Problem(ReleaseFailed, UninstallError, f);
    SetSays(s, c, e.later, Gone(WAITING));
    assert SaysThat(s.Set(c, e.later), c) && SaysThat(s.Set(c, e.later), Gone(WAITING));
    assert Stores(Step(server, base, storage, e).server, o.(status := s.Set(c, e.later)));
  }
}
