/** What the Helm reconciler keeps over whole runs, with stale reads, failed and unreported writes. */
module HelmRuns {
  import opened Slices
  import opened HelmStatus
  import opened HelmManager
  import opened HelmReconcile

  datatype World = World(server: Server, storage: seq<Record>)

  /** The resource exists and carries an uninstall finalizer. */
  predicate IsGuarded(server: Server) {
    && server.versions != []
    && server.versions[|server.versions| - 1].Some?
    && server.versions[|server.versions| - 1].value.Guarded()
  }

  /** A reconcile call that read version `base`, or anybody else changing the resource. */
  datatype Event = Call(base: nat, e: Events) | Change(o: Option<CustomResource>)

  function Apply(w: World, ev: Event): World
    requires ev.Call? ==> ev.base < |w.server.versions|
  {
    match ev
    case Change(o) => w.(server := w.server.(versions := w.server.versions + [o]))
    case Call(base, e) =>
      var out := Step(w.server, base, w.storage, e);
      World(out.server, out.storage)
  }

  ghost predicate HasDeployed(storage: seq<Record>) {
    exists r :: r in storage && IsDeployed(r)
  }

  /** Helm's part: "not found" means nothing is deployed, a failed uninstall or install deploys
      nothing, a successful install is recorded, and revisions have distinct versions. */
  ghost predicate HelmKeepsItsWord(storage: seq<Record>, e: Events) {
    && (e.uninstall.ReleaseNotFound? ==> !HasDeployed(storage))
    && (e.uninstall.UninstallFailed? ==>
          DistinctVersions(e.uninstall.after) && (HasDeployed(e.uninstall.after) ==> HasDeployed(storage)))
    && DistinctVersions(e.install.after) && (e.install.Installed? <==> HasDeployed(e.install.after))
    && DistinctVersions(e.upgrade.after) && (e.upgrade.UpgradeFailed? ==> DistinctVersions(e.upgrade.rolledBack))
  }

  /** Helm keeps its word in this event. */
  ghost predicate HelmHonest(w: World, ev: Event) {
    ev.Call? ==> HelmKeepsItsWord(w.storage, ev.e)
  }

  /** The others' part: nobody else takes the finalizer off, so the server keeps the object. */
  predicate LeavesFinalizer(w: World, ev: Event) {
    ev.Change? && IsGuarded(w.server) ==> ev.o.Some? && ev.o.value.Guarded()
  }

  /** A call reads a version there was at some time. */
  predicate Possible(w: World, ev: Event) {
    ev.Call? ==> ev.base < |w.server.versions|
  }

  // ----- Removing the finalizer -----

  /** The recorded manifest must be waited for. */
  predicate MustWait(o: CustomResource) {
    o.Waits() && o.status.release.Some? && o.status.release.value.manifest != ""
  }

  /** The calls that take the finalizer off. */
  ghost predicate Detaches(server: Server, base: nat, e: Events)
    requires base < |server.versions|
  {
    && e.get.None? && e.newManager.None? && e.period.Ok?
    && base + 1 == |server.versions| && server.versions[base].Some?
    && var o := server.versions[base].value;
    && o.deleting && o.Guarded()
    && !e.uninstall.UninstallFailed?
    && e.statusWrite.Accepted? && !e.objectWrite.Refused?
    && (MustWait(o) ==>
          && AfterCleanup(o.status.release.value.manifest, e.cleanup).allDeleted == Ok(true)
          && AllAbsent(Doomed(o.status.release.value.manifest, e.cleanup), e.cleanup))
  }

  lemma FinalizersGone(o: CustomResource)
    ensures !o.WithoutFinalizers().Guarded() && o.WithFinalizer().Guarded()
  {
    FilterMembers(o.finalizers, f => f != FINALIZER && f != FINALIZER_LEGACY, FINALIZER);
    FilterMembers(o.finalizers, f => f != FINALIZER && f != FINALIZER_LEGACY, FINALIZER_LEGACY);
  }

  lemma GuardedWrite(server: Server, base: nat, o: CustomResource, w: Write)
    requires IsGuarded(server) && (base + 1 == |server.versions| ==> o.Guarded())
    ensures IsGuarded(server.After(base, Some(o), w))
  {
  }

  lemma InstallKeepsFinalizer(server: Server, base: nat, o: CustomResource, s: Status, storage: seq<Record>, e: Events)
    requires IsGuarded(server) && (base + 1 == |server.versions| ==> o.Guarded()) && e.period.Ok?
    ensures IsGuarded(StepInstall(server, base, o, s, storage, e).server)
  {
    if e.install.InstallFailed? {
      var s' := s.Set(Problem(ReleaseFailed, InstallError, e.install.failure), e.later);
      GuardedWrite(server, base, o.(status := s'), e.statusWrite);
    } else {
      var s' := InstalledStatus(s, InstallSuccessful, e.install.record, e);
      FinalizersGone(o);
      GuardedWrite(server, base, o.WithFinalizer(), e.objectWrite);
      GuardedWrite(server.After(base, Some(o.WithFinalizer()), e.objectWrite), base + 1,
                   o.WithFinalizer().(status := s'), e.statusWrite);
    }
  }

  lemma InstalledKeepsFinalizer(server: Server, base: nat, seen: CustomResource, o: CustomResource, s: Status,
                                synced: Synced, e: Events)
    requires IsGuarded(server) && (base + 1 == |server.versions| ==> o.Guarded())
    requires e.period.Ok? && synced.release.Some?
    ensures IsGuarded(StepInstalled(server, base, seen, o, s, synced, e).server)
  {
    forall s' ensures IsGuarded(server.After(base, Some(o.(status := s')), e.statusWrite)) {
      GuardedWrite(server, base, o.(status := s'), e.statusWrite);
    }
  }

  lemma LiveKeepsFinalizer(server: Server, base: nat, o: CustomResource, storage: seq<Record>, e: Events)
    requires IsGuarded(server) && (base + 1 == |server.versions| ==> o.Guarded()) && e.period.Ok?
    ensures IsGuarded(StepLive(server, base, o, storage, e).server)
  {
    var s := o.status.Set(Started(), e.now).Remove(Irreconcilable);
    var synced := AfterSync(storage, e.sync);
    FinalizersGone(o);
    GuardedWrite(server, base, o.WithFinalizer(), e.objectWrite);
    if synced.failure.None? && synced.release.None? {
      InstallKeepsFinalizer(server, base, o, s, synced.storage, e);
    } else if synced.failure.None? && o.Guarded() {
      InstalledKeepsFinalizer(server, base, o, o, s, synced, e);
    }
  }

  lemma DeletingRemovesIff(server: Server, base: nat, o: CustomResource, storage: seq<Record>, e: Events)
    requires IsGuarded(server) && base < |server.versions| && server.versions[base] == Some(o)
    requires e.period.Ok? && o.Guarded() && !e.uninstall.UninstallFailed?
    ensures !IsGuarded(StepUninstalled(server, base, o, storage, e).server) <==>
            && base + 1 == |server.versions| && e.statusWrite.Accepted? && !e.objectWrite.Refused?
            && (MustWait(o) ==> AfterCleanup(o.status.release.value.manifest, e.cleanup).allDeleted == Ok(true))
  {
    var o' := o.(status := UninstalledStatus(o, e));
    FinalizersGone(o');
    GuardedWrite(server, base, o', e.statusWrite);
  }

  /** A call takes the finalizer off exactly when the release was uninstalled or not there
      and, if there is something to wait for, all of it was looked for and found absent. */
  lemma FinalizerRemovedIff(server: Server, base: nat, storage: seq<Record>, e: Events)
    requires base < |server.versions| && IsGuarded(server)
    ensures !IsGuarded(Step(server, base, storage, e).server) <==> Detaches(server, base, e)
  {
    if server.versions[base].Some? && e.period.Ok? {
      var o := server.versions[base].value;
      if !o.deleting {
        LiveKeepsFinalizer(server, base, o, storage, e);
      } else if o.Guarded() && e.uninstall.UninstallFailed? {
        var s := o.status.Set(Problem(ReleaseFailed, UninstallError, e.uninstall.failure), e.now);
        GuardedWrite(server, base, o.(status := s), e.statusWrite);
      } else if o.Guarded() {
        DeletingRemovesIff(server, base, o, storage, e);
        DeletingRemovesIff(server, base, o, [], e);
      }
      if o.status.release.Some? {
        AllDeletedIff(o.status.release.value.manifest, e.cleanup);
      }
    }
  }

  /** Whatever a call deletes belongs to the recorded release, through a manifest without resource policy,
      and the call that deletes keeps the finalizer. */
  lemma DeletedByCall(server: Server, base: nat, storage: seq<Record>, e: Events, x: Resource)
    requires base < |server.versions| && x in Step(server, base, storage, e).deleted
    ensures server.versions[base].Some? && MustWait(server.versions[base].value)
    ensures !Detaches(server, base, e)
    ensures var files := e.cleanup.parse(server.versions[base].value.status.release.value.manifest);
            files.Ok? && exists m :: m in files.value && !HasPolicy(m) && !IsKept(m) && x in e.cleanup.objects(m)
  {
    var manifest := server.versions[base].value.status.release.value.manifest;
    KeptAreNotDeleted(manifest, e.cleanup, x);
    LookFromIff(Doomed(manifest, e.cleanup), e.cleanup, 0);
  }

  // ----- Whole runs -----

  /** The world before the first event and after each; nothing is assumed of Helm or of the others. */
  ghost predicate IsRun(worlds: seq<World>, events: seq<Event>) {
    && |worlds| == |events| + 1
    && forall i :: 0 <= i < |events| ==> Possible(worlds[i], events[i]) && worlds[i + 1] == Apply(worlds[i], events[i])
  }

  /** In every run the finalizer goes only when somebody else takes it off, or in a call that may. */
  lemma FinalizerSafety(worlds: seq<World>, events: seq<Event>, i: nat)
    requires IsRun(worlds, events) && i < |events|
    requires IsGuarded(worlds[i].server) && !IsGuarded(worlds[i + 1].server)
    ensures Possible(worlds[i], events[i])
    ensures LeavesFinalizer(worlds[i], events[i]) ==>
              events[i].Call? && Detaches(worlds[i].server, events[i].base, events[i].e)
  {
    assert Possible(worlds[i], events[i]) && worlds[i + 1] == Apply(worlds[i], events[i]);
    if events[i].Call? {
      FinalizerRemovedIff(worlds[i].server, events[i].base, worlds[i].storage, events[i].e);
    }
  }

  // ----- Waiting for what was recorded -----

  /** The resource is gone or has a release recorded. */
  predicate HasRecord(server: Server) {
    && server.versions != []
    && var current := server.versions[|server.versions| - 1];
    && (current.Some? ==> current.value.status.release.Some?)
  }

  lemma RecordedWrite(server: Server, base: nat, o: Option<CustomResource>, w: Write)
    requires HasRecord(server) && (o.Some? && base + 1 == |server.versions| ==> o.value.status.release.Some?)
    ensures HasRecord(server.After(base, o, w))
  {
  }

  lemma InstalledKeepsRecord(server: Server, base: nat, seen: CustomResource, o: CustomResource, s: Status,
                             synced: Synced, e: Events)
    requires HasRecord(server) && (base + 1 == |server.versions| ==> s.release.Some?)
    requires e.period.Ok? && synced.release.Some?
    ensures HasRecord(StepInstalled(server, base, seen, o, s, synced, e).server)
  {
    forall s': Status | base + 1 == |server.versions| ==> s'.release.Some?
      ensures HasRecord(server.After(base, Some(o.(status := s')), e.statusWrite))
    {
      RecordedWrite(server, base, Some(o.(status := s')), e.statusWrite);
    }
  }

  lemma InstallKeepsRecord(server: Server, base: nat, o: CustomResource, s: Status, storage: seq<Record>, e: Events)
    requires HasRecord(server) && e.period.Ok?
    requires base + 1 == |server.versions| ==> o.status.release.Some? && s.release.Some?
    ensures HasRecord(StepInstall(server, base, o, s, storage, e).server)
  {
    RecordedWrite(server, base, Some(o.WithFinalizer()), e.objectWrite);
  }

  lemma LiveKeepsRecord(server: Server, base: nat, o: CustomResource, storage: seq<Record>, e: Events)
    requires HasRecord(server) && (base + 1 == |server.versions| ==> o.status.release.Some?) && e.period.Ok?
    ensures HasRecord(StepLive(server, base, o, storage, e).server)
  {
    var s := o.status.Set(Started(), e.now).Remove(Irreconcilable);
    var synced := AfterSync(storage, e.sync);
    var server' := server.After(base, Some(o.WithFinalizer()), e.objectWrite);
    RecordedWrite(server, base, Some(o.WithFinalizer()), e.objectWrite);
    if synced.release.None? {
      InstallKeepsRecord(server, base, o, s, synced.storage, e);
    } else if o.Guarded() {
      InstalledKeepsRecord(server, base, o, o, s, synced, e);
    } else if server.Problem(base, e.objectWrite).None? {
      InstalledKeepsRecord(server', base + 1, o, o.WithFinalizer(), s, synced, e);
    }
  }

  lemma UninstalledKeepsRecord(server: Server, base: nat, o: CustomResource, storage: seq<Record>, e: Events)
    requires HasRecord(server) && (base + 1 == |server.versions| ==> o.status.release.Some?) && e.period.Ok?
    requires o.Waits() || !e.uninstall.Uninstalled?
    ensures HasRecord(StepUninstalled(server, base, o, storage, e).server)
  {
    var o' := o.(status := UninstalledStatus(o, e));
    RecordedWrite(server, base, Some(o'), e.statusWrite);
    if server.Problem(base, e.statusWrite).None? {
      RecordedWrite(server.After(base, Some(o'), e.statusWrite), base + 1, Stored(o'.WithoutFinalizers()),
                    e.objectWrite);
    }
  }

  /** The calls that lose the recorded release: they uninstall without waiting and write that down, and the
      object is still stored afterwards. */
  ghost predicate LosesRecord(server: Server, base: nat, e: Events)
    requires base < |server.versions|
  {
    && e.get.None? && e.newManager.None? && e.period.Ok?
    && base + 1 == |server.versions| && server.versions[base].Some?
    && var o := server.versions[base].value;
    && o.deleting && o.Guarded() && !o.Waits() && e.uninstall.Uninstalled? && !e.statusWrite.Refused?
    && (e.statusWrite.Unreported? || e.objectWrite.Refused? || Stored(o.WithoutFinalizers()).Some?)
  }

  /** A call loses the recorded release of a resource exactly then. */
  lemma RecordLostIff(server: Server, base: nat, storage: seq<Record>, e: Events)
    requires base < |server.versions| && HasRecord(server)
    ensures !HasRecord(Step(server, base, storage, e).server) <==> LosesRecord(server, base, e)
  {
    if server.versions[base].Some? && e.period.Ok? {
      var o := server.versions[base].value;
      if !o.deleting {
        LiveKeepsRecord(server, base, o, storage, e);
      } else if o.Waits() || !e.uninstall.Uninstalled? {
        UninstalledKeepsRecord(server, base, o, storage, e);
        UninstalledKeepsRecord(server, base, o, [], e);
      } else {
        UninstalledLosesIff(server, base, o, e);
      }
    }
  }

  lemma UninstalledLosesIff(server: Server, base: nat, o: CustomResource, e: Events)
    requires HasRecord(server) && base < |server.versions| && server.versions[base] == Some(o)
    requires e.period.Ok? && o.deleting && !o.Waits() && e.uninstall.Uninstalled?
    ensures !HasRecord(StepUninstalled(server, base, o, [], e).server) <==>
            && base + 1 == |server.versions| && !e.statusWrite.Refused?
            && (e.statusWrite.Unreported? || e.objectWrite.Refused? || Stored(o.WithoutFinalizers()).Some?)
  {
    var o' := o.(status := UninstalledStatus(o, e));
    assert o'.WithoutFinalizers().finalizers == o.WithoutFinalizers().finalizers;
  }

  /** A release is recorded and, unless its manifest is empty, all its resources were looked for and found absent. */
  ghost predicate WaitedFor(server: Server, replies: CleanupReplies) {
    && IsGuarded(server)
    && var release := server.versions[|server.versions| - 1].value.status.release;
    && release.Some?
    && (release.value.manifest != "" ==> AllAbsent(Doomed(release.value.manifest, replies), replies))
  }

  ghost predicate AllWait(server: Server) {
    forall i :: 0 <= i < |server.versions| && server.versions[i].Some? ==> server.versions[i].value.Waits()
  }

  lemma {:induction false} RecordKept(worlds: seq<World>, events: seq<Event>, n: nat)
    requires IsRun(worlds, events) && n < |worlds| && HasRecord(worlds[0].server)
    requires forall i :: 0 <= i < n ==> AllWait(worlds[i].server)
    requires forall i :: 0 <= i < n && events[i].Change? && events[i].o.Some? ==> events[i].o.value.status.release.Some?
    ensures HasRecord(worlds[n].server)
  {
    if n > 0 {
      RecordKept(worlds, events, n - 1);
      var w, ev := worlds[n - 1], events[n - 1];
      assert Possible(w, ev) && worlds[n] == Apply(w, ev) && AllWait(w.server);
      if ev.Call? && !HasRecord(worlds[n].server) {
        RecordLostIff(w.server, ev.base, w.storage, ev.e);
      }
    }
  }

  /** In a run that waits throughout, whatever the failures on the way, the finalizer goes only when every
      resource of the release recorded last was looked for and found absent, unless its manifest is empty. */
  lemma WaitedForRecorded(worlds: seq<World>, events: seq<Event>, i: nat)
    requires IsRun(worlds, events) && i < |events| && HasRecord(worlds[0].server)
    requires forall k :: 0 <= k <= i ==> AllWait(worlds[k].server)
    requires forall k :: 0 <= k < i && events[k].Change? && events[k].o.Some? ==> events[k].o.value.status.release.Some?
    requires IsGuarded(worlds[i].server) && !IsGuarded(worlds[i + 1].server) && LeavesFinalizer(worlds[i], events[i])
    ensures events[i].Call?
    ensures WaitedFor(worlds[i].server, events[i].e.cleanup)
  {
    RecordKept(worlds, events, i);
    FinalizerSafety(worlds, events, i);
    assert AllWait(worlds[i].server);
    DetachWaited(worlds[i].server, events[i].base, events[i].e);
  }

  lemma DetachWaited(server: Server, base: nat, e: Events)
    requires base < |server.versions| && Detaches(server, base, e) && HasRecord(server) && AllWait(server)
    ensures WaitedFor(server, e.cleanup)
  {
    assert MustWait(server.versions[base].value) <==> server.versions[base].value.status.release.value.manifest != "";
  }

  // ----- No orphaned releases -----

  /** A deployed release belongs to a resource that cannot go without it. */
  ghost predicate OrphanFree(w: World) {
    DistinctVersions(w.storage) && (HasDeployed(w.storage) ==> IsGuarded(w.server))
  }

  /** The call installs the release, but the write of the finalizer that follows has no effect. */
  ghost predicate LosesFinalizer(w: World, base: nat, e: Events)
    requires base < |w.server.versions|
  {
    && e.get.None? && w.server.versions[base].Some? && e.newManager.None? && e.period.Ok?
    && !w.server.versions[base].value.deleting
    && AfterSync(w.storage, e.sync).failure.None? && AfterSync(w.storage, e.sync).release.None?
    && e.install.Installed?
    && (base + 1 != |w.server.versions| || e.objectWrite.Refused?)
  }

  lemma SyncKeepsDeployed(storage: seq<Record>, replies: SyncReplies)
    requires DistinctVersions(storage)
    ensures DistinctVersions(AfterSync(storage, replies).storage)
    ensures HasDeployed(AfterSync(storage, replies).storage) <==> HasDeployed(storage)
    ensures AfterSync(storage, replies).failure.None? ==>
              (AfterSync(storage, replies).release.Some? <==> HasDeployed(storage))
  {
    var after := AfterSync(storage, replies);
    SyncSweeps(storage, replies);
    assert forall r :: IsDeployed(r) ==> !IsStale(r);
    if after.failure.None? {
      SyncLoadsLatest(storage, replies);
    }
  }

  lemma InstallGuardsIff(server: Server, base: nat, o: CustomResource, s: Status, storage: seq<Record>, e: Events)
    requires base < |server.versions| && e.period.Ok? && e.install.Installed?
    ensures IsGuarded(StepInstall(server, base, o, s, storage, e).server) <==>
            (base + 1 == |server.versions| && !e.objectWrite.Refused?) || IsGuarded(server)
  {
    FinalizersGone(o);
    var server' := server.After(base, Some(o.WithFinalizer()), e.objectWrite);
    if base + 1 == |server.versions| && !e.objectWrite.Refused? {
      var s' := InstalledStatus(s, InstallSuccessful, e.install.record, e);
      GuardedWrite(server', base + 1, o.WithFinalizer().(status := s'), e.statusWrite);
    }
  }

  lemma InstallOrphansIff(server: Server, base: nat, o: CustomResource, s: Status, storage: seq<Record>, e: Events)
    requires base < |server.versions| && e.period.Ok? && HelmKeepsItsWord(storage, e)
    ensures var out := StepInstall(server, base, o, s, storage, e);
            OrphanFree(World(out.server, out.storage)) <==>
            IsGuarded(server) || !e.install.Installed? || (base + 1 == |server.versions| && !e.objectWrite.Refused?)
  {
    if e.install.Installed? {
      InstallGuardsIff(server, base, o, s, storage, e);
    }
  }

  lemma LiveOrphansIff(server: Server, base: nat, o: CustomResource, storage: seq<Record>, e: Events)
    requires OrphanFree(World(server, storage)) && HelmKeepsItsWord(storage, e)
    requires base < |server.versions| && server.versions[base] == Some(o)
    requires e.get.None? && e.newManager.None? && e.period.Ok? && !o.deleting
    ensures var out := StepLive(server, base, o, storage, e);
            OrphanFree(World(out.server, out.storage)) <==>
            IsGuarded(server) || !LosesFinalizer(World(server, storage), base, e)
  {
    var s := o.status.Set(Started(), e.now).Remove(Irreconcilable);
    var synced := AfterSync(storage, e.sync);
    SyncKeepsDeployed(storage, e.sync);
    if synced.failure.None? && synced.release.None? {
      InstallOrphansIff(server, base, o, s, synced.storage, e);
    } else if HasDeployed(storage) {
      LiveKeepsFinalizer(server, base, o, storage, e);
    }
  }

  /** A call from a world without orphans leaves one exactly when it loses the finalizer of the
      release it installs, on a resource that had none. */
  lemma OrphansIff(w: World, base: nat, e: Events)
    requires OrphanFree(w) && base < |w.server.versions| && HelmKeepsItsWord(w.storage, e)
    ensures OrphanFree(Apply(w, Call(base, e))) <==> IsGuarded(w.server) || !LosesFinalizer(w, base, e)
  {
    if e.get.None? && w.server.versions[base].Some? && e.newManager.None? && e.period.Ok? {
      var o := w.server.versions[base].value;
      if !o.deleting {
        LiveOrphansIff(w.server, base, o, w.storage, e);
      } else if HasDeployed(w.storage) && e.uninstall.UninstallFailed? {
        FinalizerRemovedIff(w.server, base, w.storage, e);
      }
    }
  }

  /** While Helm keeps its word and the others leave the finalizer, a run without such a call reaches no deployed
      release whose resource is gone or lacks the finalizer. */
  lemma {:induction false} NoOrphans(worlds: seq<World>, events: seq<Event>, n: nat)
    requires IsRun(worlds, events) && OrphanFree(worlds[0]) && n < |worlds|
    requires forall i :: 0 <= i < n ==> HelmHonest(worlds[i], events[i]) && LeavesFinalizer(worlds[i], events[i])
    requires forall i :: 0 <= i < n && events[i].Call? && events[i].base < |worlds[i].server.versions| ==>
               IsGuarded(worlds[i].server) || !LosesFinalizer(worlds[i], events[i].base, events[i].e)
    ensures OrphanFree(worlds[n])
  {
    if n > 0 {
      NoOrphans(worlds, events, n - 1);
      var w, ev := worlds[n - 1], events[n - 1];
      assert Possible(w, ev) && worlds[n] == Apply(w, ev);
      if ev.Call? {
        OrphansIff(w, ev.base, ev.e);
      }
    }
  }

  // ----- A run that ends with an orphan -----

  function FreshWorld(): World {
    World(Server([Some(CustomResource(false, [], map[], Status([], None)))], 0), [])
  }

  function FirstRevision(): Record {
    Record("app", 1, Some(Info(DeployedPhase, "")), "kind: Service")
  }

  /** Everything succeeds except the write of the finalizer. */
  function UnluckyCall(): Events {
    Events(None, None, Ok(60), Uninstalled,
           CleanupReplies(None, Known, (m: string) => Ok([]), (m: Manifest) => [], None, (i: nat) => Absent, None),
             None,
           SyncReplies(Missing, (r: Record) => None, None, Ok("kind: Service")),
           Installed(FirstRevision(), [FirstRevision()]), Upgraded(FirstRevision(), [FirstRevision()]),
           None, None, Refused(Failure("timeout")), Accepted, Accepted, 1, 2)
  }

  /** The release is installed, the finalizer is not written, the user deletes the resource: it is
      gone at once and the release stays deployed. */
  lemma OrphanedRelease()
    ensures var w0, call := FreshWorld(), Call(0, UnluckyCall());
            var w1 := Apply(w0, call);
            var w2 := Apply(w1, Change(None));
            && OrphanFree(w0) && HelmHonest(w0, call) && Possible(w0, call) && LeavesFinalizer(w1, Change(None))
            && w2.server.versions[|w2.server.versions| - 1].None? && HasDeployed(w2.storage)
  {
    var w0, e := FreshWorld(), UnluckyCall();
    assert FirstRevision() in e.install.after;
    var out := Step(w0.server, 0, w0.storage, e);
    assert AfterSync([], e.sync) == Synced([], None, false, None);
    assert out.storage == [FirstRevision()] && out.server.versions == w0.server.versions;
    assert FirstRevision() in out.storage;
  }

  // ----- Calls without error -----

  /** A status that says the record is deployed and nothing is wrong. */
  ghost predicate Clean(s: Status, reason: Reason, record: Record) {
    && OneOfEach(s.conditions)
    && Shows(s.conditions, Started())
    && Shows(s.conditions, Running(reason, record))
    && Lookup(s.conditions, ReleaseFailed).None?
    && Lookup(s.conditions, Irreconcilable).None?
    && s.release == ReleaseOf(record)
  }

  /** The condition is there, whenever it was set. */
  ghost predicate Shows(cs: seq<Condition>, c: Condition) {
    Lookup(cs, c.kind).Some? && Lookup(cs, c.kind).value == c.(transition := Lookup(cs, c.kind).value.transition)
  }

  lemma SetShows(cs: seq<Condition>, c: Condition, now: int, d: Condition)
    ensures Shows(WithCondition(cs, c, now), c)
    ensures d.kind != c.kind && Shows(cs, d) ==> Shows(WithCondition(cs, c, now), d)
    ensures OneOfEach(cs) ==> OneOfEach(WithCondition(cs, c, now))
  {
    LookupAfterSet(cs, c, now, c.kind);
    LookupAfterSet(cs, c, now, d.kind);
  }

  lemma RemoveShows(cs: seq<Condition>, kind: ConditionKind, d: Condition)
    requires OneOfEach(cs)
    ensures d.kind != kind && Shows(cs, d) ==> Shows(WithoutCondition(cs, kind), d)
    ensures Lookup(WithoutCondition(cs, kind), kind).None? && OneOfEach(WithoutCondition(cs, kind))
  {
    LookupAfterRemove(cs, kind, d.kind);
    LookupAfterRemove(cs, kind, kind);
  }

  /** The release the call works towards. */
  function Goal(storage: seq<Record>, e: Events): Option<Record> {
    var synced := AfterSync(storage, e.sync);
    if synced.release.None? then (if e.install.Installed? then Some(e.install.record) else None)
    else if synced.upgrade then (if e.upgrade.Upgraded? then Some(e.upgrade.record) else None)
    else synced.release
  }

  function GoalReason(storage: seq<Record>, e: Events): Reason {
    var synced := AfterSync(storage, e.sync);
    if synced.release.None? then InstallSuccessful
    else if synced.upgrade then UpgradeSuccessful
    else if synced.release.value.version == 1 then InstallSuccessful else UpgradeSuccessful
  }

  lemma EndsClean(s: Status, reason: Reason, record: Record, e: Events)
    requires OneOfEach(s.conditions)
    ensures Clean(InstalledStatus(s.Set(Started(), e.now).Remove(Irreconcilable), reason, record, e), reason, record)
  {
    var started := s.Set(Started(), e.now);
    var cs := started.Remove(Irreconcilable).conditions;
    SetShows(s.conditions, Started(), e.now, Started());
    RemoveShows(started.conditions, Irreconcilable, Started());
    RemoveShows(cs, ReleaseFailed, Started());
    LookupAfterRemove(cs, ReleaseFailed, Irreconcilable);
    var cs' := WithoutCondition(cs, ReleaseFailed);
    SetShows(cs', Running(reason, record), e.later, Started());
    LookupAfterSet(cs', Running(reason, record), e.later, ReleaseFailed);
    LookupAfterSet(cs', Running(reason, record), e.later, Irreconcilable);
  }

  lemma KeepIsInstalled(s: Status, o: CustomResource, record: Record, e: Events)
    requires OneOfEach(o.status.conditions) && s == o.status.Set(Started(), e.now).Remove(Irreconcilable)
    ensures s.Remove(ReleaseFailed).Remove(Irreconcilable)
            .Set(Running(ReasonFor(record), record), e.later).(release := ReleaseOf(record))
         == InstalledStatus(s, ReasonFor(record), record, e)
  {
    var started := o.status.Set(Started(), e.now);
    SetShows(o.status.conditions, Started(), e.now, Started());
    RemoveShows(started.conditions, Irreconcilable, Started());
    LookupAfterRemove(s.conditions, ReleaseFailed, Irreconcilable);
    RemoveIsQuiet(s.Remove(ReleaseFailed).conditions, Irreconcilable);
  }

  lemma InstalledEndsClean(server: Server, base: nat, seen: CustomResource, o: CustomResource, s: Status,
                           synced: Synced, e: Events)
    requires base + 1 == |server.versions| && e.period.Ok? && synced.release.Some?
    requires OneOfEach(seen.status.conditions) && s == seen.status.Set(Started(), e.now).Remove(Irreconcilable)
    requires o.Guarded() && o.status == seen.status && server.versions[base] == Some(o)
    requires StepInstalled(server, base, seen, o, s, synced, e).answer.failure.None?
    ensures var versions := StepInstalled(server, base, seen, o, s, synced, e).server.versions;
            && (synced.upgrade ==> e.upgrade.Upgraded?)
            && var r := if synced.upgrade then e.upgrade.record else synced.release.value;
            && var reason := if synced.upgrade then UpgradeSuccessful else ReasonFor(r);
            && versions != [] && versions[|versions| - 1] == Some(o.(status := InstalledStatus(s, reason, r, e)))
  {
    if !synced.upgrade {
      KeepIsInstalled(s, seen, synced.release.value, e);
    }
  }

  /** What an error-free call on the live resource leaves: guarded, clean, with the release recorded. */
  ghost predicate EndsGuardedAndClean(server: Server, o: CustomResource, reason: Reason, record: Record) {
    && IsGuarded(server)
    && var c := server.versions[|server.versions| - 1].value;
    && !c.deleting && c.annotations == o.annotations && Clean(c.status, reason, record)
  }

  lemma GuardedAndClean(server: Server, o: CustomResource, c: CustomResource, reason: Reason, record: Record, e: Events)
    requires server.versions != [] && server.versions[|server.versions| - 1] == Some(c)
    requires c.Guarded() && !c.deleting && c.annotations == o.annotations && OneOfEach(o.status.conditions)
    requires c.status == InstalledStatus(o.status.Set(Started(), e.now).Remove(Irreconcilable), reason, record, e)
    ensures EndsGuardedAndClean(server, o, reason, record)
  {
    EndsClean(o.status, reason, record, e);
  }

  /** An error-free call on the current version of a live resource reached its goal and says so. */
  lemma ErrorFreeIsClean(server: Server, base: nat, o: CustomResource, storage: seq<Record>, e: Events)
    requires base + 1 == |server.versions| && server.versions[base] == Some(o)
    requires !o.deleting && OneOfEach(o.status.conditions)
    requires Step(server, base, storage, e).answer.failure.None?
    ensures Goal(storage, e).Some?
    ensures EndsGuardedAndClean(Step(server, base, storage, e).server, o, GoalReason(storage, e),
                                Goal(storage, e).value)
  {
    if AfterSync(storage, e.sync).release.None? {
      InstallIsClean(server, base, o, storage, e);
    } else {
      InstalledIsClean(server, base, o, storage, e);
    }
  }

  lemma InstallIsClean(server: Server, base: nat, o: CustomResource, storage: seq<Record>, e: Events)
    requires base + 1 == |server.versions| && server.versions[base] == Some(o) && e.period.Ok?
    requires !o.deleting && OneOfEach(o.status.conditions) && AfterSync(storage, e.sync).release.None?
    requires StepLive(server, base, o, storage, e).answer.failure.None?
    ensures e.install.Installed?
    ensures EndsGuardedAndClean(StepLive(server, base, o, storage, e).server, o, InstallSuccessful, e.install.record)
  {
    var s := o.status.Set(Started(), e.now).Remove(Irreconcilable);
    FinalizersGone(o);
    var c := o.WithFinalizer().(status := InstalledStatus(s, InstallSuccessful, e.install.record, e));
    GuardedAndClean(StepLive(server, base, o, storage, e).server, o, c, InstallSuccessful, e.install.record, e);
  }

  lemma InstalledIsClean(server: Server, base: nat, o: CustomResource, storage: seq<Record>, e: Events)
    requires base + 1 == |server.versions| && server.versions[base] == Some(o) && e.period.Ok?
    requires !o.deleting && OneOfEach(o.status.conditions) && AfterSync(storage, e.sync).release.Some?
    requires StepLive(server, base, o, storage, e).answer.failure.None?
    ensures Goal(storage, e).Some?
    ensures EndsGuardedAndClean(StepLive(server, base, o, storage, e).server, o, GoalReason(storage, e),
                                Goal(storage, e).value)
  {
    var s := o.status.Set(Started(), e.now).Remove(Irreconcilable);
    var synced := AfterSync(storage, e.sync);
    if o.Guarded() {
      InstalledFrom(server, base, o, o, s, synced, e);
    } else {
      FinalizersGone(o);
      InstalledFrom(server.After(base, Some(o.WithFinalizer()), e.objectWrite), base + 1, o, o.WithFinalizer(), s,
                    synced, e);
    }
  }

  lemma InstalledFrom(server: Server, base: nat, seen: CustomResource, o: CustomResource, s: Status, synced: Synced,
                      e: Events)
    requires base + 1 == |server.versions| && e.period.Ok? && synced.release.Some?
    requires OneOfEach(seen.status.conditions) && s == seen.status.Set(Started(), e.now).Remove(Irreconcilable)
    requires o.Guarded() && o.status == seen.status && server.versions[base] == Some(o)
    requires !o.deleting && o.annotations == seen.annotations
    requires StepInstalled(server, base, seen, o, s, synced, e).answer.failure.None?
    ensures synced.upgrade ==> e.upgrade.Upgraded?
    ensures var r := if synced.upgrade then e.upgrade.record else synced.release.value;
            var reason := if synced.upgrade then UpgradeSuccessful else ReasonFor(r);
            EndsGuardedAndClean(StepInstalled(server, base, seen, o, s, synced, e).server, seen, reason, r)
  {
    InstalledEndsClean(server, base, seen, o, s, synced, e);
    var r := if synced.upgrade then e.upgrade.record else synced.release.value;
    var reason := if synced.upgrade then UpgradeSuccessful else ReasonFor(r);
    GuardedAndClean(StepInstalled(server, base, seen, o, s, synced, e).server, seen,
                    o.(status := InstalledStatus(s, reason, r, e)), reason, r, e);
  }

  /** The call finds the release installed, up to date and healthy. */
  predicate NothingToDo(storage: seq<Record>, e: Events) {
    && e.get.None? && e.newManager.None? && e.period.Ok? && e.reconcile.None? && e.hook.None?
    && var synced := AfterSync(storage, e.sync);
    && synced.failure.None? && synced.release.Some? && !synced.upgrade
  }

  /** Such a call on a guarded resource leaves the server alone, without even trying to write,
      exactly when the status is clean already. */
  lemma QuietIff(server: Server, base: nat, o: CustomResource, storage: seq<Record>, e: Events)
    requires base < |server.versions| && server.versions[base] == Some(o)
    requires !o.deleting && o.Guarded() && OneOfEach(o.status.conditions) && NothingToDo(storage, e)
    ensures var r := AfterSync(storage, e.sync).release.value;
            Step(server, base, storage, e).server == server <==> Clean(o.status, ReasonFor(r), r)
  {
    var r := AfterSync(storage, e.sync).release.value;
    var started := o.status.Set(Started(), e.now);
    var s := started.Remove(Irreconcilable);
    KeepIsInstalled(s, o, r, e);
    EndsClean(o.status, ReasonFor(r), r, e);
    if Clean(o.status, ReasonFor(r), r) {
      SetIsQuiet(o.status.conditions, Started(), e.now);
      RemoveIsQuiet(o.status.conditions, Irreconcilable);
      RemoveIsQuiet(o.status.conditions, ReleaseFailed);
      SetIsQuiet(o.status.conditions, Running(ReasonFor(r), r), e.later);
      assert InstalledStatus(s, ReasonFor(r), r, e) == o.status;
    }
  }

  /** After an error-free call, a further one that finds nothing to do writes nothing, exactly when
      the release's version tells an install from an upgrade the way the first call did. */
  lemma Quiescence(server: Server, base: nat, o: CustomResource, storage: seq<Record>, e: Events, e': Events)
    requires base + 1 == |server.versions| && server.versions[base] == Some(o)
    requires !o.deleting && OneOfEach(o.status.conditions)
    requires Step(server, base, storage, e).answer.failure.None?
    requires var out := Step(server, base, storage, e);
             NothingToDo(out.storage, e') && AfterSync(out.storage, e'.sync).release == Goal(storage, e)
    ensures var out := Step(server, base, storage, e);
            && out.server.versions != []
            && (Step(out.server, |out.server.versions| - 1, out.storage, e').server == out.server <==>
                GoalReason(storage, e) == ReasonFor(Goal(storage, e).value))
  {
    ErrorFreeIsClean(server, base, o, storage, e);
    var out := Step(server, base, storage, e);
    NextCallQuietIff(out.server, o, out.storage, e', GoalReason(storage, e), Goal(storage, e).value);
  }

  lemma NextCallQuietIff(server: Server, o: CustomResource, storage: seq<Record>, e: Events, reason: Reason,
                         record: Record)
    requires EndsGuardedAndClean(server, o, reason, record)
    requires NothingToDo(storage, e) && AfterSync(storage, e.sync).release == Some(record)
    ensures Step(server, |server.versions| - 1, storage, e).server == server <==> reason == ReasonFor(record)
  {
    var last := |server.versions| - 1;
    QuietIff(server, last, server.versions[last].value, storage, e);
  }

  // ----- One condition of each kind -----

  ghost predicate One(s: Status) {
    OneOfEach(s.conditions)
  }

  /** In every version the resource has had. */
  ghost predicate AllUnique(server: Server) {
    forall i :: 0 <= i < |server.versions| && server.versions[i].Some? ==> One(server.versions[i].value.status)
  }

  lemma UpdatesKeepOne()
    ensures forall s: Status, c, now :: One(s) ==> One(s.Set(c, now))
    ensures forall s: Status, kind :: One(s) ==> One(s.Remove(kind))
    ensures forall s: Status, reason, r, e :: One(s) ==> One(InstalledStatus(s, reason, r, e))
  {
    forall s: Status, c: Condition, now | One(s)
      ensures One(s.Set(c, now))
    {
      LookupAfterSet(s.conditions, c, now, c.kind);
    }
    forall s: Status, kind | One(s)
      ensures One(s.Remove(kind))
    {
      LookupAfterRemove(s.conditions, kind, kind);
    }
    forall s: Status, reason, r, e | One(s)
      ensures One(InstalledStatus(s, reason, r, e))
    {
      assert One(s.Remove(ReleaseFailed).Set(Running(reason, r), e.later));
    }
  }

  lemma InstalledKeepsUnique(server: Server, base: nat, seen: CustomResource, o: CustomResource, s: Status,
                             synced: Synced, e: Events)
    requires AllUnique(server) && One(s) && e.period.Ok? && synced.release.Some?
    ensures AllUnique(StepInstalled(server, base, seen, o, s, synced, e).server)
  {
    UpdatesKeepOne();
  }

  lemma WriteKeepsUnique(server: Server, base: nat, o: Option<CustomResource>, w: Write)
    requires AllUnique(server) && (o.Some? ==> One(o.value.status))
    ensures AllUnique(server.After(base, o, w))
  {
  }

  lemma LiveKeepsUnique(server: Server, base: nat, o: CustomResource, storage: seq<Record>, e: Events)
    requires AllUnique(server) && One(o.status) && e.period.Ok?
    ensures AllUnique(StepLive(server, base, o, storage, e).server)
  {
    UpdatesKeepOne();
    var s := o.status.Set(Started(), e.now);
    var synced := AfterSync(storage, e.sync);
    var server' := server.After(base, Some(o.WithFinalizer()), e.objectWrite);
    WriteKeepsUnique(server, base, Some(o.WithFinalizer()), e.objectWrite);
    if synced.failure.Some? {
      var s' := s.Set(Problem(Irreconcilable, ReconcileError, synced.failure.value), e.later);
      WriteKeepsUnique(server, base, Some(o.(status := s')), e.statusWrite);
    } else if synced.release.None? {
      InstallKeepsUnique(server, base, o, s.Remove(Irreconcilable), synced.storage, e);
    } else if o.Guarded() {
      InstalledKeepsUnique(server, base, o, o, s.Remove(Irreconcilable), synced, e);
    } else {
      InstalledKeepsUnique(server', base + 1, o, o.WithFinalizer(), s.Remove(Irreconcilable), synced, e);
    }
  }

  lemma InstallKeepsUnique(server: Server, base: nat, o: CustomResource, s: Status, storage: seq<Record>, e: Events)
    requires AllUnique(server) && One(o.status) && One(s) && e.period.Ok?
    ensures AllUnique(StepInstall(server, base, o, s, storage, e).server)
  {
    UpdatesKeepOne();
    WriteKeepsUnique(server, base, Some(o.WithFinalizer()), e.objectWrite);
  }

  lemma DetachKeepsUnique(server: Server, base: nat, o: CustomResource, storage: seq<Record>, e: Events,
                          deleted: seq<Resource>)
    requires AllUnique(server) && One(o.status)
    ensures AllUnique(StepDetach(server, base, o, storage, e, deleted).server)
  {
    WriteKeepsUnique(server, base, Stored(o.WithoutFinalizers()), e.objectWrite);
  }

  lemma UninstalledKeepsUnique(server: Server, base: nat, o: CustomResource, storage: seq<Record>, e: Events)
    requires AllUnique(server) && One(o.status) && e.period.Ok?
    ensures AllUnique(StepUninstalled(server, base, o, storage, e).server)
  {
    UpdatesKeepOne();
    var s := UninstalledStatus(o, e);
    var o' := o.(status := s);
    assert One(s.Remove(ReleaseFailed));
    var server' := server.After(base, Some(o'), e.statusWrite);
    WriteKeepsUnique(server, base, Some(o'), e.statusWrite);
    if MustWait(o') {
      var cleaned := AfterCleanup(s.release.value.manifest, e.cleanup);
      DetachKeepsUnique(server', base + 1, o', storage, e, cleaned.deleted);
      if cleaned.allDeleted.Err? {
        var s' := s.Set(Problem(ReleaseFailed, UninstallError, cleaned.allDeleted.failure), e.later);
        WriteKeepsUnique(server', base + 1, Some(o'.(status := s')), e.lateStatusWrite);
      }
    } else {
      DetachKeepsUnique(server', base + 1, o', storage, e, []);
    }
  }

  lemma DeletingKeepsUnique(server: Server, base: nat, o: CustomResource, storage: seq<Record>, e: Events)
    requires AllUnique(server) && One(o.status) && e.period.Ok?
    ensures AllUnique(StepDeleting(server, base, o, storage, e).server)
  {
    UpdatesKeepOne();
    UninstalledKeepsUnique(server, base, o, storage, e);
    UninstalledKeepsUnique(server, base, o, [], e);
  }

  /** A call never writes two conditions of one kind. */
  lemma StepKeepsUnique(server: Server, base: nat, storage: seq<Record>, e: Events)
    requires base < |server.versions| && AllUnique(server)
    ensures AllUnique(Step(server, base, storage, e).server)
  {
    if server.versions[base].Some? && e.period.Ok? {
      LiveKeepsUnique(server, base, server.versions[base].value, storage, e);
      DeletingKeepsUnique(server, base, server.versions[base].value, storage, e);
    }
  }

  /** In every run the condition types stay unique, if nobody else breaks that. */
  lemma {:induction false} UniqueInEveryRun(worlds: seq<World>, events: seq<Event>, n: nat)
    requires IsRun(worlds, events) && AllUnique(worlds[0].server) && n < |worlds|
    requires forall i :: 0 <= i < n && events[i].Change? && events[i].o.Some? ==> One(events[i].o.value.status)
    ensures AllUnique(worlds[n].server)
  {
    if n > 0 {
      UniqueInEveryRun(worlds, events, n - 1);
      var w, ev := worlds[n - 1], events[n - 1];
      assert Possible(w, ev) && worlds[n] == Apply(w, ev);
      if ev.Call? {
        StepKeepsUnique(w.server, ev.base, w.storage, ev.e);
      }
    }
  }
}
