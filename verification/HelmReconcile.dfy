/** One call of the Helm reconciler (internal/helm/controller/reconcile.go). */
module HelmReconcile {
  import opened Slices
  import opened HelmStatus
  import opened HelmManager

  const FINALIZER := "helm.sdk.operatorframework.io/uninstall-release"
  const FINALIZER_LEGACY := "uninstall-helm-release"
  const WAIT_ANNOTATION := "helm.sdk.operatorframework.io/uninstall-wait"
  const WAITING := "Waiting until all resources are deleted."

  // ----- Custom resources and the API server -----

  datatype CustomResource =
    CustomResource(deleting: bool, finalizers: seq<string>, annotations: map<string, string>, status: Status)
  {
    predicate Guarded() {
      FINALIZER in finalizers || FINALIZER_LEGACY in finalizers
    }

    predicate Waits() {
      WAIT_ANNOTATION in annotations && ParsesTrue(annotations[WAIT_ANNOTATION])
    }

    function WithFinalizer(): CustomResource {
      if FINALIZER in finalizers then this else this.(finalizers := finalizers + [FINALIZER])
    }

    function WithoutFinalizers(): CustomResource {
      this.(finalizers := Filter(finalizers, f => f != FINALIZER && f != FINALIZER_LEGACY))
    }
  }

  /** strconv.ParseBool answers true. */
  predicate ParsesTrue(s: string) {
    s in ["1", "t", "T", "TRUE", "true", "True"]
  }

  /** What the server stores for an update: an object being deleted goes when its last finalizer does. */
  function Stored(o: CustomResource): Option<CustomResource> {
    if o.deleting && o.finalizers == [] then None else Some(o)
  }

  /** How a write to the server turns out; an unreported one took effect though the caller saw an error. */
  datatype Write = Accepted | Refused(failure: Failure) | Unreported(failure: Failure)

  /** Every version the resource has had, None where it does not exist, and the writes tried so far.
      The index of a version is the resource version a write must be based on. */
  datatype Server = Server(versions: seq<Option<CustomResource>>, attempts: nat) {
    function After(base: nat, o: Option<CustomResource>, w: Write): Server {
      if base + 1 == |versions| && !w.Refused? then Server(versions + [o], attempts + 1)
      else Server(versions, attempts + 1)
    }

    function Problem(base: nat, w: Write): Option<Failure> {
      if base + 1 != |versions| then Some(Failure("conflict"))
      else if w.Accepted? then None
      else Some(w.failure)
    }
  }

  class ApiServer {
    var state: Server

    constructor (state: Server)
      ensures this.state == state
    {
      this.state := state;
    }

    /** A successful write also tells the caller the new resource version. */
    method Update(base: nat, o: Option<CustomResource>, w: Write) returns (problem: Option<Failure>, version: nat)
      modifies this
      ensures state == old(state).After(base, o, w)
      ensures problem == old(state).Problem(base, w)
      ensures version == if problem.None? then base + 1 else base
    {
      version := base;
      problem := state.Problem(base, w);
      if base + 1 == |state.versions| && !w.Refused? {
        state := state.(versions := state.versions + [o]);
      }
      state := state.(attempts := state.attempts + 1);
      if problem.None? {
        version := base + 1;
      }
    }
  }

  // ----- What happens outside the reconciler during a call -----

  datatype Uninstall = Uninstalled | ReleaseNotFound | UninstallFailed(failure: Failure, after: seq<Record>)

  datatype Install = Installed(record: Record, after: seq<Record>) | InstallFailed(failure: Failure, after: seq<Record>)

  /** When a failed upgrade was recorded a rollback follows; `rolledBack` is the storage after that. */
  datatype Upgrade =
    | Upgraded(record: Record, after: seq<Record>)
    | UpgradeFailed(failure: Failure, recorded: bool, after: seq<Record>, rolledBack: seq<Record>)

  datatype Events = Events(
    get: Option<Failure>,
    newManager: Option<Failure>,
    period: Result<int>,
    uninstall: Uninstall,
    cleanup: CleanupReplies,
    deletionSeen: Option<Failure>,
    sync: SyncReplies,
    install: Install,
    upgrade: Upgrade,
    reconcile: Option<Failure>,
    hook: Option<Failure>,
    objectWrite: Write,
    statusWrite: Write,
    lateStatusWrite: Write,
    now: int,
    later: int)

  datatype Answer = Answer(requeueAfter: int, failure: Option<Failure>)

  /** Everything a call leaves behind: the server, the release storage, its answer and the resources it deleted. */
  datatype Outcome = Outcome(server: Server, storage: seq<Record>, answer: Answer, deleted: seq<Resource>)

  // ----- The conditions it sets -----

  function Problem(kind: ConditionKind, reason: Reason, f: Failure): Condition {
    Condition(kind, True, reason, f.message, 0)
  }

  function Started(): Condition {
    Condition(Initialized, True, NoReason, "", 0)
  }

  function Running(reason: Reason, r: Record): Condition {
    Condition(Deployed, True, reason, if r.info.Some? then r.info.value.notes else "", 0)
  }

  function Gone(message: string): Condition {
    Condition(Deployed, False, UninstallSuccessful, message, 0)
  }

  function ReleaseOf(r: Record): Option<Release> {
    Some(Release(r.name, r.manifest))
  }

  function ReasonFor(r: Record): Reason {
    if r.version == 1 then InstallSuccessful else UpgradeSuccessful
  }

  // ----- The call as a step -----

  /** Write the status and answer with the failure, whatever becomes of the write. */
  function Report(server: Server, base: nat, o: CustomResource, s: Status, w: Write,
                  storage: seq<Record>, f: Failure, deleted: seq<Resource>): Outcome
  {
    Outcome(server.After(base, Some(o.(status := s)), w), storage, Answer(0, Some(f)), deleted)
  }

  /** Write the status and requeue. */
  function Conclude(server: Server, base: nat, o: CustomResource, s: Status, w: Write, storage: seq<Record>,
                    period: int): Outcome {
    Outcome(server.After(base, Some(o.(status := s)), w), storage, Answer(period, server.Problem(base, w)), [])
  }

  function Unchanged(server: Server, storage: seq<Record>, failure: Option<Failure>): Outcome {
    Outcome(server, storage, Answer(0, failure), [])
  }

  /** A call that sees version `base` of the resource. */
  function Step(server: Server, base: nat, storage: seq<Record>, e: Events): Outcome
    requires base < |server.versions|
  {
    if e.get.Some? then Unchanged(server, storage, e.get)
    else
      match server.versions[base]
      case None => Unchanged(server, storage, None)
      case Some(o) =>
        if e.newManager.Some? then Unchanged(server, storage, e.newManager)
        else if e.period.Err? then Unchanged(server, storage, Some(e.period.failure))
        else if o.deleting then StepDeleting(server, base, o, storage, e)
        else StepLive(server, base, o, storage, e)
  }

  function StepDeleting(server: Server, base: nat, o: CustomResource, storage: seq<Record>, e: Events): Outcome
    requires e.period.Ok?
  {
    if !o.Guarded() then Unchanged(server, storage, None)
    else
      match e.uninstall
      case UninstallFailed(f, after) =>
        Report(server, base, o, o.status.Set(Problem(ReleaseFailed, UninstallError, f), e.now), e.statusWrite, after,
               f, [])
      case Uninstalled => StepUninstalled(server, base, o, [], e)
      case ReleaseNotFound => StepUninstalled(server, base, o, storage, e)
  }

  /** The status once the release is uninstalled or was not there. */
  function UninstalledStatus(o: CustomResource, e: Events): Status {
    var s := o.status.Remove(ReleaseFailed);
    if o.Waits() then s.Set(Gone(WAITING), e.now)
    else if e.uninstall.Uninstalled? then s.Set(Gone(""), e.now).(release := None)
    else s
  }

  function StepUninstalled(server: Server, base: nat, o: CustomResource, storage: seq<Record>, e: Events): Outcome
    requires e.period.Ok?
  {
    var s := UninstalledStatus(o, e);
    var o' := o.(status := s);
    var server' := server.After(base, Some(o'), e.statusWrite);
    var problem := server.Problem(base, e.statusWrite);
    if problem.Some? then Unchanged(server', storage, problem)
    else if o.Waits() && s.release.Some? && s.release.value.manifest != "" then
      var cleaned := AfterCleanup(s.release.value.manifest, e.cleanup);
      match cleaned.allDeleted
      case Err(f) =>
        Report(server', base + 1, o', s.Set(Problem(ReleaseFailed, UninstallError, f), e.later), e.lateStatusWrite,
               storage, f, cleaned.deleted)
      case Ok(all) =>
        if all then StepDetach(server', base + 1, o', storage, e, cleaned.deleted)
        else Outcome(server', storage, Answer(e.period.value, None), cleaned.deleted)
    else StepDetach(server', base + 1, o', storage, e, [])
  }

  function StepDetach(server: Server, base: nat, o: CustomResource, storage: seq<Record>, e: Events,
                      deleted: seq<Resource>): Outcome {
    var problem := server.Problem(base, e.objectWrite);
    Outcome(server.After(base, Stored(o.WithoutFinalizers()), e.objectWrite), storage,
            Answer(0, if problem.Some? then problem else e.deletionSeen), deleted)
  }

  function StepLive(server: Server, base: nat, o: CustomResource, storage: seq<Record>, e: Events): Outcome
    requires e.period.Ok?
  {
    var s := o.status.Set(Started(), e.now);
    var synced := AfterSync(storage, e.sync);
    if synced.failure.Some? then
      var f := synced.failure.value;
      Report(server, base, o, s.Set(Problem(Irreconcilable, ReconcileError, f), e.later), e.statusWrite,
             synced.storage, f, [])
    else if synced.release.None? then
      StepInstall(server, base, o, s.Remove(Irreconcilable), synced.storage, e)
    else if o.Guarded() then
      StepInstalled(server, base, o, o, s.Remove(Irreconcilable), synced, e)
    else
      var server' := server.After(base, Some(o.WithFinalizer()), e.objectWrite);
      var problem := server.Problem(base, e.objectWrite);
      if problem.Some? then Unchanged(server', synced.storage, problem)
      else StepInstalled(server', base + 1, o, o.WithFinalizer(), s.Remove(Irreconcilable), synced, e)
  }

  function StepInstall(server: Server, base: nat, o: CustomResource, s: Status, storage: seq<Record>,
                       e: Events): Outcome
    requires e.period.Ok?
  {
    match e.install
    case InstallFailed(f, after) =>
      Report(server, base, o, s.Set(Problem(ReleaseFailed, InstallError, f), e.later), e.statusWrite, after, f, [])
    case Installed(record, after) =>
      var o' := o.WithFinalizer();
      var server' := server.After(base, Some(o'), e.objectWrite);
      var problem := server.Problem(base, e.objectWrite);
      if problem.Some? then Unchanged(server', after, problem)
      else if e.hook.Some? then Unchanged(server', after, e.hook)
      else
        Conclude(server', base + 1, o', InstalledStatus(s, InstallSuccessful, record, e), e.statusWrite, after,
                 e.period.value)
  }

  function InstalledStatus(s: Status, reason: Reason, record: Record, e: Events): Status {
    s.Remove(ReleaseFailed).Set(Running(reason, record), e.later).(release := ReleaseOf(record))
  }

  /** `seen` is the resource as it was read, `o` the one with its finalizer. */
  function StepInstalled(server: Server, base: nat, seen: CustomResource, o: CustomResource, s: Status,
                         synced: Synced, e: Events): Outcome
    requires e.period.Ok? && synced.release.Some?
  {
    if synced.upgrade then
      match e.upgrade
      case UpgradeFailed(f, recorded, after, rolledBack) =>
        Report(server, base, o, s.Set(Problem(ReleaseFailed, UpgradeError, f), e.later), e.statusWrite,
               if recorded then rolledBack else after, f, [])
      case Upgraded(record, after) =>
        if e.hook.Some? then Unchanged(server, after, e.hook)
        else Conclude(server, base, o, InstalledStatus(s, UpgradeSuccessful, record, e), e.statusWrite, after,
                      e.period.value)
    else if e.reconcile.Some? then
      var f := e.reconcile.value;
      Report(server, base, o, s.Remove(ReleaseFailed).Set(Problem(Irreconcilable, ReconcileError, f), e.later),
             e.statusWrite, synced.storage, f, [])
    else if e.hook.Some? then Unchanged(server, synced.storage, e.hook)
    else
      var record := synced.release.value;
      var s' := s.Remove(ReleaseFailed).Remove(Irreconcilable)
        .Set(Running(ReasonFor(record), record), e.later).(release := ReleaseOf(record));
      if s' != seen.status then Conclude(server, base, o, s', e.statusWrite, synced.storage, e.period.value)
      else Outcome(server, synced.storage, Answer(e.period.value, None), [])
  }

  // ----- The call as the program makes it -----

  method Reconcile(api: ApiServer, base: nat, manager: Manager, e: Events)
    returns (answer: Answer, deleted: seq<Resource>)
    requires base < |api.state.versions|
    requires !manager.isInstalled && !manager.isUpgradeRequired && manager.deployedRelease.None?
    modifies api, manager
    ensures Outcome(api.state, manager.storage, answer, deleted) == Step(old(api.state), base, old(manager.storage), e)
  {
    deleted := [];
    if e.get.Some? {
      return Answer(0, e.get), [];
    }
    if api.state.versions[base].None? {
      return Answer(0, None), [];
    }
    var o := api.state.versions[base].value;
    if e.newManager.Some? {
      return Answer(0, e.newManager), [];
    }
    var status := new HelmAppStatus(o.status);
    if e.period.Err? {
      return Answer(0, Some(e.period.failure)), [];
    }
    if o.deleting {
      answer, deleted := ReconcileDeleting(api, base, o, status, manager, e);
    } else {
      answer := ReconcileLive(api, base, o, status, manager, e);
    }
  }

  method ReconcileDeleting(api: ApiServer, base: nat, o: CustomResource, status: HelmAppStatus, manager: Manager,
                           e: Events)
    returns (answer: Answer, deleted: seq<Resource>)
    requires base < |api.state.versions| && e.period.Ok? && status.Value() == o.status
    modifies api, status, manager
    ensures Outcome(api.state, manager.storage, answer, deleted)
            == StepDeleting(old(api.state), base, o, old(manager.storage), e)
  {
    var problem: Option<Failure>;
    var version := base;
    if !o.Guarded() {
      return Answer(0, None), [];
    }
    if e.uninstall.UninstallFailed? {
      manager.storage := e.uninstall.after;
      status.SetCondition(Problem(ReleaseFailed, UninstallError, e.uninstall.failure), e.now);
      problem, version := api.Update(version, Some(o.(status := status.Value())), e.statusWrite);
      return Answer(0, Some(e.uninstall.failure)), [];
    }
    status.RemoveCondition(ReleaseFailed);
    if e.uninstall.Uninstalled? {
      manager.storage := [];
      if !o.Waits() {
        status.SetCondition(Gone(""), e.now);
        status.deployedRelease := None;
      }
    }
    if o.Waits() {
      status.SetCondition(Gone(WAITING), e.now);
    }
    assert status.Value() == UninstalledStatus(o, e);
    answer, deleted := FinishDeletion(api, base, o, status, manager, e);
  }

  method FinishDeletion(api: ApiServer, base: nat, o: CustomResource, status: HelmAppStatus, manager: Manager,
                        e: Events)
    returns (answer: Answer, deleted: seq<Resource>)
    requires base < |api.state.versions| && e.period.Ok? && status.Value() == UninstalledStatus(o, e)
    modifies api, status
    ensures Outcome(api.state, manager.storage, answer, deleted)
            == StepUninstalled(old(api.state), base, o, manager.storage, e)
  {
    deleted := [];
    var written := o.(status := status.Value());
    var problem, version := api.Update(base, Some(written), e.statusWrite);
    if problem.Some? {
      return Answer(0, problem), [];
    }
    if o.Waits() && status.deployedRelease.Some? && status.deployedRelease.value.manifest != "" {
      var cleaned := manager.CleanupRelease(status.deployedRelease.value.manifest, e.cleanup);
      deleted := cleaned.deleted;
      if cleaned.allDeleted.Err? {
        status.SetCondition(Problem(ReleaseFailed, UninstallError, cleaned.allDeleted.failure), e.later);
        problem, version := api.Update(version, Some(written.(status := status.Value())), e.lateStatusWrite);
        return Answer(0, Some(cleaned.allDeleted.failure)), deleted;
      }
      if !cleaned.allDeleted.value {
        return Answer(e.period.value, None), deleted;
      }
      status.RemoveCondition(ReleaseFailed);
    }
    problem, version := api.Update(version, Stored(written.WithoutFinalizers()), e.objectWrite);
    if problem.Some? {
      return Answer(0, problem), deleted;
    }
    return Answer(0, e.deletionSeen), deleted;
  }

  method ReconcileLive(api: ApiServer, base: nat, o: CustomResource, status: HelmAppStatus, manager: Manager, e: Events)
    returns (answer: Answer)
    requires base < |api.state.versions| && e.period.Ok? && status.Value() == o.status
    requires !manager.isInstalled && !manager.isUpgradeRequired && manager.deployedRelease.None?
    modifies api, status, manager
    ensures Outcome(api.state, manager.storage, answer, [])
            == StepLive(old(api.state), base, o, old(manager.storage), e)
  {
    var problem: Option<Failure>;
    var version := base;
    ghost var synced := AfterSync(manager.storage, e.sync);
    status.SetCondition(Started(), e.now);
    var failure := manager.Sync(e.sync);
    assert synced == Synced(manager.storage, manager.deployedRelease, manager.isUpgradeRequired, failure);
    if failure.Some? {
      status.SetCondition(Problem(Irreconcilable, ReconcileError, failure.value), e.later);
      problem, version := api.Update(version, Some(o.(status := status.Value())), e.statusWrite);
      return Answer(0, failure);
    }
    status.RemoveCondition(Irreconcilable);
    if !manager.isInstalled {
      answer := InstallRelease(api, version, o, status, manager, e);
      return;
    }
    var guarded := o;
    if !o.Guarded() {
      guarded := o.WithFinalizer();
      problem, version := api.Update(version, Some(guarded), e.objectWrite);
      if problem.Some? {
        return Answer(0, problem);
      }
    }
    answer := ReconcileInstalled(api, version, o, guarded, status, manager, synced, e);
  }

  method InstallRelease(api: ApiServer, base: nat, o: CustomResource, status: HelmAppStatus, manager: Manager,
                        e: Events)
    returns (answer: Answer)
    requires base < |api.state.versions| && e.period.Ok?
    modifies api, status, manager`storage
    ensures Outcome(api.state, manager.storage, answer, []) ==
            StepInstall(old(api.state), base, o, old(status.Value()), old(manager.storage), e)
  {
    var problem: Option<Failure>;
    var version := base;
    manager.storage := e.install.after;
    if e.install.InstallFailed? {
      status.SetCondition(Problem(ReleaseFailed, InstallError, e.install.failure), e.later);
      problem, version := api.Update(version, Some(o.(status := status.Value())), e.statusWrite);
      return Answer(0, Some(e.install.failure));
    }
    status.RemoveCondition(ReleaseFailed);
    problem, version := api.Update(version, Some(o.WithFinalizer()), e.objectWrite);
    if problem.Some? {
      return Answer(0, problem);
    }
    if e.hook.Some? {
      return Answer(0, e.hook);
    }
    status.SetCondition(Running(InstallSuccessful, e.install.record), e.later);
    status.deployedRelease := ReleaseOf(e.install.record);
    problem, version := api.Update(version, Some(o.WithFinalizer().(status := status.Value())), e.statusWrite);
    return Answer(e.period.value, problem);
  }

  method ReconcileInstalled(api: ApiServer, base: nat, seen: CustomResource, o: CustomResource, status: HelmAppStatus,
                            manager: Manager, ghost synced: Synced, e: Events)
    returns (answer: Answer)
    requires e.period.Ok? && manager.deployedRelease.Some?
    requires synced == Synced(manager.storage, manager.deployedRelease, manager.isUpgradeRequired, None)
    modifies api, status, manager`storage
    ensures Outcome(api.state, manager.storage, answer, []) ==
            StepInstalled(old(api.state), base, seen, o, old(status.Value()), synced, e)
  {
    var problem: Option<Failure>;
    var version := base;
    if manager.isUpgradeRequired {
      manager.storage := e.upgrade.after;
      if e.upgrade.UpgradeFailed? {
        if e.upgrade.recorded {
          manager.storage := e.upgrade.rolledBack;
        }
        status.SetCondition(Problem(ReleaseFailed, UpgradeError, e.upgrade.failure), e.later);
        problem, version := api.Update(version, Some(o.(status := status.Value())), e.statusWrite);
        return Answer(0, Some(e.upgrade.failure));
      }
      status.RemoveCondition(ReleaseFailed);
      if e.hook.Some? {
        return Answer(0, e.hook);
      }
      status.SetCondition(Running(UpgradeSuccessful, e.upgrade.record), e.later);
      status.deployedRelease := ReleaseOf(e.upgrade.record);
      problem, version := api.Update(version, Some(o.(status := status.Value())), e.statusWrite);
      return Answer(e.period.value, problem);
    }
    status.RemoveCondition(ReleaseFailed);
    if e.reconcile.Some? {
      status.SetCondition(Problem(Irreconcilable, ReconcileError, e.reconcile.value), e.later);
      problem, version := api.Update(version, Some(o.(status := status.Value())), e.statusWrite);
      return Answer(0, e.reconcile);
    }
    status.RemoveCondition(Irreconcilable);
    if e.hook.Some? {
      return Answer(0, e.hook);
    }
    var record := manager.deployedRelease.value;
    status.SetCondition(Running(if record.version == 1 then InstallSuccessful else UpgradeSuccessful, record), e.later);
    status.deployedRelease := ReleaseOf(record);
    if status.Value() != seen.status {
      problem, version := api.Update(version, Some(o.(status := status.Value())), e.statusWrite);
      return Answer(e.period.value, problem);
    }
    return Answer(e.period.value, None);
  }
}
