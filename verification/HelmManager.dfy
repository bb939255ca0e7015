/** The release manager (internal/helm/release/manager.go) and the resource policy filter
    (internal/helm/manifestutil/resource_policy.go). */
module HelmManager {
  import opened Slices
  import opened Text

  datatype Failure = Failure(message: string)

  datatype Result<T> = Ok(value: T) | Err(failure: Failure)

  // ----- The release storage -----

  datatype Phase = DeployedPhase | OtherPhase

  /** A stored revision of the release; `info` is missing when its phase and notes are unknown. */
  datatype Info = Info(phase: Phase, notes: string)
  datatype Record = Record(name: string, version: int, info: Option<Info>, manifest: string)

  predicate IsStale(r: Record) {
    r.info.Some? && r.info.value.phase != DeployedPhase
  }

  predicate IsDeployed(r: Record) {
    r.info.Some? && r.info.value.phase == DeployedPhase
  }

  function Without(storage: seq<Record>, version: int): seq<Record> {
    if storage == [] then []
    else (if storage[0].version == version then [] else [storage[0]]) + Without(storage[1..], version)
  }

  /** The deployed revision with the highest version; what Storage.Deployed returns. */
  function LatestDeployed(storage: seq<Record>): Option<Record> {
    if storage == [] then None
    else
      var rest := LatestDeployed(storage[1..]);
      if IsDeployed(storage[0]) && (rest.None? || rest.value.version < storage[0].version) then Some(storage[0])
        else rest
  }

  datatype History = Found | Missing | Unread(failure: Failure)

  /** How the calls made by Sync turn out. A delete that answers "not found" counts as done: the revision is gone. */
  datatype SyncReplies = SyncReplies(
    history: History,
    delete: Record -> Option<Failure>,
    deployed: Option<Failure>,
    candidate: Result<string>)

  /** The revisions left, and the failure met, if any, after deleting the stale ones among `releases`. */
  function Sweep(releases: seq<Record>, storage: seq<Record>, delete: Record -> Option<Failure>)
    : (seq<Record>, Option<Failure>)
    decreases releases
  {
    if releases == [] then (storage, None)
    else if !IsStale(releases[0]) then Sweep(releases[1..], storage, delete)
    else if delete(releases[0]).Some? then (storage, delete(releases[0]))
    else Sweep(releases[1..], Without(storage, releases[0].version), delete)
  }

  datatype Synced = Synced(storage: seq<Record>, release: Option<Record>, upgrade: bool, failure: Option<Failure>)

  /** What Sync leaves behind in the storage and in the manager. */
  function AfterSync(storage: seq<Record>, replies: SyncReplies): Synced {
    if replies.history.Unread? then Synced(storage, None, false, Some(replies.history.failure))
    else
      var (swept, failure) := if replies.history.Found? then Sweep(storage, storage, replies.delete)
        else (storage, None);
      if failure.Some? then Synced(swept, None, false, failure)
      else if replies.deployed.Some? then Synced(swept, None, false, replies.deployed)
      else
        match LatestDeployed(swept)
        case None => Synced(swept, None, false, None)
        case Some(r) =>
          match replies.candidate
          case Ok(manifest) => Synced(swept, Some(r), r.manifest != manifest, None)
          case Err(f) => Synced(swept, Some(r), false, Some(f))
  }

  // ----- Manifests and the resources they stand for -----

  const RESOURCE_POLICY := "helm.sh/resource-policy"
  const KEEP := "keep"

  datatype Manifest = Manifest(annotations: Option<map<string, string>>, content: string)

  predicate HasPolicy(m: Manifest) {
    m.annotations.Some? && RESOURCE_POLICY in m.annotations.value
  }

  predicate IsKept(m: Manifest) {
    HasPolicy(m) && ToLower(TrimSpace(m.annotations.value[RESOURCE_POLICY])) == KEEP
  }

  /** A manifest with some other policy is in neither list. */
  method FilterManifestsToKeep(manifests: seq<Manifest>) returns (keep: seq<Manifest>, remaining: seq<Manifest>)
    ensures keep == Filter(manifests, IsKept)
    ensures remaining == Filter(manifests, m => !HasPolicy(m))
  {
    keep, remaining := [], [];
    for i := 0 to |manifests|
      invariant keep == Filter(manifests[..i], IsKept)
      invariant remaining == Filter(manifests[..i], m => !HasPolicy(m))
    {
      var m := manifests[i];
      assert manifests[..i + 1] == manifests[..i] + [m];
      FilterAppend(manifests[..i], m, IsKept);
      FilterAppend(manifests[..i], m, m => !HasPolicy(m));
      if m.annotations.None? || |m.annotations.value| == 0 {
        remaining := remaining + [m];
        continue;
      }
      if RESOURCE_POLICY !in m.annotations.value {
        remaining := remaining + [m];
        continue;
      }
      var policy := ToLower(TrimSpace(m.annotations.value[RESOURCE_POLICY]));
      if policy == KEEP {
        keep := keep + [m];
      }
    }
    assert manifests[..|manifests|] == manifests;
  }

  datatype Resource = Resource(kind: string, namespace: string, name: string)

  datatype Look = Present | Absent | Unclear(failure: Failure)

  datatype Versions = Known | GroupsMissing | Unknown(failure: Failure)

  /** How the calls made by CleanupRelease turn out: `objects` are the resources a manifest's content
      stands for and `get` answers for the i-th resource looked at. */
  datatype CleanupReplies = CleanupReplies(
    discovery: Option<Failure>,
    apiVersions: Versions,
    parse: string -> Result<seq<Manifest>>,
    objects: Manifest -> seq<Resource>,
    build: Option<Failure>,
    get: nat -> Look,
    delete: Option<Failure>)

  function Objects(manifests: seq<Manifest>, objects: Manifest -> seq<Resource>): seq<Resource> {
    if manifests == [] then [] else objects(manifests[0]) + Objects(manifests[1..], objects)
  }

  /** The answer, and the resources named in delete calls. */
  datatype Cleaned = Cleaned(allDeleted: Result<bool>, deleted: seq<Resource>)

  function LookFrom(resources: seq<Resource>, replies: CleanupReplies, i: nat): Cleaned
    requires i <= |resources|
    decreases |resources| - i
  {
    if i == |resources| then Cleaned(Ok(true), [])
    else
      match replies.get(i)
      case Absent => LookFrom(resources, replies, i + 1)
      case Unclear(f) => Cleaned(Err(f), [])
      case Present => Cleaned(if replies.delete.Some? then Err(replies.delete.value) else Ok(false), resources)
  }

  /** The resources CleanupRelease looks at. */
  function Doomed(manifest: string, replies: CleanupReplies): seq<Resource> {
    match replies.parse(manifest)
    case Ok(files) => Objects(Filter(files, m => !HasPolicy(m)), replies.objects)
    case Err(_) => []
  }

  function AfterCleanup(manifest: string, replies: CleanupReplies): Cleaned {
    if replies.discovery.Some? then Cleaned(Err(replies.discovery.value), [])
    else if replies.apiVersions.Unknown? then Cleaned(Err(replies.apiVersions.failure), [])
    else if replies.parse(manifest).Err? then Cleaned(Err(replies.parse(manifest).failure), [])
    else if replies.build.Some? then Cleaned(Err(replies.build.value), [])
    else LookFrom(Doomed(manifest, replies), replies, 0)
  }

  class Manager {
    var storage: seq<Record>
    var isInstalled: bool
    var isUpgradeRequired: bool
    var deployedRelease: Option<Record>

    constructor (storage: seq<Record>)
      ensures this.storage == storage && deployedRelease.None? && !isInstalled && !isUpgradeRequired
    {
      this.storage := storage;
      isInstalled, isUpgradeRequired, deployedRelease := false, false, None;
    }

    method SweepStale(delete: Record -> Option<Failure>) returns (failure: Option<Failure>)
      modifies this`storage
      ensures (storage, failure) == Sweep(old(storage), old(storage), delete)
    {
      var releases := storage;
      for i := 0 to |releases|
        invariant Sweep(releases, releases, delete) == Sweep(releases[i..], storage, delete)
      {
        assert releases[i..][1..] == releases[i + 1..];
        if releases[i].info.Some? && releases[i].info.value.phase != DeployedPhase {
          if delete(releases[i]).Some? {
            return delete(releases[i]);
          }
          storage := Without(storage, releases[i].version);
        }
      }
      return None;
    }

    method Sync(replies: SyncReplies) returns (failure: Option<Failure>)
      requires !isInstalled && !isUpgradeRequired && deployedRelease.None?
      modifies this
      ensures Synced(storage, deployedRelease, isUpgradeRequired, failure) == AfterSync(old(storage), replies)
      ensures isInstalled == deployedRelease.Some?
    {
      if replies.history.Unread? {
        return Some(replies.history.failure);
      }
      if replies.history.Found? {
        failure := SweepStale(replies.delete);
        if failure.Some? {
          return;
        }
      }
      if replies.deployed.Some? {
        return replies.deployed;
      }
      var deployed := LatestDeployed(storage);
      if deployed.None? {
        return None;
      }
      deployedRelease, isInstalled := deployed, true;
      match replies.candidate
      case Err(f) =>
        return Some(f);
      case Ok(manifest) =>
        isUpgradeRequired := deployed.value.manifest != manifest;
        return None;
    }

    method CleanupRelease(manifest: string, replies: CleanupReplies) returns (r: Cleaned)
      ensures r == AfterCleanup(manifest, replies) && IsCleanup(manifest, replies, r)
    {
      CleanupRead(manifest, replies);
      if replies.discovery.Some? {
        return Cleaned(Err(replies.discovery.value), []);
      }
      if replies.apiVersions.Unknown? {
        return Cleaned(Err(replies.apiVersions.failure), []);
      }
      var parsed := replies.parse(manifest);
      if parsed.Err? {
        return Cleaned(Err(parsed.failure), []);
      }
      var _, filesToDelete := FilterManifestsToKeep(parsed.value);
      if replies.build.Some? {
        return Cleaned(Err(replies.build.value), []);
      }
      var resources := Objects(filesToDelete, replies.objects);
      if |resources| <= 0 {
        return Cleaned(Ok(true), []);
      }
      for i := 0 to |resources|
        invariant LookFrom(resources, replies, 0) == LookFrom(resources, replies, i)
      {
        match replies.get(i)
        case Absent =>
          continue;
        case Unclear(f) =>
          return Cleaned(Err(f), []);
        case Present =>
          return Cleaned(if replies.delete.Some? then Err(replies.delete.value) else Ok(false), resources);
      }
      return Cleaned(Ok(true), []);
    }
  }

  // ----- What Sync guarantees -----

  ghost predicate DistinctVersions(storage: seq<Record>) {
    forall i, j :: 0 <= i < j < |storage| ==> storage[i].version != storage[j].version
  }

  /** Sync may remove stale revisions only; if it gets past the clean-up none is left. */
  lemma SyncSweeps(storage: seq<Record>, replies: SyncReplies)
    requires DistinctVersions(storage)
    ensures var after := AfterSync(storage, replies);
            && DistinctVersions(after.storage)
            && (forall r :: r in after.storage ==> r in storage)
            && (forall r :: r in storage && !IsStale(r) ==> r in after.storage)
            && (replies.history.Found? && (after.failure.None? || after.release.Some?)
                ==> forall r :: r in after.storage ==> !IsStale(r))
  {
    if replies.history.Found? {
      SweepKeeps(storage, storage, replies.delete);
      var (left, failure) := Sweep(storage, storage, replies.delete);
      assert AfterSync(storage, replies).storage == left;
    }
  }

  lemma {:induction false} WithoutDistinct(storage: seq<Record>, version: int)
    requires DistinctVersions(storage)
    ensures DistinctVersions(Without(storage, version))
  {
    if storage != [] {
      WithoutDistinct(storage[1..], version);
      var rest := Without(storage[1..], version);
      forall i | 0 <= i < |rest|
        ensures rest[i].version != storage[0].version
      {
        WithoutMembers(storage[1..], version, rest[i]);
      }
    }
  }

  lemma {:induction false} WithoutMembers(storage: seq<Record>, version: int, r: Record)
    ensures r in Without(storage, version) <==> r in storage && r.version != version
  {
    if storage != [] {
      WithoutMembers(storage[1..], version, r);
    }
  }

  lemma {:induction false} SweepKeeps(releases: seq<Record>, storage: seq<Record>, delete: Record -> Option<Failure>)
    requires DistinctVersions(storage)
    requires forall a, b :: a in storage && b in releases && a.version == b.version ==> a == b
    ensures DistinctVersions(Sweep(releases, storage, delete).0)
    ensures var (left, failure) := Sweep(releases, storage, delete);
            && (forall r :: r in left ==> r in storage)
            && (forall r :: r in storage && !IsStale(r) ==> r in left)
            && (failure.None? ==> forall r :: r in left && r in releases ==> !IsStale(r))
    decreases releases
  {
    if releases != [] {
      var first := releases[0];
      if !IsStale(first) {
        SweepKeeps(releases[1..], storage, delete);
      } else if delete(first).None? {
        var fewer := Without(storage, first.version);
        forall r ensures r in fewer <==> r in storage && r.version != first.version {
          WithoutMembers(storage, first.version, r);
        }
        WithoutDistinct(storage, first.version);
        SweepKeeps(releases[1..], fewer, delete);
      }
    }
  }

  /** r is the deployed revision with the highest version. */
  ghost predicate IsLatest(storage: seq<Record>, r: Record) {
    r in storage && IsDeployed(r) && forall q :: q in storage && IsDeployed(q) ==> q.version <= r.version
  }

  lemma {:induction false} LatestIsLatest(storage: seq<Record>)
    ensures match LatestDeployed(storage)
            case None => forall r :: r in storage ==> !IsDeployed(r)
            case Some(r) => IsLatest(storage, r)
  {
    if storage != [] {
      LatestIsLatest(storage[1..]);
    }
  }

  /** A successful Sync: the release it loads is the latest one deployed before the clean-up, there
      is none exactly when none was deployed, and an upgrade is due exactly when the chart now
      renders another manifest. */
  lemma SyncLoadsLatest(storage: seq<Record>, replies: SyncReplies)
    requires DistinctVersions(storage) && AfterSync(storage, replies).failure.None?
    ensures var after := AfterSync(storage, replies);
            match after.release
            case None => !after.upgrade && forall r :: r in storage ==> !IsDeployed(r)
            case Some(r) => IsLatest(storage, r) && (after.upgrade <==> replies.candidate != Ok(r.manifest))
  {
    var after := AfterSync(storage, replies);
    SyncSweeps(storage, replies);
    LatestIsLatest(after.storage);
  }

  /** Some revision in the storage is deployed. */
  ghost predicate AnyDeployed(storage: seq<Record>) {
    exists r :: r in storage && r.info.Some? && r.info.value.phase == DeployedPhase
  }

  /** Deleting some revision with another phase fails. */
  ghost predicate AnyUndeletable(storage: seq<Record>, delete: Record -> Option<Failure>) {
    exists r :: r in storage && r.info.Some? && r.info.value.phase != DeployedPhase && delete(r).Some?
  }

  /** Exactly when Sync fails: reading the history, deleting a stale revision, reading what is deployed,
      or rendering the candidate for what is. */
  lemma SyncFailsIff(storage: seq<Record>, replies: SyncReplies)
    requires DistinctVersions(storage)
    ensures AfterSync(storage, replies).failure.Some? <==>
            || replies.history.Unread?
            || (replies.history.Found? && AnyUndeletable(storage, replies.delete))
            || replies.deployed.Some?
            || (AnyDeployed(storage) && replies.candidate.Err?)
  {
    if replies.history.Found? {
      SweepFails(storage, storage, replies.delete);
    }
    var after := AfterSync(storage, replies);
    SyncSweeps(storage, replies);
    LatestIsLatest(after.storage);
    assert forall r :: IsDeployed(r) ==> !IsStale(r);
  }

  lemma {:induction false} SweepFails(releases: seq<Record>, storage: seq<Record>, delete: Record -> Option<Failure>)
    ensures Sweep(releases, storage, delete).1.Some? <==>
            AnyUndeletable(releases, delete)
    decreases releases
  {
    if releases != [] {
      SweepFails(releases[1..], storage, delete);
      SweepFails(releases[1..], Without(storage, releases[0].version), delete);
      assert forall r :: r in releases <==> r == releases[0] || r in releases[1..];
    }
  }

  // ----- What CleanupRelease guarantees -----

  /** The revision has a phase other than deployed. */
  ghost predicate Superseded(r: Record) {
    r.info.Some? && r.info.value.phase != DeployedPhase
  }

  /** r is one of the first k revisions, and superseded. */
  ghost predicate SweptBy(all: seq<Record>, k: nat, r: Record)
    requires k <= |all|
  {
    r in all[..k] && Superseded(r)
  }

  /** What is left of a storage once the superseded ones among its first k revisions are deleted. */
  ghost predicate LeftAfter(all: seq<Record>, k: nat, left: seq<Record>)
    requires k <= |all|
  {
    forall r :: r in left <==> r in all && !SweptBy(all, k, r)
  }

  lemma {:induction false} SweepFrom(all: seq<Record>, left: seq<Record>, delete: Record -> Option<Failure>, k: nat,
                                     i: nat)
    requires DistinctVersions(all) && k <= i <= |all| && LeftAfter(all, k, left)
    requires forall j :: k <= j < i && Superseded(all[j]) ==> delete(all[j]).None?
    requires i < |all| ==> Superseded(all[i]) && delete(all[i]).Some?
    ensures LeftAfter(all, i, Sweep(all[k..], left, delete).0)
    ensures Sweep(all[k..], left, delete).1 == if i < |all| then delete(all[i]) else None
    decreases i - k
  {
    if k < i {
      assert all[..k + 1] == all[..k] + [all[k]] && all[k..][1..] == all[k + 1..];
      if Superseded(all[k]) {
        forall r
          ensures r in Without(left, all[k].version) <==> r in left && r.version != all[k].version
        {
          WithoutMembers(left, all[k].version, r);
        }
        SweepFrom(all, Without(left, all[k].version), delete, k + 1, i);
      } else {
        SweepFrom(all, left, delete, k + 1, i);
      }
    }
  }

  /** Sync deletes the superseded revisions in order. If deleting number i fails, that is the failure, and
      those before it are gone; else all are gone, and what fails is reading the deployed revision or rendering. */
  lemma SyncStopsAt(storage: seq<Record>, replies: SyncReplies, i: nat)
    requires DistinctVersions(storage) && replies.history.Found? && i <= |storage|
    requires forall j :: 0 <= j < i && Superseded(storage[j]) ==> replies.delete(storage[j]).None?
    requires i < |storage| ==> Superseded(storage[i]) && replies.delete(storage[i]).Some?
    ensures LeftAfter(storage, i, AfterSync(storage, replies).storage)
    ensures i < |storage| ==> AfterSync(storage, replies).failure == replies.delete(storage[i])
    ensures i == |storage| && replies.deployed.Some? ==> AfterSync(storage, replies).failure == replies.deployed
    ensures i == |storage| && replies.deployed.None? && AnyDeployed(storage) ==>
              AfterSync(storage, replies).failure ==
              if replies.candidate.Err? then Some(replies.candidate.failure) else None
  {
    assert storage[0..] == storage;
    SweepFrom(storage, storage, replies.delete, 0, i);
    LatestIsLatest(AfterSync(storage, replies).storage);
  }

  ghost predicate NoPolicy(m: Manifest) {
    m.annotations.None? || "helm.sh/resource-policy" !in m.annotations.value
  }

  ghost function StandsFor(objects: Manifest -> seq<Resource>): (Manifest, seq<Resource>) -> bool {
    (m, resources) => resources == objects(m)
  }

  /** The resources are those the manifests without a resource policy stand for, in order. */
  ghost predicate AreDoomed(files: seq<Manifest>, objects: Manifest -> seq<Resource>, resources: seq<Resource>) {
    exists parts: seq<seq<Resource>> ::
      Picked(files, NoPolicy, StandsFor(objects), parts) && resources == Flatten(parts)
  }

  lemma {:induction false} DoomedRead(files: seq<Manifest>, objects: Manifest -> seq<Resource>)
    returns (parts: seq<seq<Resource>>)
    ensures Picked(files, NoPolicy, StandsFor(objects), parts)
    ensures Objects(Filter(files, m => !HasPolicy(m)), objects) == Flatten(parts)
  {
    parts := [];
    if files != [] {
      var front, m := files[..|files| - 1], files[|files| - 1];
      assert files == front + [m];
      parts := DoomedRead(front, objects);
      FilterAppend(front, m, m => !HasPolicy(m));
      if !HasPolicy(m) {
        ObjectsSnoc(Filter(front, m => !HasPolicy(m)), m, objects);
        FlattenSnoc(parts, objects(m));
        PickedNext(front, m, NoPolicy, StandsFor(objects), parts, objects(m));
        parts := parts + [objects(m)];
      } else {
        assert Filter(front, m => !HasPolicy(m)) + [] == Filter(front, m => !HasPolicy(m));
        PickedNext(front, m, NoPolicy, StandsFor(objects), parts, []);
      }
    }
  }

  lemma {:induction false} ObjectsSnoc(manifests: seq<Manifest>, m: Manifest, objects: Manifest -> seq<Resource>)
    ensures Objects(manifests + [m], objects) == Objects(manifests, objects) + objects(m)
  {
    if manifests != [] {
      ObjectsSnoc(manifests[1..], m, objects);
      assert (manifests + [m])[1..] == manifests[1..] + [m];
    } else {
      assert [] + [m] == [m] && [m][1..] == [] && objects(m) + [] == objects(m);
    }
  }

  /** What was found, looking at the resources in order up to the first that is not absent: deletes all
      resources if that one is present. */
  ghost predicate IsLook(resources: seq<Resource>, replies: CleanupReplies, r: Cleaned) {
    && ((forall i: nat :: i < |resources| ==> replies.get(i).Absent?) ==> r == Cleaned(Ok(true), []))
    && forall i: nat :: i < |resources| && !replies.get(i).Absent? && FirstSeen(replies, i) ==>
         r == if replies.get(i).Unclear? then Cleaned(Err(replies.get(i).failure), [])
              else if replies.delete.Some? then Cleaned(Err(replies.delete.value), resources)
              else Cleaned(Ok(false), resources)
  }

  ghost predicate FirstSeen(replies: CleanupReplies, i: nat) {
    forall j: nat :: j < i ==> replies.get(j).Absent?
  }

  /** The outcome of CleanupRelease, read off the replies. */
  ghost predicate IsCleanup(manifest: string, replies: CleanupReplies, r: Cleaned) {
    if replies.discovery.Some? then r == Cleaned(Err(replies.discovery.value), [])
    else if replies.apiVersions.Unknown? then r == Cleaned(Err(replies.apiVersions.failure), [])
    else if replies.parse(manifest).Err? then r == Cleaned(Err(replies.parse(manifest).failure), [])
    else if replies.build.Some? then r == Cleaned(Err(replies.build.value), [])
    else exists resources :: AreDoomed(replies.parse(manifest).value, replies.objects, resources)
                             && IsLook(resources, replies, r)
  }

  lemma CleanupRead(manifest: string, replies: CleanupReplies)
    ensures IsCleanup(manifest, replies, AfterCleanup(manifest, replies))
  {
    if replies.parse(manifest).Ok? {
      var resources := Doomed(manifest, replies);
      var parts := DoomedRead(replies.parse(manifest).value, replies.objects);
      LookRead(resources, replies, 0);
      assert AreDoomed(replies.parse(manifest).value, replies.objects, resources);
    }
  }

  lemma {:induction false} LookRead(resources: seq<Resource>, replies: CleanupReplies, i: nat)
    requires i <= |resources| && FirstSeen(replies, i)
    ensures IsLook(resources, replies, LookFrom(resources, replies, i))
    decreases |resources| - i
  {
    if i < |resources| && replies.get(i).Absent? {
      LookRead(resources, replies, i + 1);
    } else if i < |resources| {
      assert forall j: nat :: !replies.get(j).Absent? && FirstSeen(replies, j) ==> j == i;
    }
  }

  ghost predicate AllAbsent(resources: seq<Resource>, replies: CleanupReplies) {
    forall i: nat :: i < |resources| ==> replies.get(i).Absent?
  }

  /** The answer "all deleted" means that every resource was looked for and found absent. */
  lemma AllDeletedIff(manifest: string, replies: CleanupReplies)
    ensures AfterCleanup(manifest, replies).allDeleted == Ok(true) <==>
            && replies.discovery.None? && !replies.apiVersions.Unknown?
            && replies.parse(manifest).Ok? && replies.build.None?
            && AllAbsent(Doomed(manifest, replies), replies)
  {
    LookFromIff(Doomed(manifest, replies), replies, 0);
  }

  lemma {:induction false} LookFromIff(resources: seq<Resource>, replies: CleanupReplies, i: nat)
    requires i <= |resources|
    ensures var r := LookFrom(resources, replies, i);
            && (r.allDeleted == Ok(true) <==> forall j: nat :: i <= j < |resources| ==> replies.get(j).Absent?)
            && (r.deleted == [] || r.deleted == resources)
            && (r.deleted != [] ==> r.allDeleted != Ok(true))
    decreases |resources| - i
  {
    if i < |resources| && replies.get(i).Absent? {
      LookFromIff(resources, replies, i + 1);
    }
  }

  /** A resource is deleted only if some manifest without any resource policy stands for it; so
      nothing that only manifests annotated "keep" stand for ever is. */
  lemma KeptAreNotDeleted(manifest: string, replies: CleanupReplies, x: Resource)
    requires x in AfterCleanup(manifest, replies).deleted
    ensures replies.parse(manifest).Ok?
    ensures exists m :: m in replies.parse(manifest).value && !HasPolicy(m) && !IsKept(m) && x in replies.objects(m)
  {
    LookFromIff(Doomed(manifest, replies), replies, 0);
    var files := replies.parse(manifest).value;
    var m := ObjectsFrom(Filter(files, m => !HasPolicy(m)), replies.objects, x);
    FilterMembers(files, m => !HasPolicy(m), m);
  }

  lemma {:induction false} ObjectsFrom(manifests: seq<Manifest>, objects: Manifest -> seq<Resource>, x: Resource)
    returns (m: Manifest)
    requires x in Objects(manifests, objects)
    ensures m in manifests && x in objects(m)
  {
    if x in objects(manifests[0]) {
      m := manifests[0];
    } else {
      m := ObjectsFrom(manifests[1..], objects, x);
    }
  }

  /** The word "keep" in letters of either case, one of them the Kelvin sign. */
  ghost predicate SpellsKeep(s: string) {
    |s| == 4 && s[0] in "kK\U{212A}" && s[1] in "eE" && s[2] in "eE" && s[3] in "pP"
  }

  /** The manifests kept are those whose policy is that word, white space around it aside. */
  lemma KeptIff(m: Manifest)
    ensures IsKept(m) <==>
            && m.annotations.Some? && "helm.sh/resource-policy" in m.annotations.value
            && exists word :: IsTrimmed(m.annotations.value["helm.sh/resource-policy"], word) && SpellsKeep(word)
  {
    if HasPolicy(m) {
      var value := m.annotations.value[RESOURCE_POLICY];
      TrimIff(value, TrimSpace(value));
      KeepLetters(TrimSpace(value));
      if word :| IsTrimmed(value, word) && SpellsKeep(word) {
        TrimIff(value, word);
      }
    }
  }

  lemma KeepLetters(s: string)
    ensures ToLower(s) == KEEP <==> SpellsKeep(s)
  {
    LowerAt(s);
    assert KEEP == ['k', 'e', 'e', 'p'];
    if |s| == 4 && SpellsKeep(s) {
      assert ToLower(s) == KEEP;
    }
    if ToLower(s) == KEEP {
      assert LowerOf(s[0]) == 'k' && LowerOf(s[1]) == 'e' && LowerOf(s[2]) == 'e' && LowerOf(s[3]) == 'p';
    }
  }

  /** Manifests are neither kept nor remaining exactly when they carry a policy other than "keep". */
  lemma NeitherList(manifests: seq<Manifest>, m: Manifest)
    requires m in manifests
    ensures m in Filter(manifests, IsKept) ==> m !in Filter(manifests, m => !HasPolicy(m))
    ensures m !in Filter(manifests, IsKept) && m !in Filter(manifests, m => !HasPolicy(m))
            <==> HasPolicy(m) && !IsKept(m)
  {
    FilterMembers(manifests, IsKept, m);
    FilterMembers(manifests, m => !HasPolicy(m), m);
  }
}
