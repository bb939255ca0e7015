/** The status block of a Helm-backed resource (internal/helm/internal/types/types.go). */
module HelmStatus {
  import opened Slices

  datatype ConditionKind = Initialized | Deployed | ReleaseFailed | Irreconcilable | OtherKind(name: string)

  datatype Truth = True | False | Unknown

  datatype Reason =
    | NoReason
    | InstallSuccessful | UpgradeSuccessful | UninstallSuccessful
    | InstallError | UpgradeError | ReconcileError | UninstallError
    | OtherReason(text: string)

  datatype Condition = Condition(kind: ConditionKind, status: Truth, reason: Reason, message: string, transition: int)

  datatype Release = Release(name: string, manifest: string)

  datatype Status = Status(conditions: seq<Condition>, release: Option<Release>) {
    function Set(c: Condition, now: int): Status {
      this.(conditions := WithCondition(conditions, c, now))
    }

    function Remove(kind: ConditionKind): Status {
      this.(conditions := WithoutCondition(conditions, kind))
    }
  }

  /** The first condition of a kind is replaced, or a new one appended. The time of transition
      is `now` unless the condition was there with the same status. */
  function WithCondition(cs: seq<Condition>, c: Condition, now: int): seq<Condition> {
    if cs == [] then [c.(transition := now)]
    else if cs[0].kind == c.kind then
      [c.(transition := if cs[0].status != c.status then now else cs[0].transition)] + cs[1..]
    else [cs[0]] + WithCondition(cs[1..], c, now)
  }

  /** The first condition of a kind is removed. */
  function WithoutCondition(cs: seq<Condition>, kind: ConditionKind): seq<Condition> {
    if cs == [] then []
    else if cs[0].kind == kind then cs[1..]
    else [cs[0]] + WithoutCondition(cs[1..], kind)
  }

  /** The status block, updated in place. */
  class HelmAppStatus {
    var conditions: seq<Condition>
    var deployedRelease: Option<Release>

    constructor (status: Status)
      ensures Value() == status
    {
      conditions, deployedRelease := status.conditions, status.release;
    }

    function Value(): Status
      reads this
    {
      Status(conditions, deployedRelease)
    }

    method SetCondition(condition: Condition, now: int)
      modifies this`conditions
      ensures Value() == old(Value()).Set(condition, now)
    {
      for i := 0 to |conditions|
        invariant conditions == old(conditions)
        invariant forall j :: 0 <= j < i ==> conditions[j].kind != condition.kind
      {
        SetAt(conditions, condition, now, i);
        if conditions[i].kind == condition.kind {
          var at := if conditions[i].status != condition.status then now else conditions[i].transition;
          conditions := conditions[i := condition.(transition := at)];
          return;
        }
      }
      SetAt(conditions, condition, now, |conditions|);
      conditions := conditions + [condition.(transition := now)];
    }

    method RemoveCondition(kind: ConditionKind)
      modifies this`conditions
      ensures Value() == old(Value()).Remove(kind)
    {
      for i := 0 to |conditions|
        invariant conditions == old(conditions)
        invariant forall j :: 0 <= j < i ==> conditions[j].kind != kind
      {
        RemovedAt(conditions, kind, i);
        if conditions[i].kind == kind {
          conditions := conditions[..i] + conditions[i + 1..];
          return;
        }
      }
      RemovedAt(conditions, kind, |conditions|);
    }
  }

  lemma {:induction false} SetAt(cs: seq<Condition>, c: Condition, now: int, i: nat)
    requires i <= |cs| && forall j :: 0 <= j < i ==> cs[j].kind != c.kind
    ensures i == |cs| ==> WithCondition(cs, c, now) == cs + [c.(transition := now)]
    ensures i < |cs| && cs[i].kind == c.kind ==>
              WithCondition(cs, c, now)
                == cs[i := c.(transition := if cs[i].status != c.status then now else cs[i].transition)]
  {
    if i > 0 {
      SetAt(cs[1..], c, now, i - 1);
      assert cs == [cs[0]] + cs[1..];
    }
  }

  lemma {:induction false} RemovedAt(cs: seq<Condition>, kind: ConditionKind, i: nat)
    requires i <= |cs| && forall j :: 0 <= j < i ==> cs[j].kind != kind
    ensures i == |cs| ==> WithoutCondition(cs, kind) == cs
    ensures i < |cs| && cs[i].kind == kind ==> WithoutCondition(cs, kind) == cs[..i] + cs[i + 1..]
  {
    if i > 0 {
      RemovedAt(cs[1..], kind, i - 1);
      assert cs == [cs[0]] + cs[1..];
      if i < |cs| {
        assert cs[..i] == [cs[0]] + cs[1..][..i - 1] && cs[1..][i..] == cs[i + 1..];
      }
    }
  }

  // ----- What a reader of the status sees -----

  /** The first condition of a kind. */
  ghost function Lookup(cs: seq<Condition>, kind: ConditionKind): Option<Condition> {
    if cs == [] then None
    else if cs[0].kind == kind then Some(cs[0])
    else Lookup(cs[1..], kind)
  }

  /** No two conditions of the same kind. */
  ghost predicate OneOfEach(cs: seq<Condition>) {
    cs == [] || (Lookup(cs[1..], cs[0].kind).None? && OneOfEach(cs[1..]))
  }

  lemma {:induction false} OneOfEachIsUnique(cs: seq<Condition>)
    ensures OneOfEach(cs) <==> forall i, j :: 0 <= i < j < |cs| ==> cs[i].kind != cs[j].kind
  {
    if cs != [] {
      var rest := cs[1..];
      OneOfEachIsUnique(rest);
      LookupFinds(rest, cs[0].kind);
      assert forall i :: 0 <= i < |rest| ==> rest[i] == cs[i + 1];
      assert forall i :: 0 < i < |cs| ==> cs[i] == rest[i - 1];
    }
  }

  lemma {:induction false} LookupFinds(cs: seq<Condition>, kind: ConditionKind)
    ensures Lookup(cs, kind).None? <==> forall i :: 0 <= i < |cs| ==> cs[i].kind != kind
  {
    if cs != [] {
      LookupFinds(cs[1..], kind);
      assert forall i :: 0 < i < |cs| ==> cs[1..][i - 1] == cs[i];
    }
  }

  /** The condition another kind's lookup sees is untouched; its own is the new one, dated by the change of status. */
  lemma {:induction false} LookupAfterSet(cs: seq<Condition>, c: Condition, now: int, kind: ConditionKind)
    ensures Lookup(WithCondition(cs, c, now), kind) ==
            if kind != c.kind then Lookup(cs, kind)
            else match Lookup(cs, kind)
              case None => Some(c.(transition := now))
              case Some(was) => Some(c.(transition := if was.status != c.status then now else was.transition))
    ensures OneOfEach(cs) ==> OneOfEach(WithCondition(cs, c, now))
  {
    if cs != [] && cs[0].kind != c.kind {
      LookupAfterSet(cs[1..], c, now, kind);
      LookupAfterSet(cs[1..], c, now, cs[0].kind);
    }
  }

  lemma {:induction false} LookupAfterRemove(cs: seq<Condition>, removed: ConditionKind, kind: ConditionKind)
    requires OneOfEach(cs)
    ensures Lookup(WithoutCondition(cs, removed), kind) == if kind == removed then None else Lookup(cs, kind)
    ensures OneOfEach(WithoutCondition(cs, removed))
  {
    if cs != [] && cs[0].kind != removed {
      LookupAfterRemove(cs[1..], removed, kind);
      LookupAfterRemove(cs[1..], removed, cs[0].kind);
    }
  }

  /** Setting a condition changes nothing exactly when it is there already, at whatever time it was set. */
  lemma {:induction false} SetIsQuiet(cs: seq<Condition>, c: Condition, now: int)
    ensures WithCondition(cs, c, now) == cs <==>
            Lookup(cs, c.kind).Some? && Lookup(cs, c.kind).value
              == c.(transition := Lookup(cs, c.kind).value.transition)
  {
    if cs != [] {
      assert cs == [cs[0]] + cs[1..];
      if cs[0].kind == c.kind {
        assert WithCondition(cs, c, now)[0] == c.(transition := if cs[0].status != c.status then now
                                                  else cs[0].transition);
      } else {
        SetIsQuiet(cs[1..], c, now);
        assert WithCondition(cs, c, now)[1..] == WithCondition(cs[1..], c, now);
      }
    }
  }

  /** Removing a kind changes nothing exactly when it is not there. */
  lemma {:induction false} RemoveIsQuiet(cs: seq<Condition>, kind: ConditionKind)
    ensures WithoutCondition(cs, kind) == cs <==> Lookup(cs, kind).None?
  {
    if cs != [] {
      assert cs == [cs[0]] + cs[1..];
      if cs[0].kind == kind {
        assert |WithoutCondition(cs, kind)| == |cs| - 1;
      } else {
        RemoveIsQuiet(cs[1..], kind);
        assert WithoutCondition(cs, kind)[1..] == WithoutCondition(cs[1..], kind);
      }
    }
  }
}
