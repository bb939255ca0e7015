/** Walking the environment of the deployments for related images
    (internal/cmd/operator-sdk/generate/internal/relatedimages.go). */
module RelatedImageWalk {
  import opened Slices
  import opened RelatedImages

  // ----- Walking the deployments -----

  /** An environment variable; `valueFrom` when its value comes from elsewhere. */
  datatype EnvVar = EnvVar(name: string, value: string, valueFrom: bool)

  datatype Container = Container(name: string, env: seq<EnvVar>)

  datatype Deployment = Deployment(name: string, containers: seq<Container>, initContainers: seq<Container>)

  predicate IsRelated(v: EnvVar) {
    PREFIX <= v.name
  }

  /** strings.ToLower */
  type Lower = string -> string

  /** RELATED_IMAGE_This_IS_a_cool_image becomes this-is-a-cool-image. */
  function FormatName(lower: Lower, name: string): string
    requires PREFIX <= name
  {
    lower(Dashes(name[|PREFIX|..]))
  }

  function Dashes(s: string): (r: string)
    ensures |r| == |s|
    ensures '_' !in r
  {
    if s == [] then [] else [if s[0] == '_' then '-' else s[0]] + Dashes(s[1..])
  }

  /** The images met in the first n variables, in the first n containers, and in the first n deployments. */
  function MetInEnv(lower: Lower, containerRef: string, env: seq<EnvVar>, n: nat): seq<Image>
    requires n <= |env|
  {
    if n == 0 then []
    else if IsRelated(env[n - 1]) then
      MetInEnv(lower, containerRef, env, n - 1)
        + [Image(FormatName(lower, env[n - 1].name), env[n - 1].value, containerRef)]
    else MetInEnv(lower, containerRef, env, n - 1)
  }

  function ContainerRef(d: Deployment, c: Container): string {
    if |d.containers + d.initContainers| > 1 then d.name + "-" + c.name else d.name
  }

  function MetInContainers(lower: Lower, d: Deployment, n: nat): seq<Image>
    requires n <= |d.containers + d.initContainers|
  {
    if n == 0 then []
    else
      var c := (d.containers + d.initContainers)[n - 1];
      MetInContainers(lower, d, n - 1) + MetInEnv(lower, ContainerRef(d, c), c.env, |c.env|)
  }

  function Met(lower: Lower, ds: seq<Deployment>, n: nat): seq<Image>
    requires n <= |ds|
  {
    if n == 0 then []
    else Met(lower, ds, n - 1) +
         MetInContainers(lower, ds[n - 1], |ds[n - 1].containers + ds[n - 1].initContainers|)
  }

  /** A related image whose value is not given directly. */
  ghost predicate Unsupported(env: seq<EnvVar>) {
    exists i :: 0 <= i < |env| && IsRelated(env[i]) && env[i].valueFrom
  }

  ghost predicate UnsupportedIn(d: Deployment) {
    exists k :: 0 <= k < |d.containers + d.initContainers| && Unsupported((d.containers + d.initContainers)[k].env)
  }

  // What the collector holds after them, when it held `images` before.

  ghost function AfterEnv(lower: Lower, images: seq<Image>, containerRef: string, env: seq<EnvVar>, n: nat): seq<Image>
    requires n <= |env|
  {
    if n == 0 then images
    else if IsRelated(env[n - 1]) then
      Collected(AfterEnv(lower, images, containerRef, env, n - 1),
                Image(FormatName(lower, env[n - 1].name), env[n - 1].value, containerRef))
    else AfterEnv(lower, images, containerRef, env, n - 1)
  }

  ghost function AfterContainers(lower: Lower, images: seq<Image>, d: Deployment, n: nat): seq<Image>
    requires n <= |d.containers + d.initContainers|
  {
    if n == 0 then images
    else
      var c := (d.containers + d.initContainers)[n - 1];
      AfterEnv(lower, AfterContainers(lower, images, d, n - 1), ContainerRef(d, c), c.env, |c.env|)
  }

  ghost function AfterDeployments(lower: Lower, ds: seq<Deployment>, n: nat): seq<Image>
    requires n <= |ds|
  {
    if n == 0 then []
    else AfterContainers(lower, AfterDeployments(lower, ds, n - 1), ds[n - 1],
                         |ds[n - 1].containers + ds[n - 1].initContainers|)
  }

  lemma {:induction false} EnvCollects(lower: Lower, met: seq<Image>, containerRef: string, env: seq<EnvVar>, n: nat)
    requires n <= |env|
    ensures AfterEnv(lower, CollectedAll(met), containerRef, env, n)
            == CollectedAll(met + MetInEnv(lower, containerRef, env, n))
  {
    if n == 0 {
      assert met + [] == met;
    } else {
      EnvCollects(lower, met, containerRef, env, n - 1);
      if IsRelated(env[n - 1]) {
        var here, image := MetInEnv(lower, containerRef, env, n - 1),
          Image(FormatName(lower, env[n - 1].name), env[n - 1].value, containerRef);
        CollectedOne(met + here, image);
        Regroup(met, here, [image]);
      }
    }
  }

  lemma CollectedOne(met: seq<Image>, i: Image)
    ensures CollectedAll(met + [i]) == Collected(CollectedAll(met), i)
  {
    assert (met + [i])[..|met|] == met;
  }

  lemma {:induction false} ContainersCollect(lower: Lower, met: seq<Image>, d: Deployment, n: nat)
    requires n <= |d.containers + d.initContainers|
    ensures AfterContainers(lower, CollectedAll(met), d, n) == CollectedAll(met + MetInContainers(lower, d, n))
  {
    if n == 0 {
      assert met + [] == met;
    } else {
      ContainersCollect(lower, met, d, n - 1);
      var c := (d.containers + d.initContainers)[n - 1];
      var ref := ContainerRef(d, c);
      var here, more := MetInContainers(lower, d, n - 1), MetInEnv(lower, ref, c.env, |c.env|);
      EnvCollects(lower, met + here, ref, c.env, |c.env|);
      Regroup(met, here, more);
      assert MetInContainers(lower, d, n) == here + more;
    }
  }

  /** Walking the deployments collects what is met, in that order. */
  lemma {:induction false} WalkCollects(lower: Lower, ds: seq<Deployment>, n: nat)
    requires n <= |ds|
    ensures AfterDeployments(lower, ds, n) == CollectedAll(Met(lower, ds, n))
  {
    if n > 0 {
      WalkCollects(lower, ds, n - 1);
      ContainersCollect(lower, Met(lower, ds, n - 1), ds[n - 1], |ds[n - 1].containers + ds[n - 1].initContainers|);
    }
  }

  /** False: some related image is unsupported. */
  method CollectFromEnvironment(lower: Lower, col: Collector, containerRef: string, env: seq<EnvVar>) returns (ok: bool)
    requires col.Valid()
    modifies col
    ensures col.Valid()
    ensures ok <==> !Unsupported(env)
    ensures ok ==> col.relatedImages == AfterEnv(lower, old(col.relatedImages), containerRef, env, |env|)
  {
    ghost var before := col.relatedImages;
    for i := 0 to |env|
      invariant col.Valid() && col.relatedImages == AfterEnv(lower, before, containerRef, env, i)
      invariant forall k :: 0 <= k < i ==> !(IsRelated(env[k]) && env[k].valueFrom)
    {
      if IsRelated(env[i]) {
        if env[i].valueFrom {
          return false;
        }
        col.Collect(FormatName(lower, env[i].name), env[i].value, containerRef);
      }
    }
    return true;
  }

  method CollectFromDeployment(lower: Lower, col: Collector, d: Deployment) returns (ok: bool)
    requires col.Valid()
    modifies col
    ensures col.Valid()
    ensures ok <==> !UnsupportedIn(d)
    ensures ok ==> col.relatedImages == AfterContainers(lower, old(col.relatedImages), d, |d.containers
                                                        + d.initContainers|)
  {
    ghost var before := col.relatedImages;
    var containers := d.containers + d.initContainers;
    for k := 0 to |containers|
      invariant col.Valid() && col.relatedImages == AfterContainers(lower, before, d, k)
      invariant forall j :: 0 <= j < k ==> !Unsupported(containers[j].env)
    {
      var containerRef := d.name;
      if |containers| > 1 {
        containerRef := d.name + "-" + containers[k].name;
      }
      ok := CollectFromEnvironment(lower, col, containerRef, containers[k].env);
      if !ok {
        return;
      }
    }
    return true;
  }

  method CollectFromDeployments(lower: Lower, col: Collector, ds: seq<Deployment>) returns (ok: bool)
    requires col.Valid() && col.relatedImages == []
    modifies col
    ensures col.Valid()
    ensures ok <==> forall k :: 0 <= k < |ds| ==> !UnsupportedIn(ds[k])
    ensures ok ==> col.relatedImages == CollectedAll(Met(lower, ds, |ds|))
  {
    for k := 0 to |ds|
      invariant col.Valid() && col.relatedImages == AfterDeployments(lower, ds, k)
      invariant forall j :: 0 <= j < k ==> !UnsupportedIn(ds[j])
    {
      ok := CollectFromDeployment(lower, col, ds[k]);
      if !ok {
        return;
      }
    }
    WalkCollects(lower, ds, |ds|);
    return true;
  }

  // ----- What is met, read off the deployments -----

  ghost predicate HasPrefix(v: EnvVar) {
    exists rest :: v.name == "RELATED_IMAGE_" + rest
  }

  /** The rest of the variable's name, underscores turned into dashes, in lower case. */
  ghost predicate IsNameFor(lower: Lower, variable: string, name: string) {
    exists rest, dashed ::
      && variable == "RELATED_IMAGE_" + rest && |dashed| == |rest| && name == lower(dashed)
      && forall i :: 0 <= i < |rest| ==> dashed[i] == if rest[i] == '_' then '-' else rest[i]
  }

  ghost function AsImage(lower: Lower, containerRef: string): (EnvVar, Image) -> bool {
    (v: EnvVar, image: Image) =>
      IsNameFor(lower, v.name, image.name) && image.ref == v.value && image.containerRef == containerRef
  }

  ghost predicate Any<T>(x: T) {
    true
  }

  /** The images of a container's variables; a lone container goes by the deployment's name. */
  ghost function InContainer(lower: Lower, d: Deployment): (Container, seq<Image>) -> bool {
    (c: Container, images: seq<Image>) =>
      var alone := |d.containers| + |d.initContainers| == 1;
      Picked(c.env, HasPrefix, AsImage(lower, if alone then d.name else d.name + "-" + c.name), images)
  }

  /** The images of a deployment's containers, the init containers last. */
  ghost function InDeployment(lower: Lower): (Deployment, seq<Image>) -> bool {
    (d: Deployment, images: seq<Image>) => exists parts: seq<seq<Image>> ::
      Picked(d.containers + d.initContainers, Any, InContainer(lower, d), parts) && images == Flatten(parts)
  }

  /** The images of all deployments, in order. */
  ghost predicate AreMet(lower: Lower, ds: seq<Deployment>, images: seq<Image>) {
    exists parts: seq<seq<Image>> :: Picked(ds, Any, InDeployment(lower), parts) && images == Flatten(parts)
  }

  /** Some related image of the deployment takes its value from elsewhere. */
  ghost predicate HasIndirect(d: Deployment) {
    exists c, v :: c in d.containers + d.initContainers && v in c.env && HasPrefix(v) && v.valueFrom
  }

  lemma PrefixIff(v: EnvVar)
    ensures HasPrefix(v) <==> IsRelated(v)
  {
    if IsRelated(v) {
      assert v.name == "RELATED_IMAGE_" + v.name[|PREFIX|..];
    }
  }

  lemma {:induction false} DashesAt(s: string)
    ensures forall i :: 0 <= i < |s| ==> Dashes(s)[i] == if s[i] == '_' then '-' else s[i]
  {
    if s != [] {
      DashesAt(s[1..]);
      assert forall i :: 0 < i < |s| ==> s[i] == s[1..][i - 1];
    }
  }

  lemma ImageRead(lower: Lower, containerRef: string, v: EnvVar)
    requires IsRelated(v)
    ensures AsImage(lower, containerRef)(v, Image(FormatName(lower, v.name), v.value, containerRef))
  {
    var rest := v.name[|PREFIX|..];
    assert v.name == "RELATED_IMAGE_" + rest;
    DashesAt(rest);
    assert IsNameFor(lower, v.name, lower(Dashes(rest)));
  }

  lemma {:induction false} EnvRead(lower: Lower, containerRef: string, env: seq<EnvVar>, n: nat)
    requires n <= |env|
    ensures Picked(env[..n], HasPrefix, AsImage(lower, containerRef), MetInEnv(lower, containerRef, env, n))
  {
    if n > 0 {
      EnvRead(lower, containerRef, env, n - 1);
      VarRead(lower, containerRef, env[..n - 1], env[n - 1], MetInEnv(lower, containerRef, env, n - 1));
      assert env[..n] == env[..n - 1] + [env[n - 1]];
    }
  }

  lemma VarRead(lower: Lower, containerRef: string, front: seq<EnvVar>, v: EnvVar, images: seq<Image>)
    requires Picked(front, HasPrefix, AsImage(lower, containerRef), images)
    ensures IsRelated(v) ==> Picked(front + [v], HasPrefix, AsImage(lower, containerRef),
                                    images + [Image(FormatName(lower, v.name), v.value, containerRef)])
    ensures !IsRelated(v) ==> Picked(front + [v], HasPrefix, AsImage(lower, containerRef), images)
  {
    PrefixIff(v);
    if IsRelated(v) {
      var image := Image(FormatName(lower, v.name), v.value, containerRef);
      ImageRead(lower, containerRef, v);
      PickedNext(front, v, HasPrefix, AsImage(lower, containerRef), images, image);
    } else {
      PickedNext(front, v, HasPrefix, AsImage(lower, containerRef), images, Image("", "", ""));
    }
  }

  lemma ContainerRead(lower: Lower, d: Deployment, c: Container)
    requires c in d.containers + d.initContainers
    ensures InContainer(lower, d)(c, MetInEnv(lower, ContainerRef(d, c), c.env, |c.env|))
  {
    EnvRead(lower, ContainerRef(d, c), c.env, |c.env|);
    assert c.env[..|c.env|] == c.env;
  }

  lemma AddPart<T(!new)>(s: seq<T>, n: nat, made: (T, seq<Image>) -> bool, parts: seq<seq<Image>>, part: seq<Image>)
    requires 0 < n <= |s| && Picked(s[..n - 1], Any, made, parts) && made(s[n - 1], part)
    ensures Picked(s[..n], Any, made, parts + [part]) && Flatten(parts + [part]) == Flatten(parts) + part
  {
    PickedNext(s[..n - 1], s[n - 1], Any, made, parts, part);
    FlattenSnoc(parts, part);
    assert s[..n] == s[..n - 1] + [s[n - 1]];
  }

  lemma {:induction false} ContainersRead(lower: Lower, d: Deployment, n: nat) returns (parts: seq<seq<Image>>)
    requires n <= |d.containers + d.initContainers|
    ensures Picked((d.containers + d.initContainers)[..n], Any, InContainer(lower, d), parts)
    ensures Flatten(parts) == MetInContainers(lower, d, n)
  {
    parts := [];
    if n > 0 {
      var all := d.containers + d.initContainers;
      var c := all[n - 1];
      var part := MetInEnv(lower, ContainerRef(d, c), c.env, |c.env|);
      parts := ContainersRead(lower, d, n - 1);
      ContainerRead(lower, d, c);
      AddPart(all, n, InContainer(lower, d), parts, part);
      parts := parts + [part];
    }
  }

  lemma DeploymentRead(lower: Lower, d: Deployment)
    ensures InDeployment(lower)(d, MetInContainers(lower, d, |d.containers + d.initContainers|))
  {
    var all := d.containers + d.initContainers;
    var parts := ContainersRead(lower, d, |all|);
    assert all[..|all|] == all;
  }

  lemma {:induction false} MetRead(lower: Lower, ds: seq<Deployment>, n: nat) returns (parts: seq<seq<Image>>)
    requires n <= |ds|
    ensures Picked(ds[..n], Any, InDeployment(lower), parts)
    ensures Flatten(parts) == Met(lower, ds, n)
  {
    parts := [];
    if n > 0 {
      var d := ds[n - 1];
      var part := MetInContainers(lower, d, |d.containers + d.initContainers|);
      parts := MetRead(lower, ds, n - 1);
      DeploymentRead(lower, d);
      AddPart(ds, n, InDeployment(lower), parts, part);
      parts := parts + [part];
    }
  }

  lemma AllMet(lower: Lower, ds: seq<Deployment>)
    ensures AreMet(lower, ds, Met(lower, ds, |ds|))
  {
    var parts := MetRead(lower, ds, |ds|);
    assert ds[..|ds|] == ds;
  }

  lemma AllCollected(met: seq<Image>)
    ensures AreCollected(met, CollectedAll(met))
  {
    var from := CollectedRead(met);
  }

  lemma IndirectIff(d: Deployment)
    ensures HasIndirect(d) <==> UnsupportedIn(d)
  {
    var containers := d.containers + d.initContainers;
    if c, v :| c in containers && v in c.env && HasPrefix(v) && v.valueFrom {
      PrefixIff(v);
      var k :| 0 <= k < |containers| && containers[k] == c;
      var i :| 0 <= i < |c.env| && c.env[i] == v;
      assert Unsupported(containers[k].env);
    }
    if k :| 0 <= k < |containers| && Unsupported(containers[k].env) {
      var i :| 0 <= i < |containers[k].env| && IsRelated(containers[k].env[i]) && containers[k].env[i].valueFrom;
      PrefixIff(containers[k].env[i]);
      assert containers[k] in containers && containers[k].env[i] in containers[k].env;
    }
  }

  /** The final list of what is met first under each key. */
  ghost predicate IsRelatedList(lower: Lower, ds: seq<Deployment>, final: seq<RelatedImage>) {
    exists met, images :: AreMet(lower, ds, met) && AreCollected(met, images) && IsFinal(images, final)
  }

  lemma ListRead(lower: Lower, ds: seq<Deployment>)
    requires DistinctPairs(CollectedAll(Met(lower, ds, |ds|)))
    ensures IsRelatedList(lower, ds, Final(CollectedAll(Met(lower, ds, |ds|))))
  {
    var met := Met(lower, ds, |ds|);
    AllMet(lower, ds);
    AllCollected(met);
    FinalRead(CollectedAll(met));
  }

  method FindRelatedImages(lower: Lower, ds: seq<Deployment>) returns (r: Option<seq<RelatedImage>>)
    ensures r.None? <==> exists d :: d in ds && HasIndirect(d)
    ensures r.Some? ==> IsRelatedList(lower, ds, r.value)
  {
    forall d
      ensures HasIndirect(d) <==> UnsupportedIn(d)
    {
      IndirectIff(d);
    }
    var col := new Collector();
    var ok := CollectFromDeployments(lower, col, ds);
    if !ok {
      return None;
    }
    var final := col.CollectedRelatedImages();
    ListRead(lower, ds);
    return Some(final);
  }
}
