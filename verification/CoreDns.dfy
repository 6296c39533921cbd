/**
 The CoreDNS upgrade of a workload cluster: two config map updates and two deployment patches, any of which may be the
 last write of an attempt. What an image can load is a parameter (`fits`), and so is the migration library (`migrate`).
 */
module CoreDns {
  import opened Options

  const COREFILE := "Corefile"
  const BACKUP := "Corefile-backup"
  const COREDNS := "coredns"
  const VOLUME := "config-volume"

  datatype Item = Item(key: string, path: string)

  datatype Source = Source(name: string, items: seq<Item>)

  datatype Volume = Volume(name: string, configMap: Option<Source>)

  datatype Container = Container(name: string, image: string)

  datatype Toleration = Toleration(key: string, operator: string, value: string, effect: string)

  datatype Spec = Spec(containers: seq<Container>, volumes: seq<Volume>, tolerations: seq<Toleration>)

  // ---- the three patches ----

  predicate CoreDnsVolume(v: Volume)
  {
    v.name == VOLUME && v.configMap.Some? && v.configMap.value.name == COREDNS
  }

  function PatchItem(i: Item, fromKey: string, toKey: string): Item
  {
    if i.key == fromKey || i.key == toKey then i.(key := toKey) else i
  }

  function PatchVolume(v: Volume, fromKey: string, toKey: string): Volume
  {
    if CoreDnsVolume(v) then
      var items := v.configMap.value.items;
      v.(configMap := Some(v.configMap.value.(items :=
        seq(|items|, i requires 0 <= i < |items| => PatchItem(items[i], fromKey, toKey)))))
    else v
  }

  function PatchVolumes(vs: seq<Volume>, fromKey: string, toKey: string): (r: seq<Volume>)
    ensures |r| == |vs| && forall i | 0 <= i < |vs| :: r[i] == PatchVolume(vs[i], fromKey, toKey)
  {
    seq(|vs|, i requires 0 <= i < |vs| => PatchVolume(vs[i], fromKey, toKey))
  }

  function PatchImages(cs: seq<Container>, image: string): (r: seq<Container>)
    ensures |r| == |cs|
    ensures forall i | 0 <= i < |cs| :: r[i] == if cs[i].name == COREDNS then cs[i].(image := image) else cs[i]
  {
    seq(|cs|, i requires 0 <= i < |cs| => if cs[i].name == COREDNS then cs[i].(image := image) else cs[i])
  }

  const NEW_TAINT := "node-role.kubernetes.io/control-plane"
  const OLD_TAINT := "node-role.kubernetes.io/master"

  predicate ControlPlane(t: Toleration)
  {
    (t.key == OLD_TAINT || t.key == NEW_TAINT) && t.effect == "NoSchedule" && t.value == ""
  }

  function Others(ts: seq<Toleration>): seq<Toleration>
  {
    if ts == [] then []
    else
      var rest := Others(ts[..|ts| - 1]);
      if ControlPlane(ts[|ts| - 1]) then rest else rest + [ts[|ts| - 1]]
  }

  function Standard(before126: bool): seq<Toleration>
  {
    [Toleration(NEW_TAINT, "", "", "NoSchedule")]
    + if before126 then [Toleration(OLD_TAINT, "", "", "NoSchedule")] else []
  }

  /** The deployment object that the upgrade edits in place before each patch request. */
  class Deployment {
    var spec: Spec

    constructor (s: Spec)
      ensures spec == s
    {
      spec := s;
    }

    method PatchVolumeKeys(fromKey: string, toKey: string)
      modifies this
      ensures spec == old(spec).(volumes := PatchVolumes(old(spec.volumes), fromKey, toKey))
    {
      var vs := spec.volumes;
      for i := 0 to |vs|
        invariant |spec.volumes| == |vs| && spec == old(spec).(volumes := spec.volumes)
        invariant forall j | 0 <= j < i :: spec.volumes[j] == PatchVolume(vs[j], fromKey, toKey)
        invariant forall j | i <= j < |vs| :: spec.volumes[j] == vs[j]
      {
        if CoreDnsVolume(vs[i]) {
          var items := PatchItems(vs[i].configMap.value.items, fromKey, toKey);
          var v := vs[i].(configMap := Some(vs[i].configMap.value.(items := items)));
          assert v == PatchVolume(vs[i], fromKey, toKey);
          spec := spec.(volumes := spec.volumes[i := v]);
        }
      }
    }

    method PatchImage(image: string)
      modifies this
      ensures spec == old(spec).(containers := PatchImages(old(spec.containers), image))
    {
      var cs := spec.containers;
      for i := 0 to |cs|
        invariant |spec.containers| == |cs| && spec == old(spec).(containers := spec.containers)
        invariant forall j | 0 <= j < i :: spec.containers[j] == PatchImages(cs, image)[j]
        invariant forall j | i <= j < |cs| :: spec.containers[j] == cs[j]
      {
        if cs[i].name == COREDNS {
          spec := spec.(containers := spec.containers[i := cs[i].(image := image)]);
        }
      }
    }

    method PatchTolerations(before126: bool)
      modifies this
      ensures spec == old(spec).(tolerations := Standard(before126) + Others(old(spec.tolerations)))
    {
      var ts, all := Standard(before126), spec.tolerations;
      for i := 0 to |all|
        invariant ts == Standard(before126) + Others(all[..i])
      {
        assert all[..i + 1][..i] == all[..i];
        if !ControlPlane(all[i]) {
          ts := ts + [all[i]];
        }
      }
      assert all[..|all|] == all;
      spec := spec.(tolerations := ts);
    }
  }

  method PatchItems(items: seq<Item>, fromKey: string, toKey: string) returns (r: seq<Item>)
    ensures r == seq(|items|, i requires 0 <= i < |items| => PatchItem(items[i], fromKey, toKey))
  {
    r := items;
    for i := 0 to |items|
      invariant |r| == |items|
      invariant forall j | 0 <= j < i :: r[j] == PatchItem(items[j], fromKey, toKey)
      invariant forall j | i <= j < |items| :: r[j] == items[j]
    {
      if items[i].key == fromKey || items[i].key == toKey {
        r := r[i := items[i].(key := toKey)];
      }
    }
  }

  /** Patching tolerations keeps every other toleration in order, and a second patch changes nothing. */
  lemma TolerationsStable(ts: seq<Toleration>, before126: bool)
    ensures var r := Standard(before126) + Others(ts);
            Others(r) == Others(ts) && Standard(before126) + Others(r) == r
    ensures forall t | t in Others(ts) :: t in ts && !ControlPlane(t)
  {
    OthersDrops(Standard(before126), Others(ts));
    OthersOf(ts);
    OthersIdentity(Others(ts));
  }

  /** After the patch the control-plane taint is tolerated, the old one exactly before version 1.26, and besides these
      exactly the tolerations that name neither taint that way. */
  lemma TolerationsExactly(ts: seq<Toleration>, before126: bool, t: Toleration)
    ensures t in Standard(before126) + Others(ts) <==>
              || t == Toleration("node-role.kubernetes.io/control-plane", "", "", "NoSchedule")
              || (before126 && t == Toleration("node-role.kubernetes.io/master", "", "", "NoSchedule"))
              || (t in ts && !(t.key in {OLD_TAINT, NEW_TAINT} && t.effect == "NoSchedule" && t.value == ""))
  {
    OthersOf(ts);
    OthersKeeps(ts, t);
  }

  lemma {:induction false} OthersKeeps(ts: seq<Toleration>, t: Toleration)
    ensures t in ts && !ControlPlane(t) ==> t in Others(ts)
  {
    if ts != [] {
      OthersKeeps(ts[..|ts| - 1], t);
    }
  }

  lemma {:induction false} OthersOf(ts: seq<Toleration>)
    ensures forall t | t in Others(ts) :: t in ts && !ControlPlane(t)
  {
    if ts != [] {
      OthersOf(ts[..|ts| - 1]);
    }
  }

  lemma {:induction false} OthersIdentity(ts: seq<Toleration>)
    requires forall t | t in ts :: !ControlPlane(t)
    ensures Others(ts) == ts
  {
    if ts != [] {
      OthersIdentity(ts[..|ts| - 1]);
      assert ts == ts[..|ts| - 1] + [ts[|ts| - 1]];
    }
  }

  lemma {:induction false} OthersDrops(a: seq<Toleration>, b: seq<Toleration>)
    requires forall t | t in a :: ControlPlane(t)
    ensures Others(a + b) == Others(b)
  {
    if b != [] {
      assert (a + b)[..|a + b| - 1] == a + b[..|b| - 1];
      OthersDrops(a, b[..|b| - 1]);
    } else if a != [] {
      assert a + b == a && a[..|a| - 1] + b == a[..|a| - 1];
      OthersDrops(a[..|a| - 1], b);
    }
  }

  // ---- one attempt ----

  datatype Cluster = Cluster(config: map<string, string>, spec: Spec)

  /** What one call of the update was asked for; `stop` is the number of its writes that reach the cluster. */
  datatype Attempt = Attempt(toImage: string, tagValid: bool, before126: bool, stop: nat)

  type Migrate = (string, string, string) -> Option<string>

  /** The image of the first container named coredns. */
  function FromImage(cs: seq<Container>): (r: Option<string>)
    ensures r.Some? ==> exists c :: c in cs && c.name == COREDNS && c.image == r.value
    ensures r.None? ==> forall c | c in cs :: c.name != COREDNS
  {
    if cs == [] then None else if cs[0].name == COREDNS then Some(cs[0].image) else FromImage(cs[1..])
  }

  /** The migrated file, when the attempt gets as far as writing. */
  function Migrated(c: Cluster, a: Attempt, migrate: Migrate): Option<string>
  {
    var image := FromImage(c.spec.containers);
    if COREFILE !in c.config || image.None? || image.value == a.toImage || !a.tagValid then None
    else migrate(image.value, a.toImage, c.config[COREFILE])
  }

  /** The cluster after the first `n` of the four writes. */
  function Written(c: Cluster, a: Attempt, updated: string, n: nat): Cluster
    requires COREFILE in c.config
  {
    var file := c.config[COREFILE];
    if n == 0 then c
    else if n == 1 then Cluster(map[COREFILE := file, BACKUP := file], c.spec)
    else
      var onBackup := c.spec.(volumes := PatchVolumes(c.spec.volumes, COREFILE, BACKUP));
      if n == 2 then Cluster(map[COREFILE := file, BACKUP := file], onBackup)
      else if n == 3 then Cluster(map[COREFILE := updated, BACKUP := file], onBackup)
      else Cluster(map[COREFILE := updated, BACKUP := file],
                   Spec(PatchImages(c.spec.containers, a.toImage),
                        PatchVolumes(onBackup.volumes, BACKUP, COREFILE),
                        Standard(a.before126) + Others(c.spec.tolerations)))
  }

  function UpdateCoreDns(c: Cluster, a: Attempt, migrate: Migrate): Cluster
  {
    match Migrated(c, a, migrate)
    case None => c
    case Some(updated) => Written(c, a, updated, a.stop)
  }

  /** The first container named coredns. */
  ghost predicate FirstNamed(cs: seq<Container>, i: nat)
  {
    i < |cs| && cs[i].name == COREDNS && forall j | 0 <= j < i :: cs[j].name != COREDNS
  }

  lemma {:induction false} FromImageIs(cs: seq<Container>, i: nat)
    requires FirstNamed(cs, i)
    ensures FromImage(cs) == Some(cs[i].image)
  {
    if i > 0 {
      assert FirstNamed(cs[1..], i - 1);
      FromImageIs(cs[1..], i - 1);
    }
  }

  lemma {:induction false} SomeNamed(cs: seq<Container>) returns (i: nat)
    requires FromImage(cs).Some?
    ensures FirstNamed(cs, i)
  {
    if cs[0].name == COREDNS {
      i := 0;
    } else {
      i := SomeNamed(cs[1..]);
      i := i + 1;
    }
  }

  /** There is no Corefile, no CoreDNS container or no valid tag, the image runs already, or its file cannot be
      migrated. */
  ghost predicate Skips(c: Cluster, a: Attempt, migrate: Migrate)
  {
    || COREFILE !in c.config || !a.tagValid
    || (forall x | x in c.spec.containers :: x.name != COREDNS)
    || exists i: nat :: FirstNamed(c.spec.containers, i)
          && (c.spec.containers[i].image == a.toImage
              || migrate(c.spec.containers[i].image, a.toImage, c.config[COREFILE]).None?)
  }

  lemma SkipsExactly(c: Cluster, a: Attempt, migrate: Migrate)
    ensures Migrated(c, a, migrate).None? <==> Skips(c, a, migrate)
  {
    if FromImage(c.spec.containers).Some? {
      var i := SomeNamed(c.spec.containers);
      FromImageIs(c.spec.containers, i);
      forall k: nat | FirstNamed(c.spec.containers, k)
        ensures k == i
      {}
    }
  }

  /** Such an attempt writes nothing; any other that is not cut off before its first write changes the cluster unless
      the backup is there already, and one that is not cut off at all always does. */
  lemma UpdateExactly(c: Cluster, a: Attempt, migrate: Migrate)
    ensures Skips(c, a, migrate) ==> UpdateCoreDns(c, a, migrate) == c
    ensures !Skips(c, a, migrate) && a.stop > 0 ==>
              && COREFILE in c.config && BACKUP in UpdateCoreDns(c, a, migrate).config
              && UpdateCoreDns(c, a, migrate).config[BACKUP] == c.config[COREFILE]
    ensures !Skips(c, a, migrate) && a.stop >= 4 ==> UpdateCoreDns(c, a, migrate) != c
  {
    SkipsExactly(c, a, migrate);
    hide Skips;
    if !Skips(c, a, migrate) && a.stop >= 4 {
      var i := SomeNamed(c.spec.containers);
      FromImageIs(c.spec.containers, i);
      assert PatchImages(c.spec.containers, a.toImage)[i].image == a.toImage;
    }
  }

  // ---- what the pods of the deployment load ----

  ghost predicate Mounts(v: Volume, key: string)
  {
    CoreDnsVolume(v) && exists i :: 0 <= i < |v.configMap.value.items| && v.configMap.value.items[i].key == key
  }

  /** The deployment mounts the file under this key. */
  ghost predicate Mounted(spec: Spec, key: string)
  {
    key in {COREFILE, BACKUP} && exists i :: 0 <= i < |spec.volumes| && Mounts(spec.volumes[i], key)
  }

  ghost predicate Runs(spec: Spec, image: string)
  {
    exists i :: 0 <= i < |spec.containers| && spec.containers[i].name == COREDNS && spec.containers[i].image == image
  }

  ghost predicate Loads(spec: Spec, file: string, fits: (string, string) -> bool)
  {
    forall image | Runs(spec, image) :: fits(image, file)
  }

  /** Every mounted Corefile exists and every running CoreDNS image can load it. */
  ghost predicate Healthy(c: Cluster, fits: (string, string) -> bool)
  {
    forall key | Mounted(c.spec, key) :: key in c.config && Loads(c.spec, c.config[key], fits)
  }

  /** What is demanded of the migration library: a file the old image loads becomes one the new image loads. */
  ghost predicate Migrates(migrate: Migrate, fits: (string, string) -> bool)
  {
    forall i, j, f | fits(i, f) && migrate(i, j, f).Some? :: fits(j, migrate(i, j, f).value)
  }

  lemma VolumePatched(v: Volume, a: string, b: string, key: string)
    requires a != b
    ensures Mounts(PatchVolume(v, a, b), key) <==>
              if key == b then Mounts(v, a) || Mounts(v, b) else key != a && Mounts(v, key)
  {
    var w := PatchVolume(v, a, b);
    if CoreDnsVolume(v) {
      var s, t := v.configMap.value.items, w.configMap.value.items;
      assert forall i | 0 <= i < |s| :: t[i] == PatchItem(s[i], a, b);
      assert forall i | 0 <= i < |s| :: t[i].key == key <==>
        if key == b then s[i].key == a || s[i].key == b else key != a && s[i].key == key;
    }
  }

  /** Patching the volume key moves the mounts of either Corefile key to the new one. */
  lemma MountedPatched(spec: Spec, a: string, b: string, key: string)
    requires {a, b} == {COREFILE, BACKUP} && a != b
    ensures Mounted(spec.(volumes := PatchVolumes(spec.volumes, a, b)), key) <==>
              key == b && (Mounted(spec, a) || Mounted(spec, b))
  {
    hide PatchVolume, Mounts;
    var vs, ws := spec.volumes, PatchVolumes(spec.volumes, a, b);
    assert key in {a, b} <==> key in {COREFILE, BACKUP};
    assert a in {a, b} && b in {a, b};
    forall i | 0 <= i < |vs|
      ensures Mounts(ws[i], b) <==> Mounts(vs[i], a) || Mounts(vs[i], b)
      ensures !Mounts(ws[i], a)
    {
      VolumePatched(vs[i], a, b, b);
      VolumePatched(vs[i], a, b, a);
    }
  }

  lemma RunsPatched(spec: Spec, toImage: string, image: string)
    requires FromImage(spec.containers).Some?
    ensures Runs(spec.(containers := PatchImages(spec.containers, toImage)), image) <==> image == toImage
  {
    var cs := spec.containers;
    var c :| c in cs && c.name == COREDNS;
    var i :| 0 <= i < |cs| && cs[i] == c;
    assert PatchImages(cs, toImage)[i].image == toImage;
  }

  /** The mounts and images after each write. */
  lemma WrittenMeaning(c: Cluster, a: Attempt, updated: string, n: nat, key: string, image: string)
    requires COREFILE in c.config && FromImage(c.spec.containers).Some? && n > 0
    ensures var w := Written(c, a, updated, n);
            && w.config == map[COREFILE := if n <= 2 then c.config[COREFILE] else updated, BACKUP := c.config[COREFILE]]
            && (Mounted(w.spec, key) <==>
                  if n == 1 then Mounted(c.spec, key)
                  else key == (if n <= 3 then BACKUP else COREFILE)
                       && (Mounted(c.spec, COREFILE) || Mounted(c.spec, BACKUP)))
            && (Runs(w.spec, image) <==> if n <= 3 then Runs(c.spec, image) else image == a.toImage)
  {
    hide Mounted;
    hide PatchVolumes;
    hide PatchImages;
    if n >= 2 {
      var onBackup := c.spec.(volumes := PatchVolumes(c.spec.volumes, COREFILE, BACKUP));
      MountedPatched(c.spec, COREFILE, BACKUP, key);
      MountedPatched(c.spec, COREFILE, BACKUP, COREFILE);
      MountedPatched(c.spec, COREFILE, BACKUP, BACKUP);
      MountedPatched(onBackup, BACKUP, COREFILE, key);
      RunsPatched(c.spec, a.toImage, image);
      if n >= 4 {
        var w := Written(c, a, updated, n).spec;
        SameMounts(w, onBackup.(volumes := PatchVolumes(onBackup.volumes, BACKUP, COREFILE)), key);
      }
    }
  }

  lemma SameMounts(a: Spec, b: Spec, key: string)
    requires a.volumes == b.volumes
    ensures Mounted(a, key) <==> Mounted(b, key)
  {
  }

  /** The file every mount shows after `n` writes. */
  lemma WrittenHealthy(c: Cluster, a: Attempt, updated: string, n: nat, fits: (string, string) -> bool)
    requires COREFILE in c.config && FromImage(c.spec.containers).Some? && n > 0
    ensures Mounted(c.spec, COREFILE) || Mounted(c.spec, BACKUP) ==>
              (Healthy(Written(c, a, updated, n), fits) <==>
                 if n <= 3 then Loads(c.spec, c.config[COREFILE], fits) else fits(a.toImage, updated))
    ensures !Mounted(c.spec, COREFILE) && !Mounted(c.spec, BACKUP) ==> Healthy(Written(c, a, updated, n), fits)
  {
    hide Written, FromImage;
    var w := Written(c, a, updated, n);
    forall key
      ensures Mounted(w.spec, key) <==>
                if n == 1 then Mounted(c.spec, key)
                else key == (if n <= 3 then BACKUP else COREFILE)
                     && (Mounted(c.spec, COREFILE) || Mounted(c.spec, BACKUP))
    {
      WrittenMeaning(c, a, updated, n, key, a.toImage);
    }
    forall image
      ensures Runs(w.spec, image) <==> if n <= 3 then Runs(c.spec, image) else image == a.toImage
    {
      WrittenMeaning(c, a, updated, n, COREFILE, image);
    }
    WrittenMeaning(c, a, updated, n, COREFILE, a.toImage);
    WrittenMeaning(c, a, updated, n, BACKUP, a.toImage);
    hide Mounted, Runs;
    assert forall file ::
        Loads(w.spec, file, fits) <==> if n <= 3 then Loads(c.spec, file, fits) else fits(a.toImage, file)
    by {
      forall file
        ensures Loads(w.spec, file, fits) <==> if n <= 3 then Loads(c.spec, file, fits) else fits(a.toImage, file)
      {
        if n > 3 { assert Runs(w.spec, a.toImage); }
      }
    }
  }

  // ---- attempts ----

  /** The config map's Corefile is one the running images can load, and so is every mounted file. */
  ghost predicate Ready(c: Cluster, fits: (string, string) -> bool)
  {
    COREFILE in c.config && Healthy(c, fits) && Loads(c.spec, c.config[COREFILE], fits)
  }

  /** Wherever an attempt that writes is cut off, the deployment mounts a file its images can load: exactly when that
      holds at the start and also holds of the Corefile entry, mounted or not. */
  lemma SafeAtEveryStop(c: Cluster, a: Attempt, migrate: Migrate, fits: (string, string) -> bool)
    requires Migrates(migrate, fits) && Migrated(c, a, migrate).Some?
    requires Mounted(c.spec, COREFILE) || Mounted(c.spec, BACKUP)
    ensures (forall n: nat :: Healthy(UpdateCoreDns(c, a.(stop := n), migrate), fits)) <==> Ready(c, fits)
  {
    hide Mounted, Healthy, Written;
    var updated := Migrated(c, a, migrate).value;
    forall n: nat
      ensures UpdateCoreDns(c, a.(stop := n), migrate) == Written(c, a, updated, n)
      ensures Ready(c, fits) ==> Healthy(Written(c, a, updated, n), fits)
    {
      StopIrrelevant(c, a, updated, n);
      if n > 0 {
        WrittenHealthy(c, a, updated, n, fits);
        FromImageRuns(c.spec);
      }
    }
    WrittenHealthy(c, a, updated, 1, fits);
    StopIrrelevant(c, a, updated, 0);
    assert UpdateCoreDns(c, a.(stop := 0), migrate) == c;
    assert UpdateCoreDns(c, a.(stop := 1), migrate) == Written(c, a, updated, 1);
  }

  lemma StopIrrelevant(c: Cluster, a: Attempt, updated: string, n: nat)
    requires COREFILE in c.config
    ensures Written(c, a.(stop := n), updated, n) == Written(c, a, updated, n)
    ensures Written(c, a, updated, 0) == c
  {
  }

  lemma FromImageRuns(spec: Spec)
    requires FromImage(spec.containers).Some?
    ensures Runs(spec, FromImage(spec.containers).value)
  {
  }

  /** An attempt that completes runs only the target image, mounts only the migrated Corefile, and keeps the old one. */
  lemma CompletedMeaning(c: Cluster, a: Attempt, migrate: Migrate)
    requires Migrated(c, a, migrate).Some? && a.stop >= 4
    ensures var w := UpdateCoreDns(c, a, migrate);
            && w.config == map[COREFILE := Migrated(c, a, migrate).value, BACKUP := c.config[COREFILE]]
            && (forall image :: Runs(w.spec, image) <==> image == a.toImage)
            && (forall key :: Mounted(w.spec, key) <==>
                  key == COREFILE && (Mounted(c.spec, COREFILE) || Mounted(c.spec, BACKUP)))
            && Others(w.spec.tolerations) == Others(c.spec.tolerations)
  {
    var updated := Migrated(c, a, migrate).value;
    var w := Written(c, a, updated, a.stop);
    forall key
      ensures Mounted(w.spec, key) <==> key == COREFILE && (Mounted(c.spec, COREFILE) || Mounted(c.spec, BACKUP))
    {
      WrittenMeaning(c, a, updated, a.stop, key, a.toImage);
    }
    forall image
      ensures Runs(w.spec, image) <==> image == a.toImage
    {
      WrittenMeaning(c, a, updated, a.stop, COREFILE, image);
    }
    TolerationsStable(c.spec.tolerations, a.before126);
  }

  function Run(c: Cluster, attempts: seq<Attempt>, migrate: Migrate): Cluster
  {
    if attempts == [] then c
    else UpdateCoreDns(Run(c, attempts[..|attempts| - 1], migrate), attempts[|attempts| - 1], migrate)
  }

  /** Unless it is cut off right between the second config map update and the last deployment patch, an attempt leaves
      the cluster ready for the next one. */
  lemma AttemptKeepsReady(c: Cluster, a: Attempt, migrate: Migrate, fits: (string, string) -> bool)
    requires Migrates(migrate, fits) && Ready(c, fits)
    ensures Healthy(UpdateCoreDns(c, a, migrate), fits)
    ensures a.stop != 3 ==> Ready(UpdateCoreDns(c, a, migrate), fits)
  {
    if Migrated(c, a, migrate).Some? && a.stop > 0 {
      var updated := Migrated(c, a, migrate).value;
      var w := Written(c, a, updated, a.stop);
      WrittenHealthy(c, a, updated, a.stop, fits);
      FromImageRuns(c.spec);
      assert fits(a.toImage, updated);
      forall image
        ensures Runs(w.spec, image) <==> if a.stop <= 3 then Runs(c.spec, image) else image == a.toImage
        ensures w.config[COREFILE] == if a.stop <= 2 then c.config[COREFILE] else updated
      {
        WrittenMeaning(c, a, updated, a.stop, COREFILE, image);
      }
      hide Written, Runs, Mounted, Healthy, Migrated;
    }
  }

  /** So over any attempts of which only the last is cut off there, CoreDNS always has a file it can load. */
  lemma {:induction false} RunHealthy(c: Cluster, attempts: seq<Attempt>, migrate: Migrate,
                                      fits: (string, string) -> bool)
    requires Migrates(migrate, fits) && Ready(c, fits)
    requires forall k | 0 <= k < |attempts| - 1 :: attempts[k].stop != 3
    ensures Healthy(Run(c, attempts, migrate), fits)
    ensures attempts == [] || attempts[|attempts| - 1].stop != 3 ==> Ready(Run(c, attempts, migrate), fits)
  {
    if attempts != [] {
      var n := |attempts| - 1;
      hide Healthy, Ready, UpdateCoreDns;
      assert forall k | 0 <= k < n :: attempts[..n][k] == attempts[k];
      RunHealthy(c, attempts[..n], migrate, fits);
      AttemptKeepsReady(Run(c, attempts[..n], migrate), attempts[n], migrate, fits);
    }
  }

  /** After a cut-off there, the next attempt takes the migrated file for the original: it is safe wherever it stops
      exactly when the old images can load the migrated file too. */
  lemma RerunSafeIff(c: Cluster, a: Attempt, b: Attempt, migrate: Migrate, fits: (string, string) -> bool)
    requires Migrates(migrate, fits) && Ready(c, fits) && a.stop == 3 && Migrated(c, a, migrate).Some?
    requires Mounted(c.spec, COREFILE) || Mounted(c.spec, BACKUP)
    requires Migrated(UpdateCoreDns(c, a, migrate), b, migrate).Some?
    ensures (forall n: nat :: Healthy(UpdateCoreDns(UpdateCoreDns(c, a, migrate), b.(stop := n), migrate), fits)) <==>
              Loads(c.spec, Migrated(c, a, migrate).value, fits)
  {
    var updated, w := Migrated(c, a, migrate).value, UpdateCoreDns(c, a, migrate);
    assert w == Written(c, a, updated, 3);
    WrittenMeaning(c, a, updated, 3, BACKUP, a.toImage);
    AttemptKeepsReady(c, a, migrate, fits);
    assert Ready(w, fits) <==> Loads(c.spec, updated, fits) by {
      forall image
        ensures Runs(w.spec, image) <==> Runs(c.spec, image)
      {
        WrittenMeaning(c, a, updated, 3, COREFILE, image);
      }
      hide Runs, Healthy, Mounted, Written;
    }
    SafeAtEveryStop(w, b, migrate, fits);
  }

  /** Two images that each load only their own file, and a migration that rewrites the file for its target. */
  predicate Own(image: string, file: string)
  {
    image == file
  }

  function Rewrite(from: string, to: string, file: string): Option<string>
  {
    Some(to)
  }

  /** There a second attempt after the cut-off leaves the old image with the new file. */
  lemma RerunBreaks()
    ensures Migrates(Rewrite, Own)
    ensures var volume := Volume(VOLUME, Some(Source(COREDNS, [Item(COREFILE, "p")])));
            var spec := Spec([Container(COREDNS, "r/coredns:1.8.6")], [volume], []);
            var c := Cluster(map[COREFILE := "r/coredns:1.8.6"], spec);
            var cut := Attempt("r/coredns:1.9.3", true, true, 3);
            && Ready(c, Own) && Healthy(UpdateCoreDns(c, cut, Rewrite), Own)
            && !Healthy(UpdateCoreDns(UpdateCoreDns(c, cut, Rewrite), cut.(stop := 1), Rewrite), Own)
  {
    var from, to := "r/coredns:1.8.6", "r/coredns:1.9.3";
    assert from[|from| - 1] != to[|to| - 1];
    var volume := Volume(VOLUME, Some(Source(COREDNS, [Item(COREFILE, "p")])));
    var spec := Spec([Container(COREDNS, from)], [volume], []);
    var c, cut := Cluster(map[COREFILE := from], spec), Attempt(to, true, true, 3);
    assert spec.containers[0].image == from && Runs(spec, from);
    assert volume.configMap.value.items[0].key == COREFILE;
    assert Mounts(spec.volumes[0], COREFILE) && Mounted(spec, COREFILE);
    assert forall image | Runs(spec, image) :: image == from;
    OnlyCorefile(spec, "p");
    assert Ready(c, Own);
    AttemptKeepsReady(c, cut, Rewrite, Own);
    var w := UpdateCoreDns(c, cut, Rewrite);
    assert w == Written(c, cut, to, 3);
    WrittenMeaning(c, cut, to, 3, BACKUP, from);
    assert w.spec.containers == spec.containers;
    assert Migrated(w, cut, Rewrite) == Some(to);
    WrittenHealthy(w, cut.(stop := 1), to, 1, Own);
    assert !Loads(w.spec, to, Own);
  }

  lemma OnlyCorefile(spec: Spec, path: string)
    requires spec.volumes == [Volume(VOLUME, Some(Source(COREDNS, [Item(COREFILE, path)])))]
    ensures forall key | Mounted(spec, key) :: key == COREFILE
  {
  }

  // ---- the calls themselves ----

  /** The workload cluster's API server; `left` writes still reach it. */
  class Api {
    var cluster: Cluster
    var left: nat

    constructor (c: Cluster, n: nat)
      ensures cluster == c && left == n
    {
      cluster, left := c, n;
    }

    method UpdateConfig(corefile: string, backup: string) returns (ok: bool)
      modifies this
      ensures ok == (old(left) > 0) && left == (if ok then old(left) - 1 else 0)
      ensures cluster == if ok then old(cluster).(config := map[COREFILE := corefile, BACKUP := backup])
                         else old(cluster)
    {
      ok := left > 0;
      if ok {
        cluster, left := cluster.(config := map[COREFILE := corefile, BACKUP := backup]), left - 1;
      }
    }

    method Patch(d: Deployment) returns (ok: bool)
      modifies this
      ensures ok == (old(left) > 0) && left == (if ok then old(left) - 1 else 0)
      ensures cluster == if ok then old(cluster).(spec := d.spec) else old(cluster)
    {
      ok := left > 0;
      if ok {
        cluster, left := cluster.(spec := d.spec), left - 1;
      }
    }

    /** Migration first, then the writes in order, each only after the one before. */
    method Update(a: Attempt, migrate: Migrate)
      requires left == a.stop
      modifies this
      ensures cluster == UpdateCoreDns(old(cluster), a, migrate)
    {
      var updated := Migrated(cluster, a, migrate);
      if updated.None? {
        return;
      }
      var file := cluster.config[COREFILE];
      var d := new Deployment(cluster.spec);
      var ok := UpdateConfig(file, file);
      if !ok {
        return;
      }
      d.PatchVolumeKeys(COREFILE, BACKUP);
      ok := Patch(d);
      if !ok {
        return;
      }
      ok := UpdateConfig(updated.value, file);
      if !ok {
        return;
      }
      d.PatchImage(a.toImage);
      d.PatchVolumeKeys(BACKUP, COREFILE);
      d.PatchTolerations(a.before126);
      ok := Patch(d);
    }
  }
}
