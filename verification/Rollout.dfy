/**
 Which control-plane machines match the control plane's spec. The comparison rewrites the machine config it
 reads; both the rollout selector and the up-to-date selector run it.
 */
module Rollout {
  import opened Options

  /** Opaque parts of a configuration; "" is the zero value. */
  type Blob = string

  datatype Init = Init(typeMeta: Blob, rest: Blob)

  datatype Join = Join(typeMeta: Blob, nodeRegistration: Blob, discovery: Blob, controlPlane: Option<Blob>, rest: Blob)

  /** OCNEConfigSpec; `rest` stands for files, mounts, users and the like. */
  datatype Spec = Spec(clusterConfig: Option<Blob>, init: Option<Init>, join: Option<Join>, format: string, rest: Blob)

  datatype Meta = Meta(labels: map<string, string>, annotations: map<string, string>)

  datatype Machine = Machine(
    name: string, meta: Meta, version: Option<string>, creation: int, deleting: bool,
    certificatesExpiry: Option<int>, hasConfigRef: bool)

  datatype Kcp = Kcp(
    name: string, version: string, config: Spec, template: Meta, infraName: string, infraGroupKind: string,
    rolloutAfter: Option<int>, certificatesExpiryDays: Option<int>)

  const CLOUD_CONFIG := "cloud-config"
  const CLUSTER_CONFIG_ANNOTATION := "controlplane.cluster.x-k8s.io/ocne-cluster-configuration"
  const CLONED_FROM_NAME := "cluster.x-k8s.io/cloned-from-name"
  const CLONED_FROM_GROUP_KIND := "cluster.x-k8s.io/cloned-from-groupkind"
  const CLUSTER_LABEL := "cluster.x-k8s.io/cluster-name"
  const CONTROL_PLANE_LABEL := "cluster.x-k8s.io/control-plane"
  const CONTROL_PLANE_NAME_LABEL := "cluster.x-k8s.io/control-plane-name"
  const NANOS_PER_DAY := 86_400_000_000_000

  /** Times are in nanoseconds; a duration is a signed 64-bit number of them. */
  function Duration(nanos: int): int
  {
    (nanos + 0x8000_0000_0000_0000) % 0x1_0000_0000_0000_0000 - 0x8000_0000_0000_0000
  }

  // ---- comparing the configs ----

  function Defaulted(s: Spec): Spec
  {
    if s.format == "" then s.(format := CLOUD_CONFIG) else s
  }

  /** The control plane's config without the section the machine does not have. */
  function Adjusted(kcp: Spec, machine: Spec): Spec
  {
    var a := if machine.join.None? then kcp.(join := None) else kcp;
    if machine.init.None? then a.(init := None) else a
  }

  function CleanKcp(k: Spec): Spec
  {
    k.(clusterConfig := None,
       join := if k.join.Some? then Some(k.join.value.(discovery := "")) else None)
  }

  function CleanJoin(k: Join, m: Join): Join
  {
    m.(discovery := "",
       controlPlane := if k.controlPlane.None? then None else m.controlPlane,
       nodeRegistration := if k.nodeRegistration == "" then "" else m.nodeRegistration,
       typeMeta := k.typeMeta)
  }

  /** The machine's spec after cleanup, against the adjusted control-plane spec `k`. */
  function CleanMachine(k: Spec, m: Spec): Spec
  {
    m.(clusterConfig := None,
       join := if k.join.None? || m.join.None? then None else Some(CleanJoin(k.join.value, m.join.value)),
       init := if k.init.Some? && m.init.Some? then Some(m.init.value.(typeMeta := k.init.value.typeMeta)) else m.init)
  }

  /** What the comparison leaves in the machine's config. */
  function Rewritten(kcp: Spec, m: Spec): Spec
  {
    CleanMachine(Defaulted(Adjusted(kcp, m)), Defaulted(m))
  }

  predicate ConfigMatches(kcp: Spec, m: Spec)
  {
    Rewritten(kcp, m) == CleanKcp(Defaulted(Adjusted(kcp, m)))
  }

  class MachineConfig {
    var spec: Spec
    const meta: Meta

    constructor (s: Spec, m: Meta)
      ensures spec == s && meta == m
    {
      spec := s;
      meta := m;
    }

    /** Compares and, on the way, overwrites this object's spec. */
    method MatchInitOrJoin(kcp: Kcp) returns (matches: bool)
      modifies this
      ensures spec == Rewritten(kcp.config, old(spec))
      ensures matches == ConfigMatches(kcp.config, old(spec))
    {
      var k := kcp.config;
      if spec.join.None? {
        k := k.(join := None);
      }
      if spec.init.None? {
        k := k.(init := None);
      }
      if k.format == "" {
        k := k.(format := CLOUD_CONFIG);
      }
      if spec.format == "" {
        spec := spec.(format := CLOUD_CONFIG);
      }
      k := k.(clusterConfig := None);
      spec := spec.(clusterConfig := None);
      if k.join.None? {
        spec := spec.(join := None);
      }
      if k.join.Some? {
        k := k.(join := Some(k.join.value.(discovery := "")));
      }
      if spec.join.Some? {
        spec := spec.(join := Some(spec.join.value.(discovery := "")));
      }
      if k.join.Some? && k.join.value.controlPlane.None? && spec.join.Some? {
        spec := spec.(join := Some(spec.join.value.(controlPlane := None)));
      }
      if k.join.Some? && k.join.value.nodeRegistration == "" && spec.join.Some? {
        spec := spec.(join := Some(spec.join.value.(nodeRegistration := "")));
      }
      if spec.init.Some? && k.init.Some? {
        spec := spec.(init := Some(spec.init.value.(typeMeta := k.init.value.typeMeta)));
      }
      if spec.join.Some? && k.join.Some? {
        spec := spec.(join := Some(spec.join.value.(typeMeta := k.join.value.typeMeta)));
      }
      matches := spec == k;
    }
  }

  /** Comparing again finds nothing left to rewrite and answers the same. */
  lemma ComparisonStable(kcp: Spec, m: Spec)
    ensures Rewritten(kcp, Rewritten(kcp, m)) == Rewritten(kcp, m)
    ensures ConfigMatches(kcp, Rewritten(kcp, m)) == ConfigMatches(kcp, m)
  {
    if m.join.Some? && kcp.join.Some? {
      assert Rewritten(kcp, m).join.Some?;
    }
  }

  /** The fields of a join section that can make a machine outdated. */
  predicate JoinAgrees(k: Join, m: Join)
  {
    && m.rest == k.rest
    && (k.controlPlane.Some? ==> m.controlPlane == k.controlPlane)
    && (k.nodeRegistration != "" ==> m.nodeRegistration == k.nodeRegistration)
  }

  /** The machine config says nothing that contradicts the control plane's. */
  predicate SpecAgrees(kcp: Spec, m: Spec)
  {
    && m.rest == kcp.rest
    && Defaulted(m).format == Defaulted(kcp).format
    && (m.init.Some? ==> kcp.init.Some? && m.init.value.rest == kcp.init.value.rest)
    && (m.join.Some? && kcp.join.Some? ==> JoinAgrees(kcp.join.value, m.join.value))
  }

  /** The comparison answers yes exactly when no relevant field disagrees: discovery, type metadata, the cluster
      configuration, and join parts the control plane leaves empty never count. */
  lemma MatchesExactly(kcp: Spec, m: Spec)
    ensures ConfigMatches(kcp, m) <==> SpecAgrees(kcp, m)
  {
    var a := Adjusted(kcp, m);
    if m.join.Some? && kcp.join.Some? {
      var k, j := kcp.join.value, m.join.value;
      assert CleanJoin(k, j) == k.(discovery := "") <==> JoinAgrees(k, j);
      assert a.join == kcp.join;
    }
    if m.init.Some? && kcp.init.Some? {
      assert m.init.value.(typeMeta := kcp.init.value.typeMeta) == kcp.init.value <==>
             m.init.value.rest == kcp.init.value.rest;
    }
  }

  // ---- matching a machine ----

  predicate IsSubsetMapOf(base: map<string, string>, existing: map<string, string>)
  {
    forall k | k in base :: k in existing && existing[k] == base[k]
  }

  predicate TemplateMatches(kcp: Kcp, m: Meta)
  {
    IsSubsetMapOf(kcp.template.annotations, m.annotations) && IsSubsetMapOf(kcp.template.labels, m.labels)
  }

  /** Decoding the cluster-configuration annotation: an error, null, or a configuration. */
  datatype Decoded = Malformed | Null | Decoded(config: Blob)

  type Decoder = string -> Decoded

  predicate ClusterConfigMatches(kcp: Kcp, m: Machine, decode: Decoder)
  {
    if CLUSTER_CONFIG_ANNOTATION !in m.meta.annotations then true
    else
      var current := if kcp.config.clusterConfig.Some? then kcp.config.clusterConfig.value else "";
      match decode(m.meta.annotations[CLUSTER_CONFIG_ANNOTATION])
      case Malformed => false
      case Null => current == ""
      case Decoded(c) => c == current
  }

  predicate ClonedFromMatches(kcp: Kcp, infra: Option<Meta>)
  {
    if infra.None? then true
    else
      var a := infra.value.annotations;
      if CLONED_FROM_NAME !in a || CLONED_FROM_GROUP_KIND !in a then true
      else a[CLONED_FROM_NAME] == kcp.infraName && a[CLONED_FROM_GROUP_KIND] == kcp.infraGroupKind
           && TemplateMatches(kcp, infra.value)
  }

  /** A machine's bootstrap config as found at the start of the evaluation. */
  datatype Found = Found(spec: Spec, meta: Meta)

  predicate BootstrapMatches(kcp: Kcp, m: Machine, config: Option<Found>, decode: Decoder)
  {
    && ClusterConfigMatches(kcp, m, decode)
    && (m.hasConfigRef && config.Some? ==>
          TemplateMatches(kcp, config.value.meta) && ConfigMatches(kcp.config, config.value.spec))
  }

  predicate MatchesSpec(kcp: Kcp, m: Machine, config: Option<Found>, infra: Option<Meta>, decode: Decoder)
  {
    && TemplateMatches(kcp, m.meta)
    && m.version == Some(kcp.version)
    && BootstrapMatches(kcp, m, config, decode)
    && ClonedFromMatches(kcp, infra)
  }

  predicate ShouldRolloutAfter(kcp: Kcp, now: int, m: Machine)
  {
    kcp.rolloutAfter.Some? && m.creation < kcp.rolloutAfter.value < now
  }

  predicate ShouldRolloutBefore(kcp: Kcp, now: int, m: Machine)
  {
    && kcp.certificatesExpiryDays.Some? && m.certificatesExpiry.Some?
    && now + Duration(kcp.certificatesExpiryDays.value * NANOS_PER_DAY) > m.certificatesExpiry.value
  }

  // ---- the selectors ----

  type Configs = map<string, Found>

  function Lookup<T>(m: map<string, T>, n: string): Option<T>
  {
    if n in m then Some(m[n]) else None
  }

  predicate Outdated(kcp: Kcp, now: int, m: Machine, configs: Configs, infras: map<string, Meta>, decode: Decoder)
  {
    ShouldRolloutBefore(kcp, now, m) || ShouldRolloutAfter(kcp, now, m)
    || !MatchesSpec(kcp, m, Lookup(configs, m.name), Lookup(infras, m.name), decode)
  }

  function NeedingRollout(kcp: Kcp, now: int, ms: set<Machine>, configs: Configs, infras: map<string, Meta>,
                          decode: Decoder): set<Machine>
  {
    set m | m in ms && !m.deleting && Outdated(kcp, now, m, configs, infras, decode)
  }

  function UpToDate(kcp: Kcp, now: int, ms: set<Machine>, configs: Configs, infras: map<string, Meta>,
                    decode: Decoder): set<Machine>
  {
    set m | m in ms && !Outdated(kcp, now, m, configs, infras, decode)
  }

  // ---- what makes a machine outdated ----

  /** A template entry is missing from the object, or has another value there. */
  ghost predicate Lacks(template: Meta, m: Meta)
  {
    || (exists k :: k in template.labels && (k !in m.labels || m.labels[k] != template.labels[k]))
    || (exists k :: k in template.annotations && (k !in m.annotations || m.annotations[k] != template.annotations[k]))
  }

  /** The machine records that it was built from another cluster configuration, or an unreadable one. An absent
      configuration counts as the zero one. */
  ghost predicate OtherCluster(kcp: Kcp, m: Machine, decode: Decoder)
  {
    && CLUSTER_CONFIG_ANNOTATION in m.meta.annotations
    && match (decode(m.meta.annotations[CLUSTER_CONFIG_ANNOTATION]), kcp.config.clusterConfig)
       case (Malformed, _) => true
       case (Null, None) => false
       case (Null, Some(c)) => c != ""
       case (Decoded(d), None) => d != ""
       case (Decoded(d), Some(c)) => d != c
  }

  /** The machine's bootstrap config is known, and it or its metadata disagrees. */
  ghost predicate OtherConfig(kcp: Kcp, m: Machine, configs: Configs)
  {
    && m.hasConfigRef && m.name in configs
    && (Lacks(kcp.template, configs[m.name].meta) || !SpecAgrees(kcp.config, configs[m.name].spec))
  }

  /** The machine's infrastructure is known and marked as cloned, and the marks or its metadata disagree. */
  ghost predicate OtherOrigin(kcp: Kcp, m: Machine, infras: map<string, Meta>)
  {
    && m.name in infras
    && CLONED_FROM_NAME in infras[m.name].annotations && CLONED_FROM_GROUP_KIND in infras[m.name].annotations
    && (infras[m.name].annotations[CLONED_FROM_NAME] != kcp.infraName
        || infras[m.name].annotations[CLONED_FROM_GROUP_KIND] != kcp.infraGroupKind
        || Lacks(kcp.template, infras[m.name]))
  }

  /** The rollout time has come and the machine is older, or its certificates run out within the limit. */
  ghost predicate Overdue(kcp: Kcp, now: int, m: Machine)
  {
    || (kcp.rolloutAfter.Some? && m.creation < kcp.rolloutAfter.value && kcp.rolloutAfter.value < now)
    || (kcp.certificatesExpiryDays.Some? && m.certificatesExpiry.Some?
        && m.certificatesExpiry.value - now < Duration(kcp.certificatesExpiryDays.value * NANOS_PER_DAY))
  }

  lemma LacksExactly(kcp: Kcp, m: Meta)
    ensures TemplateMatches(kcp, m) <==> !Lacks(kcp.template, m)
  {
  }

  /** A machine needs a rollout exactly when it is not being deleted and one of these makes it outdated: no Kubernetes
      version or another one, a template entry it lacks, another cluster configuration, a bootstrap config or an
      infrastructure object that disagrees, or a time limit. It is up to date exactly when none does. */
  lemma OutdatedExactly(kcp: Kcp, now: int, ms: set<Machine>, m: Machine, configs: Configs, infras: map<string, Meta>,
                        decode: Decoder)
    requires m in ms
    ensures var outdated :=
              || m.version.None? || m.version.value != kcp.version
              || Lacks(kcp.template, m.meta) || OtherCluster(kcp, m, decode) || OtherConfig(kcp, m, configs)
              || OtherOrigin(kcp, m, infras) || Overdue(kcp, now, m);
            && (m in NeedingRollout(kcp, now, ms, configs, infras, decode) <==> !m.deleting && outdated)
            && (m in UpToDate(kcp, now, ms, configs, infras, decode) <==> !outdated)
  {
    LacksExactly(kcp, m.meta);
    if m.name in configs {
      LacksExactly(kcp, configs[m.name].meta);
      MatchesExactly(kcp.config, configs[m.name].spec);
    }
    if m.name in infras {
      LacksExactly(kcp, infras[m.name]);
    }
    hide Lacks, TemplateMatches, ConfigMatches, SpecAgrees;
  }

  /** A limit of up to 106751 days is taken as it is; beyond that it wraps around and may lie in the past. */
  lemma DurationExactly(nanos: int)
    ensures Duration(nanos) == nanos <==> -0x8000_0000_0000_0000 <= nanos < 0x8000_0000_0000_0000
  {
  }

  /** Each config is untouched or rewritten by a comparison with this control plane. */
  ghost predicate Evolved(kcp: Spec, a: Configs, b: Configs)
  {
    && a.Keys == b.Keys
    && forall n | n in a :: b[n].meta == a[n].meta && (b[n].spec == a[n].spec || b[n].spec == Rewritten(kcp, a[n].spec))
  }

  /** However many comparisons ran before, complete or cut short, every machine is judged the same. */
  lemma VerdictStable(kcp: Kcp, now: int, m: Machine, a: Configs, b: Configs, infras: map<string, Meta>,
                      decode: Decoder)
    requires Evolved(kcp.config, a, b)
    ensures Outdated(kcp, now, m, a, infras, decode) == Outdated(kcp, now, m, b, infras, decode)
  {
    if m.name in a {
      ComparisonStable(kcp.config, a[m.name].spec);
    }
  }

  lemma EvolvedReflexive(kcp: Spec, a: Configs)
    ensures Evolved(kcp, a, a)
  {}

  lemma EvolvedTransitive(kcp: Spec, a: Configs, b: Configs, c: Configs)
    requires Evolved(kcp, a, b) && Evolved(kcp, b, c)
    ensures Evolved(kcp, a, c)
  {
    forall n | n in a
      ensures c[n].spec == a[n].spec || c[n].spec == Rewritten(kcp, a[n].spec)
    {
      ComparisonStable(kcp, a[n].spec);
    }
  }

  /** Whichever selector runs first and whatever ran in between, the machines needing rollout and the up-to-date
      machines that are not being deleted split the machines that are not being deleted. */
  lemma SelectorsPartition(kcp: Kcp, now: int, ms: set<Machine>, a: Configs, b: Configs, infras: map<string, Meta>,
                           decode: Decoder)
    requires Evolved(kcp.config, a, b) || Evolved(kcp.config, b, a)
    ensures var outdated := NeedingRollout(kcp, now, ms, a, infras, decode);
            var current := UpToDate(kcp, now, ms, b, infras, decode);
            && outdated !! current
            && outdated + (set m | m in current && !m.deleting) == set m | m in ms && !m.deleting
  {
    hide Outdated, Evolved;
    forall m
      ensures Outdated(kcp, now, m, a, infras, decode) == Outdated(kcp, now, m, b, infras, decode)
    {
      if Evolved(kcp.config, a, b) {
        VerdictStable(kcp, now, m, a, b, infras, decode);
      } else {
        VerdictStable(kcp, now, m, b, a, infras, decode);
      }
    }
  }

  class ControlPlane {
    const kcp: Kcp
    const now: int
    const machines: set<Machine>
    const infras: map<string, Meta>
    const configs: map<string, MachineConfig>

    constructor (k: Kcp, n: int, ms: set<Machine>, i: map<string, Meta>, c: map<string, MachineConfig>)
      ensures kcp == k && now == n && machines == ms && infras == i && configs == c
    {
      kcp, now, machines, infras, configs := k, n, ms, i, c;
    }

    ghost function Specs(): Configs
      reads configs.Values
    {
      map n | n in configs :: Found(configs[n].spec, configs[n].meta)
    }

    /** The filter both selectors use; it stops at the first part that fails. */
    method Matches(m: Machine, decode: Decoder) returns (r: bool)
      modifies configs.Values
      ensures r == MatchesSpec(kcp, m, Lookup(old(Specs()), m.name), Lookup(infras, m.name), decode)
      ensures Evolved(kcp.config, old(Specs()), Specs())
    {
      if !TemplateMatches(kcp, m.meta) || m.version != Some(kcp.version) || !ClusterConfigMatches(kcp, m, decode) {
        return false;
      }
      if m.hasConfigRef && m.name in configs {
        var c := configs[m.name];
        assert c in configs.Values;
        if !TemplateMatches(kcp, c.meta) {
          return false;
        }
        var ok := c.MatchInitOrJoin(kcp);
        if !ok {
          return false;
        }
      }
      r := ClonedFromMatches(kcp, Lookup(infras, m.name));
    }

    /** The three filters in the order both selectors try them, stopping at the first that decides. */
    method IsOutdated(m: Machine, decode: Decoder) returns (r: bool)
      modifies configs.Values
      ensures r == Outdated(kcp, now, m, old(Specs()), infras, decode)
      ensures Evolved(kcp.config, old(Specs()), Specs())
    {
      if ShouldRolloutBefore(kcp, now, m) || ShouldRolloutAfter(kcp, now, m) {
        return true;
      }
      var matches := Matches(m, decode);
      r := !matches;
    }

    /** Machines are visited in any order. */
    method MachinesNeedingRollout(decode: Decoder) returns (r: set<Machine>)
      modifies configs.Values
      ensures r == NeedingRollout(kcp, now, machines, old(Specs()), infras, decode)
      ensures Evolved(kcp.config, old(Specs()), Specs())
    {
      hide Evolved, Outdated;
      EvolvedReflexive(kcp.config, Specs());
      r := {};
      var todo := set m | m in machines && !m.deleting;
      while todo != {}
        invariant todo <= set m | m in machines && !m.deleting
        invariant r == set m | m in machines && !m.deleting && m !in todo
                  && Outdated(kcp, now, m, old(Specs()), infras, decode)
        invariant Evolved(kcp.config, old(Specs()), Specs())
        decreases |todo|
      {
        var m :| m in todo;
        ghost var before := Specs();
        var outdated := IsOutdated(m, decode);
        VerdictStable(kcp, now, m, old(Specs()), before, infras, decode);
        EvolvedTransitive(kcp.config, old(Specs()), before, Specs());
        if outdated {
          r := r + {m};
        }
        todo := todo - {m};
      }
    }

    method UpToDateMachines(decode: Decoder) returns (r: set<Machine>)
      modifies configs.Values
      ensures r == UpToDate(kcp, now, machines, old(Specs()), infras, decode)
      ensures Evolved(kcp.config, old(Specs()), Specs())
    {
      hide Evolved, Outdated;
      EvolvedReflexive(kcp.config, Specs());
      r := {};
      var todo := machines;
      while todo != {}
        invariant todo <= machines
        invariant r == set m | m in machines && m !in todo && !Outdated(kcp, now, m, old(Specs()), infras, decode)
        invariant Evolved(kcp.config, old(Specs()), Specs())
        decreases |todo|
      {
        var m :| m in todo;
        ghost var before := Specs();
        var outdated := IsOutdated(m, decode);
        VerdictStable(kcp, now, m, old(Specs()), before, infras, decode);
        EvolvedTransitive(kcp.config, old(Specs()), before, Specs());
        if !outdated {
          r := r + {m};
        }
        todo := todo - {m};
      }
    }
  }

  // ---- no perpetual rollout ----

  /** Turning a name into a label value; long names are hashed. */
  type Formatter = string -> string

  /** Labels forced onto every control-plane machine, over the template's. */
  function MachineLabels(kcp: Kcp, cluster: string, format: Formatter): map<string, string>
  {
    kcp.template.labels[CLUSTER_LABEL := cluster][CONTROL_PLANE_LABEL := ""]
      [CONTROL_PLANE_NAME_LABEL := format(kcp.name)]
  }

  /** Metadata of a new bootstrap config. */
  function NewMeta(kcp: Kcp, cluster: string, format: Formatter): Meta
  {
    Meta(MachineLabels(kcp, cluster, format), kcp.template.annotations)
  }

  /** Rendering a cluster configuration into the annotation. */
  type Encoder = Option<Blob> -> string

  /** Metadata of a new machine, which records the cluster configuration it was built from. */
  function NewMachineMeta(kcp: Kcp, cluster: string, format: Formatter, encode: Encoder): Meta
  {
    Meta(MachineLabels(kcp, cluster, format),
         kcp.template.annotations[CLUSTER_CONFIG_ANNOTATION := encode(kcp.config.clusterConfig)])
  }

  /** Metadata of an infrastructure object cloned from the current template. */
  function NewInfra(kcp: Kcp, cluster: string, format: Formatter): Meta
  {
    Meta(MachineLabels(kcp, cluster, format),
         kcp.template.annotations[CLONED_FROM_NAME := kcp.infraName][CLONED_FROM_GROUP_KIND := kcp.infraGroupKind])
  }

  function InitialConfig(kcp: Kcp): Spec
  {
    kcp.config.(join := None)
  }

  function JoinConfig(kcp: Kcp): Spec
  {
    kcp.config.(init := None)
  }

  // ---- what the bootstrap provider writes into the config ----

  const INIT_TYPE_META := "ocne.k8s.io/v1alpha1, InitConfiguration"
  const EMPTY_INIT := Init(INIT_TYPE_META, "")
  const EMPTY_JOIN := Join("", "", "", Some(""), "")

  /** One reconcile: of a cluster that is not initialized, of one that is, or admission with its default format. The
      values filled in are whatever the cluster supplies; a reconcile that fails still stores what it wrote. */
  datatype Pass = InitPass(clusterConfig: Option<Blob>) | JoinPass(discovery: Blob) | DefaultPass

  function Bootstrap(s: Spec, p: Pass): Spec
  {
    match p
    case InitPass(c) =>
      if s.init.None? && s.clusterConfig.None? then s
      else s.(init := Some(if s.init.Some? then s.init.value else EMPTY_INIT),
              clusterConfig := if c.Some? then c else s.clusterConfig)
    case JoinPass(d) =>
      var j := if s.join.Some? then s.join.value else EMPTY_JOIN;
      s.(join := Some(j.(discovery := d, controlPlane := if j.controlPlane.Some? then j.controlPlane else Some(""))))
    case DefaultPass => Defaulted(s)
  }

  function BootstrapAll(s: Spec, ps: seq<Pass>): Spec
  {
    if ps == [] then s else Bootstrap(BootstrapAll(s, ps[..|ps| - 1]), ps[|ps| - 1])
  }

  ghost predicate Initialized(ps: seq<Pass>)
  {
    exists p :: p in ps && p.InitPass?
  }

  ghost predicate Joined(ps: seq<Pass>)
  {
    exists p :: p in ps && p.JoinPass?
  }

  /** Over any passes, an init section appears exactly in a config with a cluster configuration, a join section always;
      sections that were there keep everything that counts. */
  lemma {:induction false} BootstrapMeaning(s: Spec, ps: seq<Pass>)
    ensures var r := BootstrapAll(s, ps);
            && r.rest == s.rest && Defaulted(r).format == Defaulted(s).format
            && (r.clusterConfig.None? ==> s.clusterConfig.None?)
            && (r.clusterConfig.Some? ==> s.clusterConfig.Some? || s.init.Some?)
            && r.init == (if s.init.None? && s.clusterConfig.Some? && Initialized(ps) then Some(EMPTY_INIT) else s.init)
            && (r.join.Some? <==> s.join.Some? || Joined(ps))
            && (r.join.Some? ==> Keeps(if s.join.Some? then s.join.value else EMPTY_JOIN, r.join.value))
  {
    if ps != [] {
      var k := |ps| - 1;
      BootstrapMeaning(s, ps[..k]);
      assert ps == ps[..k] + [ps[k]];
      assert Initialized(ps) <==> Initialized(ps[..k]) || ps[k].InitPass?;
      assert Joined(ps) <==> Joined(ps[..k]) || ps[k].JoinPass?;
    }
  }

  ghost predicate Keeps(was: Join, now: Join)
  {
    now.rest == was.rest && now.nodeRegistration == was.nodeRegistration
    && (was.controlPlane.Some? ==> now.controlPlane == was.controlPlane)
  }

  /** The sections the provider adds say what the control plane says: an added init section only where the control plane
      has an empty one, an added join section only where it has none or one without content. */
  ghost predicate SectionsAgree(kcp: Kcp, built: Spec, ps: seq<Pass>)
  {
    var c := kcp.config;
    && (built.init.None? && c.clusterConfig.Some? && Initialized(ps) ==> c.init.Some? && c.init.value.rest == "")
    && (built.join.None? && c.join.Some? && Joined(ps) ==> JoinAgrees(c.join.value, EMPTY_JOIN))
  }

  lemma FilledAgrees(kcp: Kcp, built: Spec, ps: seq<Pass>)
    requires built == InitialConfig(kcp) || built == JoinConfig(kcp)
    ensures ConfigMatches(kcp.config, BootstrapAll(built, ps)) <==> SectionsAgree(kcp, built, ps)
  {
    BootstrapMeaning(built, ps);
    MatchesExactly(kcp.config, BootstrapAll(built, ps));
    hide BootstrapAll, ConfigMatches, Initialized, Joined;
  }

  // ---- metadata ----

  /** Later writers only add entries. */
  ghost predicate Extends(was: Meta, now: Meta)
  {
    IsSubsetMapOf(was.labels, now.labels) && IsSubsetMapOf(was.annotations, now.annotations)
  }

  /** The template does not ask for other values of the forced labels. */
  predicate LabelsCompatible(kcp: Kcp, cluster: string, format: Formatter)
  {
    var l := kcp.template.labels;
    && (CLUSTER_LABEL in l ==> l[CLUSTER_LABEL] == cluster)
    && (CONTROL_PLANE_LABEL in l ==> l[CONTROL_PLANE_LABEL] == "")
    && (CONTROL_PLANE_NAME_LABEL in l ==> l[CONTROL_PLANE_NAME_LABEL] == format(kcp.name))
  }

  /** The template does not ask for another value of an annotation the controller writes itself. */
  predicate AnnotationCompatible(kcp: Kcp, key: string, written: string)
  {
    key in kcp.template.annotations ==> kcp.template.annotations[key] == written
  }

  /** Entries added later do not change whether the template's are there. */
  lemma SubsetOfExtension(base: map<string, string>, was: map<string, string>, now: map<string, string>)
    requires base.Keys <= was.Keys && IsSubsetMapOf(was, now)
    ensures IsSubsetMapOf(base, now) <==> IsSubsetMapOf(base, was)
  {
    forall k | k in base
      ensures k in was && k in now && now[k] == was[k]
    {
      assert k in base.Keys && k in was.Keys;
    }
  }

  lemma LabelsMatch(kcp: Kcp, cluster: string, format: Formatter, labels: map<string, string>)
    requires IsSubsetMapOf(MachineLabels(kcp, cluster, format), labels)
    ensures IsSubsetMapOf(kcp.template.labels, labels) <==> LabelsCompatible(kcp, cluster, format)
  {
    var l, f := kcp.template.labels, MachineLabels(kcp, cluster, format);
    SubsetOfExtension(l, f, labels);
    assert forall k | k in l && k != CLUSTER_LABEL && k != CONTROL_PLANE_LABEL && k != CONTROL_PLANE_NAME_LABEL ::
        f[k] == l[k];
    assert f[CLUSTER_LABEL] == cluster && f[CONTROL_PLANE_LABEL] == "";
    assert f[CONTROL_PLANE_NAME_LABEL] == format(kcp.name);
  }

  lemma AnnotationsMatch(kcp: Kcp, key: string, written: string, annotations: map<string, string>)
    requires IsSubsetMapOf(kcp.template.annotations[key := written], annotations)
    ensures IsSubsetMapOf(kcp.template.annotations, annotations) <==> AnnotationCompatible(kcp, key, written)
    ensures key in annotations && annotations[key] == written
  {
    var a := kcp.template.annotations;
    SubsetOfExtension(a, a[key := written], annotations);
    assert a[key := written][key] == written;
    assert forall k | k in a && k != key :: a[key := written][k] == a[k];
  }

  /** A cloned infrastructure object matches unless the template contradicts the labels or marks written on it. */
  lemma ClonedMatches(kcp: Kcp, cluster: string, format: Formatter, infra: Meta)
    requires Extends(NewInfra(kcp, cluster, format), infra)
    ensures ClonedFromMatches(kcp, Some(infra)) <==>
              && LabelsCompatible(kcp, cluster, format)
              && AnnotationCompatible(kcp, CLONED_FROM_NAME, kcp.infraName)
              && AnnotationCompatible(kcp, CLONED_FROM_GROUP_KIND, kcp.infraGroupKind)
  {
    LabelsMatch(kcp, cluster, format, infra.labels);
    var a, i := kcp.template.annotations, NewInfra(kcp, cluster, format).annotations;
    SubsetOfExtension(a, i, infra.annotations);
    assert i[CLONED_FROM_NAME] == kcp.infraName && i[CLONED_FROM_GROUP_KIND] == kcp.infraGroupKind;
    assert forall k | k in a && k != CLONED_FROM_NAME && k != CLONED_FROM_GROUP_KIND :: i[k] == a[k];
  }

  // ---- no perpetual rollout ----

  /** A machine built from the current control plane, with whatever was added to it and its objects since. */
  ghost predicate Current(kcp: Kcp, cluster: string, m: Machine, built: Spec, ps: seq<Pass>, configs: Configs,
                          infras: map<string, Meta>, format: Formatter, encode: Encoder)
  {
    && (built == InitialConfig(kcp) || built == JoinConfig(kcp))
    && m.version == Some(kcp.version) && m.hasConfigRef
    && Extends(NewMachineMeta(kcp, cluster, format, encode), m.meta)
    && (m.name in configs ==>
          && configs[m.name].spec == BootstrapAll(built, ps)
          && Extends(NewMeta(kcp, cluster, format), configs[m.name].meta))
    && (m.name in infras ==> Extends(NewInfra(kcp, cluster, format), infras[m.name]))
  }

  /** What the annotation holds decodes to what was encoded. */
  ghost predicate RoundTrips(kcp: Kcp, encode: Encoder, decode: Decoder)
  {
    decode(encode(kcp.config.clusterConfig)) ==
    if kcp.config.clusterConfig.Some? then Decoded(kcp.config.clusterConfig.value) else Null
  }

  /** The template asks for nothing the controller overrides. */
  ghost predicate TemplateCompatible(kcp: Kcp, cluster: string, cloned: bool, format: Formatter, encode: Encoder)
  {
    && LabelsCompatible(kcp, cluster, format)
    && AnnotationCompatible(kcp, CLUSTER_CONFIG_ANNOTATION, encode(kcp.config.clusterConfig))
    && (cloned ==> AnnotationCompatible(kcp, CLONED_FROM_NAME, kcp.infraName)
                   && AnnotationCompatible(kcp, CLONED_FROM_GROUP_KIND, kcp.infraGroupKind))
  }

  lemma CurrentMatches(kcp: Kcp, cluster: string, m: Machine, built: Spec, ps: seq<Pass>, configs: Configs,
                       infras: map<string, Meta>, format: Formatter, encode: Encoder, decode: Decoder)
    requires Current(kcp, cluster, m, built, ps, configs, infras, format, encode) && RoundTrips(kcp, encode, decode)
    ensures MatchesSpec(kcp, m, Lookup(configs, m.name), Lookup(infras, m.name), decode) <==>
              && TemplateCompatible(kcp, cluster, m.name in infras, format, encode)
              && (m.name in configs ==> SectionsAgree(kcp, built, ps))
  {
    LabelsMatch(kcp, cluster, format, m.meta.labels);
    AnnotationsMatch(kcp, CLUSTER_CONFIG_ANNOTATION, encode(kcp.config.clusterConfig), m.meta.annotations);
    assert ClusterConfigMatches(kcp, m, decode);
    if m.name in infras {
      ClonedMatches(kcp, cluster, format, infras[m.name]);
    }
    if m.name in configs {
      FilledAgrees(kcp, built, ps);
      LabelsMatch(kcp, cluster, format, configs[m.name].meta.labels);
    }
    hide LabelsCompatible, AnnotationCompatible, NewInfra, ConfigMatches, IsSubsetMapOf, MachineLabels, SectionsAgree,
      ClusterConfigMatches, ClonedFromMatches, BootstrapAll;
  }

  /** A machine built by the init or the join path from the current control plane, after any reconciles of the bootstrap
      provider and any added metadata, is left alone exactly when the template does not contradict what the controller
      writes, the provider added no section that says something else, its certificates last beyond the rollout limit,
      and no rollout time has passed since it was created. Otherwise its replacement, built the same way, is replaced
      again. */
  lemma NoPerpetualRollout(kcp: Kcp, cluster: string, now: int, m: Machine, built: Spec, ps: seq<Pass>,
                           configs: Configs, infras: map<string, Meta>, format: Formatter, encode: Encoder,
                           decode: Decoder)
    requires Current(kcp, cluster, m, built, ps, configs, infras, format, encode) && RoundTrips(kcp, encode, decode)
    ensures !Outdated(kcp, now, m, configs, infras, decode) <==>
              && TemplateCompatible(kcp, cluster, m.name in infras, format, encode)
              && (m.name in configs ==> SectionsAgree(kcp, built, ps))
              && (kcp.certificatesExpiryDays.Some? && m.certificatesExpiry.Some? ==>
                    now + Duration(kcp.certificatesExpiryDays.value * NANOS_PER_DAY) <= m.certificatesExpiry.value)
              && (kcp.rolloutAfter.Some? ==> kcp.rolloutAfter.value <= m.creation || now <= kcp.rolloutAfter.value)
  {
    hide MatchesSpec, Current, TemplateCompatible, SectionsAgree, RoundTrips;
    CurrentMatches(kcp, cluster, m, built, ps, configs, infras, format, encode, decode);
  }

  /** A control plane with a cluster configuration and no init section: its first machine never matches, whatever the
      template, because the provider writes an init section. */
  lemma NoInitSectionReplaced(kcp: Kcp, cluster: string, now: int, m: Machine, ps: seq<Pass>, configs: Configs,
                              infras: map<string, Meta>, format: Formatter, encode: Encoder, decode: Decoder)
    requires kcp.config.init.None? && kcp.config.clusterConfig.Some? && Initialized(ps) && m.name in configs
    requires Current(kcp, cluster, m, InitialConfig(kcp), ps, configs, infras, format, encode)
    requires RoundTrips(kcp, encode, decode)
    ensures Outdated(kcp, now, m, configs, infras, decode)
  {
    hide Current, RoundTrips;
    NoPerpetualRollout(kcp, cluster, now, m, InitialConfig(kcp), ps, configs, infras, format, encode, decode);
  }

  /** A rollout limit longer than certificates last replaces every machine as soon as its certificates are known. */
  lemma ShortLivedReplaced(kcp: Kcp, now: int, m: Machine, lifetime: int, configs: Configs, infras: map<string, Meta>,
                           decode: Decoder)
    requires kcp.certificatesExpiryDays.Some? && m.certificatesExpiry == Some(m.creation + lifetime)
    requires m.creation <= now
    requires 0 <= kcp.certificatesExpiryDays.value * NANOS_PER_DAY < 0x8000_0000_0000_0000
    requires lifetime < kcp.certificatesExpiryDays.value * NANOS_PER_DAY
    ensures Outdated(kcp, now, m, configs, infras, decode)
  {
  }

  /** One such control plane with an empty template, and its first machine right after bootstrap. */
  lemma FirstMachineReplaced(now: int, format: Formatter, encode: Encoder, decode: Decoder)
    requires decode(encode(Some("networking"))) == Decoded("networking")
    ensures var none := Meta(map[], map[]);
            var kcp := Kcp("cp", "v1.26.6", Spec(Some("networking"), None, None, "", ""), none, "t", "k", None, None);
            var meta := NewMachineMeta(kcp, "c", format, encode);
            var m := Machine("m", meta, Some("v1.26.6"), now, false, None, true);
            var spec := BootstrapAll(InitialConfig(kcp), [InitPass(None)]);
            var configs := map["m" := Found(spec, NewMeta(kcp, "c", format))];
            Outdated(kcp, now, m, configs, map[], decode)
  {
    var none := Meta(map[], map[]);
    var kcp := Kcp("cp", "v1.26.6", Spec(Some("networking"), None, None, "", ""), none, "t", "k", None, None);
    var m := Machine("m", NewMachineMeta(kcp, "c", format, encode), Some("v1.26.6"), now, false, None, true);
    var ps := [InitPass(None)];
    assert ps[0] in ps && Initialized(ps);
    NoInitSectionReplaced(kcp, "c", now, m, ps,
                          map["m" := Found(BootstrapAll(InitialConfig(kcp), ps), NewMeta(kcp, "c", format))], map[],
                          format, encode, decode);
  }
}
