/**
 The Cluster and ClusterClass admission webhooks. Each looks at one object at a time; together they keep every
 managed cluster valid against its class along every run of accepted writes. Schema validation is a parameter.
 */
module Admission {
  import VersionOrder
  import opened Options

  datatype Key = Key(namespace: string, name: string)

  datatype Variable = Variable(name: string, value: string)

  /** A health check in a cluster topology, perhaps with a definition of its own. */
  datatype HealthCheck = HealthCheck(enable: Option<bool>, definition: Option<string>)

  datatype Deployment = Deployment(name: string, mdClass: string, check: Option<HealthCheck>, overrides: seq<Variable>)

  datatype Topology = Topology(
    class_: string, version: string, variables: seq<Variable>, check: Option<HealthCheck>,
    workers: Option<seq<Deployment>>)

  /** `unsafe`: annotated so that a class may be set on an existing cluster. */
  datatype Cluster = Cluster(key: Key, unsafe: bool, topology: Option<Topology>)

  datatype ClassVariable = ClassVariable(name: string, required: bool, schema: string)

  datatype DeploymentClass = DeploymentClass(name: string, check: Option<string>)

  /** `hasInfra`: the control plane names a machine infrastructure template. */
  datatype Class = Class(
    key: Key, variables: seq<ClassVariable>, check: Option<string>, hasInfra: bool, deployments: seq<DeploymentClass>)

  /** The checks of one value at a time: a variable against a schema, a health check definition, a label value, a
      version and its tolerant parser, a class's references, variables and patches, two classes' templates, the feature
      gate. */
  datatype Validator = Validator(
    value: (string, string) -> bool, check: string -> bool, labelValue: string -> bool, semver: string -> bool,
    parse: string -> Option<VersionOrder.Version>, references: Class -> bool, variables: Class -> bool,
    patches: Class -> bool, compatible: (Class, Class) -> bool, gate: bool)

  function ClassKey(c: Cluster): Key
    requires c.topology.Some?
  {
    Key(c.key.namespace, c.topology.value.class_)
  }

  function Deployments(t: Topology): seq<Deployment>
  {
    if t.workers.Some? then t.workers.value else []
  }

  // ---- lookups ----

  /** Later entries win, as when a Go map is filled from a list. */
  function VariableMap(vs: seq<ClassVariable>): map<string, ClassVariable>
  {
    if vs == [] then map[] else VariableMap(vs[..|vs| - 1])[vs[|vs| - 1].name := vs[|vs| - 1]]
  }

  lemma {:induction false} VariableMapIs(vs: seq<ClassVariable>)
    ensures forall n | n in VariableMap(vs) :: VariableMap(vs)[n] in vs && VariableMap(vs)[n].name == n
    ensures forall v | v in vs :: v.name in VariableMap(vs)
  {
    if vs != [] {
      VariableMapIs(vs[..|vs| - 1]);
    }
  }

  function DeploymentClassOf(k: Class, name: string): (r: Option<DeploymentClass>)
    ensures r.Some? ==> r.value in k.deployments && r.value.name == name
    ensures r.None? ==> forall d | d in k.deployments :: d.name != name
  {
    FindDeployment(k.deployments, name)
  }

  function FindDeployment(ds: seq<DeploymentClass>, name: string): (r: Option<DeploymentClass>)
    ensures r.Some? ==> r.value in ds && r.value.name == name
    ensures r.None? ==> forall d | d in ds :: d.name != name
  {
    if ds == [] then None
    else if ds[0].name == name then Some(ds[0])
    else FindDeployment(ds[1..], name)
  }

  // ---- a cluster against its class ----

  predicate Relies(check: Option<HealthCheck>)
  {
    check.Some? && check.value.enable == Some(true) && check.value.definition.None?
  }

  ghost predicate ValuesValid(vs: seq<Variable>, m: map<string, ClassVariable>, valid: Validator)
  {
    forall v | v in vs :: v.name in m && valid.value(m[v.name].schema, v.value)
  }

  ghost predicate ValuesComplete(vs: seq<Variable>, m: map<string, ClassVariable>)
  {
    forall n | n in m && m[n].required :: exists v | v in vs :: v.name == n
  }

  ghost predicate VariablesValid(vs: seq<Variable>, k: Class, valid: Validator)
  {
    ValuesValid(vs, VariableMap(k.variables), valid)
  }

  ghost predicate RequiredSet(vs: seq<Variable>, k: Class)
  {
    ValuesComplete(vs, VariableMap(k.variables))
  }

  ghost predicate DeploymentValid(d: Deployment, k: Class, valid: Validator)
  {
    && DeploymentClassOf(k, d.mdClass).Some?
    && VariablesValid(d.overrides, k, valid)
    && (Relies(d.check) ==> DeploymentClassOf(k, d.mdClass).value.check.Some?)
  }

  /** What a topology has to be whatever its class says. */
  ghost predicate WellFormed(t: Topology, valid: Validator)
  {
    var mds := Deployments(t);
    && t.class_ != "" && valid.semver(t.version) && DefinitionOk(t.check, valid)
    && (forall d | d in mds :: d.name != "" && valid.labelValue(d.name) && DefinitionOk(d.check, valid))
    && (forall i, j | 0 <= i < j < |mds| :: mds[i].name != mds[j].name)
  }

  /** A health check definition for the control plane needs machine infrastructure in the class. */
  predicate InfraRule(t: Topology, k: Class)
  {
    t.check.Some? && t.check.value.definition.Some? ==> k.hasInfra
  }

  /** What the webhooks keep: the topology well formed, variables defined, valid and complete, worker classes present,
      and every health check enabled without an override backed by the class. All that is demanded of a topology but
      the infrastructure rule. */
  ghost predicate ValidAgainst(t: Topology, k: Class, valid: Validator)
  {
    && WellFormed(t, valid)
    && VariablesValid(t.variables, k, valid)
    && RequiredSet(t.variables, k)
    && (forall d | d in Deployments(t) :: DeploymentValid(d, k, valid))
    && (Relies(t.check) ==> k.check.Some?)
  }

  // ---- Cluster webhook ----

  /** The required variables that are not set, the map walked in any order. */
  method MissingRequired(m: map<string, ClassVariable>, names: set<string>) returns (errs: seq<string>)
    ensures errs == [] <==> forall n | n in m && m[n].required :: n in names
  {
    errs := [];
    var todo := m.Keys;
    while todo != {}
      invariant todo <= m.Keys
      invariant errs == [] <==> forall n | n in m && n !in todo && m[n].required :: n in names
      decreases |todo|
    {
      var n :| n in todo;
      todo := todo - {n};
      if m[n].required && n !in names {
        errs := errs + [n];
      }
    }
  }

  method ValidateClusterVariables(vs: seq<Variable>, cvs: seq<ClassVariable>, required: bool, valid: Validator)
    returns (errs: seq<string>)
    ensures errs == [] <==>
              (required ==> ValuesComplete(vs, VariableMap(cvs))) && ValuesValid(vs, VariableMap(cvs), valid)
  {
    errs := [];
    var m := VariableMap(cvs);
    var names := set v | v in vs :: v.name;
    assert forall n :: n in names <==> exists v | v in vs :: v.name == n;
    if required {
      errs := MissingRequired(m, names);
    }
    for i := 0 to |vs|
      invariant forall k | 0 <= k < i :: vs[k].name in m
    {
      if vs[i].name !in m {
        errs := errs + [vs[i].name];
        assert vs[i] in vs;
        return;
      }
    }
    if errs != [] {
      return;
    }
    for i := 0 to |vs|
      invariant errs == [] <==> forall k | 0 <= k < i :: valid.value(m[vs[k].name].schema, vs[k].value)
    {
      if !valid.value(m[vs[i].name].schema, vs[i].value) {
        errs := errs + [vs[i].name];
      }
    }
  }

  /** A definition given in the topology is well formed. */
  predicate DefinitionOk(check: Option<HealthCheck>, valid: Validator)
  {
    check.Some? && check.value.definition.Some? ==> valid.check(check.value.definition.value)
  }

  ghost predicate ChecksOk(t: Topology, k: Class, valid: Validator)
  {
    && InfraRule(t, k)
    && DefinitionOk(t.check, valid) && (forall d | d in Deployments(t) :: DefinitionOk(d.check, valid))
    && (Relies(t.check) ==> k.check.Some?)
    && (forall d | d in Deployments(t) && Relies(d.check) :: DeploymentClassOf(k, d.mdClass).Some? ==>
          DeploymentClassOf(k, d.mdClass).value.check.Some?)
  }

  method ValidateMachineHealthChecks(t: Topology, k: Class, valid: Validator) returns (errs: seq<string>)
    ensures errs == [] <==> ChecksOk(t, k, valid)
  {
    errs := [];
    if t.check.Some? {
      if t.check.value.definition.Some? && !k.hasInfra {
        errs := errs + ["machineHealthCheck"];
      }
      if t.check.value.definition.Some? && !valid.check(t.check.value.definition.value) {
        errs := errs + ["definition"];
      }
      if t.check.value.enable == Some(true) && t.check.value.definition.None? && k.check.None? {
        errs := errs + ["enable"];
      }
    }
    if t.workers.Some? {
      var mds := t.workers.value;
      ghost var cpOk := errs == [];
      for i := 0 to |mds|
        invariant errs == [] <==>
                    && cpOk && (forall j | 0 <= j < i :: DefinitionOk(mds[j].check, valid))
                    && (forall j | 0 <= j < i && Relies(mds[j].check) :: DeploymentClassOf(k, mds[j].mdClass).Some? ==>
                          DeploymentClassOf(k, mds[j].mdClass).value.check.Some?)
      {
        if mds[i].check.Some? {
          if mds[i].check.value.definition.Some? && !valid.check(mds[i].check.value.definition.value) {
            errs := errs + ["definition"];
          }
          var c := DeploymentClassOf(k, mds[i].mdClass);
          if c.Some? && mds[i].check.value.enable == Some(true) && mds[i].check.value.definition.None?
             && c.value.check.None? {
            errs := errs + [mds[i].name];
          }
        }
      }
    }
  }

  /** Worker topologies: named with a label value, uniquely, with a class the ClusterClass defines. */
  ghost predicate WorkersOk(t: Topology, k: Class, valid: Validator)
  {
    var mds := Deployments(t);
    && (forall d | d in mds ::
          d.name != "" && valid.labelValue(d.name) && exists c | c in k.deployments :: c.name == d.mdClass)
    && (forall i, j | 0 <= i < j < |mds| :: mds[i].name != mds[j].name)
  }

  method MachineDeploymentTopologies(t: Topology, k: Class, valid: Validator) returns (errs: seq<string>)
    ensures errs == [] <==> WorkersOk(t, k, valid)
  {
    errs := [];
    if t.workers.None? || |t.workers.value| == 0 {
      return;
    }
    var mds := t.workers.value;
    var classes := set c | c in k.deployments :: c.name;
    var names := {};
    for i := 0 to |mds|
      invariant names == set j | 0 <= j < i && mds[j].name != "" :: mds[j].name
      invariant errs == [] <==>
                  && (forall j | 0 <= j < i ::
                        mds[j].name != "" && valid.labelValue(mds[j].name) && mds[j].mdClass in classes)
                  && (forall j, l | 0 <= j < l < i :: mds[j].name != mds[l].name)
    {
      if !valid.labelValue(mds[i].name) {
        errs := errs + ["label"];
      }
      if mds[i].mdClass !in classes {
        errs := errs + [mds[i].mdClass];
      }
      if mds[i].name == "" {
        errs := errs + ["name"];
        continue;
      }
      if mds[i].name in names {
        errs := errs + [mds[i].name];
      }
      names := names + {mds[i].name};
    }
  }

  /** The topology against its class. */
  ghost predicate TopologyAccepted(t: Topology, k: Class, valid: Validator)
  {
    && WorkersOk(t, k, valid)
    && VariablesValid(t.variables, k, valid) && RequiredSet(t.variables, k)
    && ChecksOk(t, k, valid)
    && (forall d | d in Deployments(t) :: VariablesValid(d.overrides, k, valid))
  }

  /** A health check for the control plane is accepted with its own definition exactly when that is well formed and the
      class has machine infrastructure, and without one exactly when it is not enabled or the class has a definition. */
  lemma OwnCheckExactly(t: Topology, k: Class, valid: Validator, check: HealthCheck)
    requires TopologyAccepted(t.(check := None), k, valid)
    ensures TopologyAccepted(t.(check := Some(check)), k, valid) <==>
              if check.definition.Some? then k.hasInfra && valid.check(check.definition.value)
              else check.enable != Some(true) || k.check.Some?
  {
    hide VariablesValid, RequiredSet, DeploymentClassOf;
    assert Deployments(t.(check := Some(check))) == Deployments(t.(check := None));
  }

  /** The update against the cluster as it was: a class is set on an unmanaged cluster only if annotated; otherwise the
      version rule holds, and a changed class is compatible with the one before, which still exists. */
  predicate UpdateAccepted(c: Cluster, was: Cluster, classes: map<Key, Class>, valid: Validator)
    requires c.topology.Some? && ClassKey(c) in classes
  {
    if was.topology.None? || was.topology.value.class_ == "" then c.unsafe
    else
      && VersionOrder.VersionAccepted(valid.parse(was.topology.value.version), valid.parse(c.topology.value.version))
      && (was.topology.value.class_ != c.topology.value.class_ ==>
            ClassKey(was) in classes && valid.compatible(classes[ClassKey(was)], classes[ClassKey(c)]))
  }

  /** Everything the Cluster webhook demands of a topology. */
  ghost predicate TopologyValid(c: Cluster, was: Option<Cluster>, classes: map<Key, Class>, valid: Validator)
    requires c.topology.Some?
  {
    var t := c.topology.value;
    && valid.gate && t.class_ != "" && valid.semver(t.version)
    && ClassKey(c) in classes && TopologyAccepted(t, classes[ClassKey(c)], valid)
    && (was.Some? ==> UpdateAccepted(c, was.value, classes, valid))
  }

  method ValidateTopology(c: Cluster, was: Option<Cluster>, classes: map<Key, Class>, valid: Validator)
    returns (errs: seq<string>)
    requires c.topology.Some?
    ensures errs == [] <==> TopologyValid(c, was, classes, valid)
  {
    hide WorkersOk, ChecksOk, ValuesValid, ValuesComplete, VariableMap, UpdateAccepted;
    if !valid.gate {
      return ["gate"];
    }
    var t := c.topology.value;
    errs := [];
    if t.class_ == "" {
      errs := errs + ["class"];
    }
    if !valid.semver(t.version) {
      errs := errs + ["version"];
    }
    if ClassKey(c) !in classes {
      return errs + ["class"];
    }
    var k := classes[ClassKey(c)];
    var e := MachineDeploymentTopologies(t, k, valid);
    errs := errs + e;
    e := ValidateClusterVariables(t.variables, k.variables, true, valid);
    errs := errs + e;
    e := ValidateMachineHealthChecks(t, k, valid);
    errs := errs + e;
    e := ValidateOverrides(Deployments(t), k, valid);
    errs := errs + e;
    if was.Some? {
      e := ValidateTopologyUpdate(c, was.value, classes, valid);
      errs := errs + e;
    }
  }

  /** The checks that compare with the old cluster, with their early returns. */
  method ValidateTopologyUpdate(c: Cluster, was: Cluster, classes: map<Key, Class>, valid: Validator)
    returns (errs: seq<string>)
    requires c.topology.Some? && ClassKey(c) in classes
    ensures errs == [] <==> UpdateAccepted(c, was, classes, valid)
  {
    hide VersionOrder.Compare, VersionOrder.CompareRelease;
    errs := [];
    if was.topology.None? || was.topology.value.class_ == "" {
      return if c.unsafe then [] else ["class"];
    }
    var after, before := valid.parse(c.topology.value.version), valid.parse(was.topology.value.version);
    if after.None? {
      errs := errs + ["version"];
    }
    if before.None? {
      errs := errs + ["old version"];
    }
    if after.Some? && before.Some? {
      if !VersionOrder.Zero(after.value) && !VersionOrder.Zero(before.value)
         && VersionOrder.Compare(after.value, before.value) == VersionOrder.Less {
        errs := errs + ["decreased"];
      }
      if VersionOrder.CompareRelease(after.value, VersionOrder.Ceiling(before.value)) != VersionOrder.Less {
        errs := errs + ["increased"];
      }
    }
    if was.topology.value.class_ != c.topology.value.class_ {
      if ClassKey(was) !in classes {
        return errs + ["old class"];
      }
      if !valid.compatible(classes[ClassKey(was)], classes[ClassKey(c)]) {
        errs := errs + ["compatible"];
      }
    }
  }

  /** The overrides of every worker topology. */
  method ValidateOverrides(mds: seq<Deployment>, k: Class, valid: Validator) returns (errs: seq<string>)
    ensures errs == [] <==> forall d | d in mds :: VariablesValid(d.overrides, k, valid)
  {
    errs := [];
    for i := 0 to |mds|
      invariant errs == [] <==> forall j | 0 <= j < i :: VariablesValid(mds[j].overrides, k, valid)
    {
      if |mds[i].overrides| > 0 {
        var e := ValidateClusterVariables(mds[i].overrides, k.variables, false, valid);
        assert e == [] <==> VariablesValid(mds[i].overrides, k, valid);
        errs := errs + e;
      }
    }
  }

  /** The Cluster webhook accepts a topology exactly when it is valid against the class and the infrastructure rule
      holds. */
  lemma AcceptedExactly(t: Topology, k: Class, valid: Validator)
    ensures t.class_ != "" && valid.semver(t.version) && TopologyAccepted(t, k, valid) <==>
              ValidAgainst(t, k, valid) && InfraRule(t, k)
  {
    hide ValuesValid, ValuesComplete;
    forall d | d in Deployments(t)
      ensures (exists c | c in k.deployments :: c.name == d.mdClass) <==> DeploymentClassOf(k, d.mdClass).Some?
    {
      ClassFound(k, d.mdClass);
    }
  }

  lemma ClassFound(k: Class, name: string)
    ensures (exists c | c in k.deployments :: c.name == name) <==> DeploymentClassOf(k, name).Some?
  {
  }

  // ---- ClusterClass webhook ----

  datatype ChangeKind = Added | Altered | Removed | Required

  datatype ChangeKey = ChangeKey(name: string, kind: ChangeKind)

  /** A class variable changed this way in an update, or is required after it. */
  predicate Changed(k: ChangeKey, old_: map<string, ClassVariable>, new_: map<string, ClassVariable>)
  {
    match k.kind
    case Removed => k.name in old_ && k.name !in new_
    case Altered => k.name in old_ && k.name in new_ && old_[k.name].schema != new_[k.name].schema
    case Added => k.name in new_ && k.name !in old_
    case Required => k.name in new_ && new_[k.name].required
  }

  function NewOrOld(n: string, old_: map<string, ClassVariable>, new_: map<string, ClassVariable>): ClassVariable
    requires n in old_ || n in new_
  {
    if n in new_ then new_[n] else old_[n]
  }

  /** The variables an update has to look at: one key per way a variable changed, with its new definition if any. */
  ghost predicate IsVariableDiff(out: map<ChangeKey, ClassVariable>, old_: map<string, ClassVariable>,
                                 new_: map<string, ClassVariable>)
  {
    && (forall k :: k in out <==> Changed(k, old_, new_))
    && (forall k | k in out :: out[k] == NewOrOld(k.name, old_, new_))
  }

  lemma VariableDiffUnique(a: map<ChangeKey, ClassVariable>, b: map<ChangeKey, ClassVariable>,
                           old_: map<string, ClassVariable>, new_: map<string, ClassVariable>)
    requires IsVariableDiff(a, old_, new_) && IsVariableDiff(b, old_, new_)
    ensures a == b
  {}

  function VariableDiff(old_: map<string, ClassVariable>, new_: map<string, ClassVariable>)
    : (out: map<ChangeKey, ClassVariable>)
    ensures IsVariableDiff(out, old_, new_)
  {
    var keys := set n, a | n in old_.Keys + new_.Keys && a in {Added, Altered, Removed, Required} :: ChangeKey(n, a);
    assert forall k | Changed(k, old_, new_) :: k == ChangeKey(k.name, k.kind) && k in keys;
    map k | k in keys && Changed(k, old_, new_) :: NewOrOld(k.name, old_, new_)
  }

  method VariablesForValidation(old_: map<string, ClassVariable>, new_: map<string, ClassVariable>)
    returns (out: map<ChangeKey, ClassVariable>)
    requires forall n | n in new_ :: new_[n].name == n
    ensures out == VariableDiff(old_, new_)
  {
    out := map[];
    var todo := old_.Keys;
    while todo != {}
      invariant todo <= old_.Keys
      invariant forall k :: k in out <==> Changed(k, old_, new_) && k.kind in {Removed, Altered} && k.name !in todo
      invariant forall k | k in out :: out[k] == NewOrOld(k.name, old_, new_)
      decreases |todo|
    {
      var n :| n in todo;
      todo := todo - {n};
      if n !in new_ {
        out := out[ChangeKey(n, Removed) := old_[n]];
      } else if old_[n].schema != new_[n].schema {
        out := out[ChangeKey(n, Altered) := new_[n]];
      }
    }
    todo := new_.Keys;
    while todo != {}
      invariant todo <= new_.Keys
      invariant forall k :: k in out <==> Changed(k, old_, new_) && (k.kind in {Removed, Altered} || k.name !in todo)
      invariant forall k | k in out :: out[k] == NewOrOld(k.name, old_, new_)
      decreases |todo|
    {
      var n :| n in todo;
      todo := todo - {n};
      if n !in old_ {
        out := out[ChangeKey(n, Added) := new_[n]];
      }
      if new_[n].required {
        out := out[ChangeKey(new_[n].name, Required) := new_[n]];
      }
    }
    VariableDiffUnique(out, VariableDiff(old_, new_), old_, new_);
  }

  /** A variable in use survives the update. */
  predicate Survives(v: Variable, diff: map<ChangeKey, ClassVariable>, valid: Validator)
  {
    if ChangeKey(v.name, Altered) in diff then valid.value(diff[ChangeKey(v.name, Altered)].schema, v.value)
    else if ChangeKey(v.name, Removed) in diff then false
    else if ChangeKey(v.name, Added) in diff then valid.value(diff[ChangeKey(v.name, Added)].schema, v.value)
    else true
  }

  type ErrorInfo = map<ChangeKey, seq<string>>

  function Noted(e: ErrorInfo, k: ChangeKey, refs: seq<string>): (r: ErrorInfo)
    ensures r != map[]
  {
    assert k in e[k := (if k in e then e[k] else []) + refs];
    e[k := (if k in e then e[k] else []) + refs]
  }

  /** The loop over one list of variables; `at` prefixes the reported name. */
  method CheckVariables(vs: seq<Variable>, at: string, cluster: string, diff: map<ChangeKey, ClassVariable>,
                        valid: Validator, info: ErrorInfo)
    returns (out: ErrorInfo)
    ensures out == map[] <==> info == map[] && forall v | v in vs :: Survives(v, diff, valid)
  {
    out := info;
    for i := 0 to |vs|
      invariant out == map[] <==> info == map[] && forall k | 0 <= k < i :: Survives(vs[k], diff, valid)
    {
      var n := vs[i].name;
      if ChangeKey(n, Altered) in diff {
        if !valid.value(diff[ChangeKey(n, Altered)].schema, vs[i].value) {
          out := Noted(out, ChangeKey(at + n, Altered), [cluster]);
        }
      } else if ChangeKey(n, Removed) in diff {
        out := Noted(out, ChangeKey(at + n, Removed), [cluster]);
      } else if ChangeKey(n, Added) in diff {
        if !valid.value(diff[ChangeKey(n, Added)].schema, vs[i].value) {
          out := Noted(out, ChangeKey(at + n, Added), [cluster]);
        }
      }
    }
  }

  /** Every cluster listed for a class has a topology. */
  predicate Managed(cs: seq<Cluster>)
  {
    forall c | c in cs :: c.topology.Some?
  }

  ghost predicate ClusterSurvives(t: Topology, diff: map<ChangeKey, ClassVariable>, valid: Validator)
  {
    && (forall v | v in t.variables :: Survives(v, diff, valid))
    && (forall d, v | d in Deployments(t) && v in d.overrides :: Survives(v, diff, valid))
  }

  ghost predicate HasVariable(cs: seq<Cluster>, cluster: string, n: string)
  {
    exists c, v | c in cs && c.topology.Some? && v in c.topology.value.variables :: c.key.name == cluster && v.name == n
  }

  ghost predicate VariableUpdatesOk(cs: seq<Cluster>, diff: map<ChangeKey, ClassVariable>, valid: Validator)
    requires Managed(cs)
  {
    && (forall c | c in cs :: ClusterSurvives(c.topology.value, diff, valid))
    && (forall n, c | ChangeKey(n, Required) in diff && c in cs :: HasVariable(cs, c.key.name, n))
  }

  method CheckCluster(t: Topology, cluster: string, diff: map<ChangeKey, ClassVariable>, valid: Validator,
                      info: ErrorInfo)
    returns (out: ErrorInfo)
    ensures out == map[] <==> info == map[] && ClusterSurvives(t, diff, valid)
  {
    out := CheckVariables(t.variables, "", cluster, diff, valid, info);
    if t.workers.Some? {
      var mds := t.workers.value;
      ghost var sofar := out == map[];
      for i := 0 to |mds|
        invariant out == map[] <==> sofar && forall j, v | 0 <= j < i && v in mds[j].overrides ::
                  Survives(v, diff, valid)
      {
        if |mds[i].overrides| > 0 {
          out := CheckVariables(mds[i].overrides, mds[i].name + "/", cluster, diff, valid, out);
        }
      }
    }
  }

  /** The clusters of the first list that are not in the second. */
  method ClustersWithoutVar(all: seq<string>, with: seq<string>) returns (missing: seq<string>)
    ensures missing == [] <==> forall c | c in all :: c in with
  {
    missing := [];
    for i := 0 to |all|
      invariant missing == [] <==> forall k | 0 <= k < i :: all[k] in with
    {
      if all[i] !in with {
        missing := missing + [all[i]];
      }
    }
  }

  /** What `tracker` records: for each variable, the clusters that define it. */
  ghost predicate Tracks(tracker: map<string, seq<string>>, cs: seq<Cluster>)
    requires Managed(cs)
  {
    && (forall n, o | n in tracker && o in tracker[n] :: HasVariable(cs, o, n))
    && (forall c, v | c in cs && v in c.topology.value.variables :: v.name in tracker && c.key.name in tracker[v.name])
  }

  function ClassDiff(old_: Class, new_: Class): map<ChangeKey, ClassVariable>
  {
    VariableDiff(VariableMap(old_.variables), VariableMap(new_.variables))
  }

  method ValidateVariableUpdates(cs: seq<Cluster>, old_: Class, new_: Class, valid: Validator) returns (errs: ErrorInfo)
    requires Managed(cs)
    ensures errs == map[] <==> VariableUpdatesOk(cs, ClassDiff(old_, new_), valid)
  {
    hide ClusterSurvives, VariableDiff;
    VariableMapIs(new_.variables);
    var diff := VariablesForValidation(VariableMap(old_.variables), VariableMap(new_.variables));
    errs := map[];
    var tracker: map<string, seq<string>> := map[];
    var all: seq<string> := [];
    for i := 0 to |cs|
      invariant |all| == i && forall k | 0 <= k < i :: all[k] == cs[k].key.name
      invariant errs == map[] <==> forall c | c in cs[..i] :: ClusterSurvives(c.topology.value, diff, valid)
      invariant Tracks(tracker, cs[..i])
    {
      assert cs[i] in cs;
      assert cs[..i] + [cs[i]] == cs[..i + 1];
      all := all + [cs[i].key.name];
      errs := CheckCluster(cs[i].topology.value, cs[i].key.name, diff, valid, errs);
      tracker := Track(tracker, cs[i].topology.value.variables, cs[i].key.name, cs[..i], cs[i]);
    }
    assert cs[..|cs|] == cs;
    errs := CheckRequired(cs, all, tracker, diff, errs);
  }

  /** The loop over the required variables of the new class. */
  method CheckRequired(ghost cs: seq<Cluster>, all: seq<string>, tracker: map<string, seq<string>>,
                       diff: map<ChangeKey, ClassVariable>, info: ErrorInfo)
    returns (errs: ErrorInfo)
    requires Managed(cs) && Tracks(tracker, cs)
    requires |all| == |cs| && forall k | 0 <= k < |cs| :: all[k] == cs[k].key.name
    ensures errs == map[] <==> info == map[] && forall n, c | ChangeKey(n, Required) in diff && c in cs ::
            HasVariable(cs, c.key.name, n)
  {
    errs := info;
    var todo := diff.Keys;
    while todo != {}
      invariant todo <= diff.Keys
      invariant errs == map[] <==>
                  info == map[] && forall k, c | k in diff && k !in todo && k.kind == Required && c in cs ::
                    HasVariable(cs, c.key.name, k.name)
      decreases |todo|
    {
      var k :| k in todo;
      todo := todo - {k};
      if k.kind == Required {
        var with := if k.name in tracker then tracker[k.name] else [];
        var missing := ClustersWithoutVar(all, with);
        TrackerExact(cs, all, with, k.name);
        if |missing| > 0 {
          errs := Noted(errs, k, missing);
        }
      }
    }
  }

  /** Recording which clusters define which variables. */
  method Track(tracker: map<string, seq<string>>, vs: seq<Variable>, name: string, ghost done: seq<Cluster>,
               ghost c: Cluster)
    returns (out: map<string, seq<string>>)
    requires c.topology.Some? && c.topology.value.variables == vs && c.key.name == name
    requires Managed(done) && Tracks(tracker, done)
    ensures Tracks(out, done + [c])
  {
    out := tracker;
    ghost var cs := done + [c];
    forall n, o | n in tracker && o in tracker[n]
      ensures HasVariable(cs, o, n)
    {
      var d, v :| d in done && d.topology.Some? && v in d.topology.value.variables && d.key.name == o && v.name == n;
      assert d in cs;
    }
    for i := 0 to |vs|
      invariant forall n, o | n in out && o in out[n] :: HasVariable(cs, o, n)
      invariant forall n, o | n in tracker && o in tracker[n] :: n in out && o in out[n]
      invariant forall k | 0 <= k < i :: vs[k].name in out && name in out[vs[k].name]
    {
      var n := vs[i].name;
      assert c in cs && vs[i] in c.topology.value.variables;
      assert HasVariable(cs, name, n);
      out := out[n := (if n in out then out[n] else []) + [name]];
    }
  }

  lemma TrackerExact(cs: seq<Cluster>, all: seq<string>, with: seq<string>, n: string)
    requires |all| == |cs| && forall k | 0 <= k < |cs| :: all[k] == cs[k].key.name
    requires forall o | o in with :: HasVariable(cs, o, n)
    requires forall c, v | c in cs && c.topology.Some? && v in c.topology.value.variables && v.name == n ::
             c.key.name in with
    ensures (forall o | o in all :: o in with) <==> forall c | c in cs :: HasVariable(cs, c.key.name, n)
  {
    forall c | c in cs
      ensures c.key.name in all
    {
      var k :| 0 <= k < |cs| && cs[k] == c;
      assert all[k] == c.key.name;
    }
    assert forall o | o in all :: HasVariable(cs, o, n) <==> o in with;
  }

  ghost predicate CheckKept(t: Topology, old_: Class, new_: Class)
  {
    && (old_.check.Some? && new_.check.None? ==> !Relies(t.check))
    && (forall d, m | d in new_.deployments && Dropped(d, old_) && m in Deployments(t) && m.mdClass == d.name ::
       !Relies(m.check))
  }

  /** The update takes away a health check definition the old class had. */
  predicate Dropped(d: DeploymentClass, old_: Class)
  {
    var o := DeploymentClassOf(old_, d.name);
    o.Some? && o.value.check.Some? && d.check.None?
  }

  method ValidateHealthCheckUpdates(cs: seq<Cluster>, old_: Class, new_: Class) returns (errs: seq<string>)
    requires Managed(cs)
    ensures errs == [] <==> forall c | c in cs :: CheckKept(c.topology.value, old_, new_)
  {
    errs := [];
    if old_.check.Some? && new_.check.None? {
      var using: seq<string> := [];
      for i := 0 to |cs|
        invariant using == [] <==> forall k | 0 <= k < i :: !Relies(cs[k].topology.value.check)
      {
        assert cs[i] in cs;
        if Relies(cs[i].topology.value.check) {
          using := using + [cs[i].key.name];
        }
      }
      if |using| != 0 {
        errs := errs + ["controlPlane"];
      }
    }
    ghost var cpOk := errs == [];
    assert cpOk <==> forall c | c in cs :: old_.check.Some? && new_.check.None? ==> !Relies(c.topology.value.check);
    for i := 0 to |new_.deployments|
      invariant errs == [] <==> cpOk && forall j, c, m | 0 <= j < i && Dropped(new_.deployments[j], old_) && c in cs
                                          && m in Deployments(c.topology.value)
                                             && m.mdClass == new_.deployments[j].name :: !Relies(m.check)
    {
      var d := new_.deployments[i];
      if Dropped(d, old_) {
        var using := ClustersRelying(cs, d.name);
        if |using| != 0 {
          errs := errs + [d.name];
        }
      }
    }
  }

  /** Clusters with a worker of this class that relies on the class for its health check. */
  method ClustersRelying(cs: seq<Cluster>, mdClass: string) returns (using: seq<string>)
    requires Managed(cs)
    ensures using == [] <==> forall c, m | c in cs && m in Deployments(c.topology.value) && m.mdClass == mdClass ::
            !Relies(m.check)
  {
    using := [];
    for i := 0 to |cs|
      invariant using == [] <==>
                  forall k, m | 0 <= k < i && m in Deployments(cs[k].topology.value) && m.mdClass == mdClass ::
                    !Relies(m.check)
    {
      assert cs[i] in cs;
      var mds := Deployments(cs[i].topology.value);
      var found := false;
      for j := 0 to |mds|
        invariant !found && forall l | 0 <= l < j && mds[l].mdClass == mdClass :: !Relies(mds[l].check)
      {
        if mds[j].mdClass == mdClass && Relies(mds[j].check) {
          found := true;
          assert mds[j] in mds;
          break;
        }
      }
      if found {
        using := using + [cs[i].key.name];
      }
    }
  }

  function RemovedClasses(old_: Class, new_: Class): set<string>
  {
    (set d | d in old_.deployments :: d.name) - (set d | d in new_.deployments :: d.name)
  }

  predicate ClassesKept(t: Topology, removed: set<string>)
  {
    t.workers.Some? && forall m | m in t.workers.value :: m.mdClass !in removed
  }

  /** None when the webhook dereferences absent workers; the request then fails. */
  method ValidateRemovedClasses(cs: seq<Cluster>, old_: Class, new_: Class) returns (r: Option<seq<string>>)
    requires Managed(cs)
    ensures r == Some([]) <==>
              (RemovedClasses(old_, new_) != {} ==> forall c | c in cs ::
                ClassesKept(c.topology.value, RemovedClasses(old_, new_)))
  {
    var removed := RemovedClasses(old_, new_);
    if removed == {} {
      return Some([]);
    }
    var errs := [];
    for i := 0 to |cs|
      invariant errs == [] <==> forall k | 0 <= k < i :: ClassesKept(cs[k].topology.value, removed)
    {
      assert cs[i] in cs;
      if cs[i].topology.value.workers.None? {
        return None;
      }
      var mds := cs[i].topology.value.workers.value;
      ghost var sofar := errs == [];
      for j := 0 to |mds|
        invariant errs == [] <==> sofar && forall l | 0 <= l < j :: mds[l].mdClass !in removed
      {
        if mds[j].mdClass in removed {
          errs := errs + [mds[j].mdClass];
        }
      }
    }
    r := Some(errs);
  }

  ghost predicate UniqueClasses(k: Class)
  {
    forall i, j | 0 <= i < j < |k.deployments| :: k.deployments[i].name != k.deployments[j].name
  }

  /** Definitions in the class are well formed, and one for the control plane comes with machine infrastructure. */
  ghost predicate ClassChecksOk(k: Class, valid: Validator)
  {
    && (k.check.Some? ==> valid.check(k.check.value) && k.hasInfra)
    && (forall d | d in k.deployments && d.check.Some? :: valid.check(d.check.value))
  }

  method MachineDeploymentClassesAreUnique(k: Class) returns (errs: seq<string>)
    ensures errs == [] <==> UniqueClasses(k)
  {
    errs := [];
    var classes := {};
    for i := 0 to |k.deployments|
      invariant classes == set j | 0 <= j < i :: k.deployments[j].name
      invariant errs == [] <==> forall j, l | 0 <= j < l < i :: k.deployments[j].name != k.deployments[l].name
    {
      if k.deployments[i].name in classes {
        errs := errs + [k.deployments[i].name];
      }
      classes := classes + {k.deployments[i].name};
    }
  }

  method ValidateMachineHealthCheckClasses(k: Class, valid: Validator) returns (errs: seq<string>)
    ensures errs == [] <==> ClassChecksOk(k, valid)
  {
    errs := [];
    if k.check.Some? {
      if !valid.check(k.check.value) {
        errs := errs + ["definition"];
      }
      if !k.hasInfra {
        errs := errs + ["machineInfrastructure"];
      }
    }
    ghost var cpOk := errs == [];
    for i := 0 to |k.deployments|
      invariant errs == [] <==>
                  cpOk && forall j | 0 <= j < i && k.deployments[j].check.Some? ::
                            valid.check(k.deployments[j].check.value)
    {
      if k.deployments[i].check.Some? && !valid.check(k.deployments[i].check.value) {
        errs := errs + [k.deployments[i].name];
      }
    }
  }

  /** Everything the ClusterClass webhook demands. */
  ghost predicate ClassAccepted(cs: seq<Cluster>, old_: Option<Class>, new_: Class, valid: Validator)
  {
    && valid.gate && valid.references(new_) && UniqueClasses(new_) && ClassChecksOk(new_, valid)
    && valid.variables(new_) && valid.patches(new_)
    && (old_.Some? ==>
          && Managed(cs) && valid.compatible(old_.value, new_)
          && (RemovedClasses(old_.value, new_) != {} ==>
                forall c | c in cs :: ClassesKept(c.topology.value, RemovedClasses(old_.value, new_)))
          && (forall c | c in cs :: CheckKept(c.topology.value, old_.value, new_))
          && VariableUpdatesOk(cs, ClassDiff(old_.value, new_), valid))
  }

  method ValidateClass(cs: seq<Cluster>, old_: Option<Class>, new_: Class, valid: Validator) returns (ok: bool)
    requires Managed(cs)
    ensures ok <==> ClassAccepted(cs, old_, new_, valid)
  {
    hide UniqueClasses, ClassChecksOk, CheckKept, VariableUpdatesOk, RemovedClasses, ClassesKept;
    if !valid.gate {
      return false;
    }
    var u := MachineDeploymentClassesAreUnique(new_);
    var h := ValidateMachineHealthCheckClasses(new_, valid);
    ok := valid.references(new_) && u == [] && h == [] && valid.variables(new_) && valid.patches(new_);
    if old_.Some? {
      var r := ValidateRemovedClasses(cs, old_.value, new_);
      var c := ValidateHealthCheckUpdates(cs, old_.value, new_);
      var v := ValidateVariableUpdates(cs, old_.value, new_, valid);
      ok := ok && valid.compatible(old_.value, new_) && r == Some([]) && c == [] && v == map[];
    }
  }

  lemma VariableKept(v: Variable, old_: Class, new_: Class, diff: map<ChangeKey, ClassVariable>, valid: Validator)
    requires IsVariableDiff(diff, VariableMap(old_.variables), VariableMap(new_.variables))
    requires VariablesValid([v], old_, valid) && Survives(v, diff, valid)
    ensures VariablesValid([v], new_, valid)
  {
    assert v in [v];
    var n := v.name;
    assert ChangeKey(n, Removed) !in diff;
    assert ChangeKey(n, Altered) in diff ==> diff[ChangeKey(n, Altered)] == VariableMap(new_.variables)[n];
  }

  lemma VariablesKept(vs: seq<Variable>, old_: Class, new_: Class, diff: map<ChangeKey, ClassVariable>,
                      valid: Validator)
    requires IsVariableDiff(diff, VariableMap(old_.variables), VariableMap(new_.variables))
    requires VariablesValid(vs, old_, valid) && forall v | v in vs :: Survives(v, diff, valid)
    ensures VariablesValid(vs, new_, valid)
  {
    forall v | v in vs
      ensures v.name in VariableMap(new_.variables) && valid.value(VariableMap(new_.variables)[v.name].schema, v.value)
    {
      assert VariablesValid([v], old_, valid);
      VariableKept(v, old_, new_, diff, valid);
      assert v in [v];
    }
  }

  lemma WorkerKept(m: Deployment, t: Topology, old_: Class, new_: Class, diff: map<ChangeKey, ClassVariable>,
                   valid: Validator)
    requires m in Deployments(t) && DeploymentValid(m, old_, valid)
    requires IsVariableDiff(diff, VariableMap(old_.variables), VariableMap(new_.variables))
    requires ClusterSurvives(t, diff, valid) && CheckKept(t, old_, new_)
    requires RemovedClasses(old_, new_) != {} ==> ClassesKept(t, RemovedClasses(old_, new_))
    ensures DeploymentValid(m, new_, valid)
  {
    VariablesKept(m.overrides, old_, new_, diff, valid);
    var o := DeploymentClassOf(old_, m.mdClass).value;
    assert o in old_.deployments;
    assert m.mdClass !in RemovedClasses(old_, new_);
    assert o.name in set d | d in old_.deployments :: d.name;
    assert o.name in set d | d in new_.deployments :: d.name;
    var n := DeploymentClassOf(new_, m.mdClass);
    assert n.Some?;
  }

  /** What the ClusterClass webhook accepts keeps a valid cluster valid. */
  lemma UpdateKeepsValid(t: Topology, old_: Class, new_: Class, diff: map<ChangeKey, ClassVariable>, valid: Validator)
    requires ValidAgainst(t, old_, valid)
    requires IsVariableDiff(diff, VariableMap(old_.variables), VariableMap(new_.variables))
    requires ClusterSurvives(t, diff, valid) && CheckKept(t, old_, new_)
    requires RemovedClasses(old_, new_) != {} ==> ClassesKept(t, RemovedClasses(old_, new_))
    requires forall n | ChangeKey(n, Required) in diff :: exists v | v in t.variables :: v.name == n
    ensures ValidAgainst(t, new_, valid)
  {
    VariablesKept(t.variables, old_, new_, diff, valid);
    forall n | n in VariableMap(new_.variables) && VariableMap(new_.variables)[n].required
      ensures exists v | v in t.variables :: v.name == n
    {
      assert ChangeKey(n, Required) in diff;
    }
    forall d | d in Deployments(t)
      ensures DeploymentValid(d, new_, valid)
    {
      WorkerKept(d, t, old_, new_, diff, valid);
    }
  }

  // ---- the update checks refuse nothing else ----

  lemma VariableSurvivesExactly(v: Variable, old_: Class, new_: Class, diff: map<ChangeKey, ClassVariable>,
                                valid: Validator)
    requires IsVariableDiff(diff, VariableMap(old_.variables), VariableMap(new_.variables))
    requires VariablesValid([v], old_, valid)
    ensures Survives(v, diff, valid) <==> VariablesValid([v], new_, valid)
  {
    hide VariableMap;
    assert v in [v];
    var n := v.name;
    assert ChangeKey(n, Removed) in diff <==> n !in VariableMap(new_.variables);
    assert ChangeKey(n, Added) !in diff;
    assert ChangeKey(n, Altered) in diff ==> diff[ChangeKey(n, Altered)] == VariableMap(new_.variables)[n];
  }

  lemma VariablesSurviveExactly(vs: seq<Variable>, old_: Class, new_: Class, diff: map<ChangeKey, ClassVariable>,
                                valid: Validator)
    requires IsVariableDiff(diff, VariableMap(old_.variables), VariableMap(new_.variables))
    requires VariablesValid(vs, old_, valid)
    ensures (forall v | v in vs :: Survives(v, diff, valid)) <==> VariablesValid(vs, new_, valid)
  {
    hide VariableMap, Survives, IsVariableDiff;
    forall v | v in vs
      ensures Survives(v, diff, valid) <==> VariablesValid([v], new_, valid)
    {
      assert forall x | x in [v] :: x in vs;
      VariableSurvivesExactly(v, old_, new_, diff, valid);
    }
    assert forall v | v in vs :: v in [v];
    assert forall v, x | v in vs && x in [v] :: x == v;
  }

  /** The variables of a topology and the overrides of its workers are valid. */
  ghost predicate AllVariablesValid(t: Topology, k: Class, valid: Validator)
  {
    VariablesValid(t.variables, k, valid) && forall d | d in Deployments(t) :: VariablesValid(d.overrides, k, valid)
  }

  lemma ClusterSurvivesExactly(t: Topology, old_: Class, new_: Class, diff: map<ChangeKey, ClassVariable>,
                               valid: Validator)
    requires IsVariableDiff(diff, VariableMap(old_.variables), VariableMap(new_.variables))
    requires AllVariablesValid(t, old_, valid)
    ensures ClusterSurvives(t, diff, valid) <==> AllVariablesValid(t, new_, valid)
  {
    hide VariablesValid, Survives, IsVariableDiff, VariableMap;
    VariablesSurviveExactly(t.variables, old_, new_, diff, valid);
    forall d | d in Deployments(t)
      ensures (forall v | v in d.overrides :: Survives(v, diff, valid)) <==> VariablesValid(d.overrides, new_, valid)
    {
      VariablesSurviveExactly(d.overrides, old_, new_, diff, valid);
    }
  }

  ghost predicate NamedApart(cs: seq<Cluster>)
  {
    forall c, d | c in cs && d in cs && c.key.name == d.key.name :: c == d
  }

  /** For clusters whose variables are valid against the old class, the update of the variables is accepted exactly when
      they are valid against the new class and set whatever it requires. */
  lemma VariableUpdatesExactly(cs: seq<Cluster>, old_: Class, new_: Class, valid: Validator)
    requires Managed(cs) && NamedApart(cs) && forall c | c in cs :: AllVariablesValid(c.topology.value, old_, valid)
    ensures VariableUpdatesOk(cs, ClassDiff(old_, new_), valid) <==>
              forall c | c in cs ::
                AllVariablesValid(c.topology.value, new_, valid) && RequiredSet(c.topology.value.variables, new_)
  {
    var diff := ClassDiff(old_, new_);
    forall c | c in cs
      ensures ClusterSurvives(c.topology.value, diff, valid) <==> AllVariablesValid(c.topology.value, new_, valid)
    {
      ClusterSurvivesExactly(c.topology.value, old_, new_, diff, valid);
    }
    hide ClusterSurvives, AllVariablesValid, VariableMap, VariableDiff;
    forall c | c in cs
      ensures (forall n | ChangeKey(n, Required) in diff :: HasVariable(cs, c.key.name, n)) <==>
                RequiredSet(c.topology.value.variables, new_)
    {
      RequiredExactly(cs, c, old_, new_, diff);
    }
  }

  lemma RequiredExactly(cs: seq<Cluster>, c: Cluster, old_: Class, new_: Class, diff: map<ChangeKey, ClassVariable>)
    requires Managed(cs) && NamedApart(cs) && c in cs
    requires IsVariableDiff(diff, VariableMap(old_.variables), VariableMap(new_.variables))
    ensures (forall n | ChangeKey(n, Required) in diff :: HasVariable(cs, c.key.name, n)) <==>
              RequiredSet(c.topology.value.variables, new_)
  {
    hide VariableMap;
    var vs, m := c.topology.value.variables, VariableMap(new_.variables);
    forall n: string
      ensures ChangeKey(n, Required) in diff <==> n in m && m[n].required
      ensures HasVariable(cs, c.key.name, n) <==> exists v | v in vs :: v.name == n
    {
    }
  }

  lemma ClassUnique(k: Class, d: DeploymentClass)
    requires UniqueClasses(k) && d in k.deployments
    ensures DeploymentClassOf(k, d.name) == Some(d)
  {
    var i :| 0 <= i < |k.deployments| && k.deployments[i] == d;
    var c := DeploymentClassOf(k, d.name);
    ClassFound(k, d.name);
    var j :| 0 <= j < |k.deployments| && k.deployments[j] == c.value;
  }

  /** For clusters valid against the old class, the checks of an update against its clusters pass exactly when every
      cluster is valid against the new class, and has a worker list if a worker class was removed. */
  lemma UpdateChecksExactly(cs: seq<Cluster>, old_: Class, new_: Class, valid: Validator)
    requires Managed(cs) && NamedApart(cs) && UniqueClasses(new_)
    requires forall c | c in cs :: ValidAgainst(c.topology.value, old_, valid)
    ensures && (RemovedClasses(old_, new_) != {} ==>
                  forall c | c in cs :: ClassesKept(c.topology.value, RemovedClasses(old_, new_)))
            && (forall c | c in cs :: CheckKept(c.topology.value, old_, new_))
            && VariableUpdatesOk(cs, ClassDiff(old_, new_), valid)
            <==>
            && (forall c | c in cs :: ValidAgainst(c.topology.value, new_, valid))
            && (RemovedClasses(old_, new_) != {} ==> forall c | c in cs :: c.topology.value.workers.Some?)
  {
    forall c | c in cs
      ensures AllVariablesValid(c.topology.value, old_, valid)
    {
      assert ValidAgainst(c.topology.value, old_, valid);
    }
    VariableUpdatesExactly(cs, old_, new_, valid);
    hide VariableUpdatesOk, VariablesValid, RequiredSet;
    forall c | c in cs
      ensures && ValidAgainst(c.topology.value, new_, valid)
              && (RemovedClasses(old_, new_) != {} ==> c.topology.value.workers.Some?)
              <==>
              && AllVariablesValid(c.topology.value, new_, valid) && RequiredSet(c.topology.value.variables, new_)
              && CheckKept(c.topology.value, old_, new_)
              && (RemovedClasses(old_, new_) != {} ==> ClassesKept(c.topology.value, RemovedClasses(old_, new_)))
    {
      TopologyKeptExactly(c.topology.value, old_, new_, valid);
    }
  }

  lemma TopologyKeptExactly(t: Topology, old_: Class, new_: Class, valid: Validator)
    requires ValidAgainst(t, old_, valid) && UniqueClasses(new_)
    ensures ValidAgainst(t, new_, valid) && (RemovedClasses(old_, new_) != {} ==> t.workers.Some?) <==>
              && AllVariablesValid(t, new_, valid) && RequiredSet(t.variables, new_) && CheckKept(t, old_, new_)
              && (RemovedClasses(old_, new_) != {} ==> ClassesKept(t, RemovedClasses(old_, new_)))
  {
    hide VariablesValid, RequiredSet;
    var removed := RemovedClasses(old_, new_);
    forall m | m in Deployments(t)
      ensures m.mdClass in removed <==> DeploymentClassOf(new_, m.mdClass).None?
      ensures DeploymentClassOf(new_, m.mdClass).Some? ==>
                (Relies(m.check) ==> DeploymentClassOf(new_, m.mdClass).value.check.Some?) ==
                (Relies(m.check) ==> !Dropped(DeploymentClassOf(new_, m.mdClass).value, old_))
    {
      assert DeploymentValid(m, old_, valid);
      ClassFound(old_, m.mdClass);
      ClassFound(new_, m.mdClass);
    }
    forall d, m | d in new_.deployments && m in Deployments(t) && m.mdClass == d.name
      ensures DeploymentClassOf(new_, m.mdClass) == Some(d)
    {
      ClassUnique(new_, d);
    }
    hide DeploymentClassOf, RemovedClasses, UniqueClasses;
    if CheckKept(t, old_, new_) {
      forall m | m in Deployments(t) && DeploymentClassOf(new_, m.mdClass).Some? && Relies(m.check)
        ensures !Dropped(DeploymentClassOf(new_, m.mdClass).value, old_)
      {
        var d := DeploymentClassOf(new_, m.mdClass).value;
        assert d in new_.deployments && m.mdClass == d.name;
      }
    }
  }

  /** An accepted class update leaves a cluster the Cluster webhook accepted acceptable exactly when the cluster has no
      control plane definition of its own or the class still names machine infrastructure. */
  lemma UpdateAcceptedAgainExactly(t: Topology, old_: Class, new_: Class, diff: map<ChangeKey, ClassVariable>,
                                   valid: Validator)
    requires t.class_ != "" && valid.semver(t.version) && TopologyAccepted(t, old_, valid)
    requires IsVariableDiff(diff, VariableMap(old_.variables), VariableMap(new_.variables))
    requires ClusterSurvives(t, diff, valid) && CheckKept(t, old_, new_)
    requires RemovedClasses(old_, new_) != {} ==> ClassesKept(t, RemovedClasses(old_, new_))
    requires forall n | ChangeKey(n, Required) in diff :: exists v | v in t.variables :: v.name == n
    ensures TopologyAccepted(t, new_, valid) <==> InfraRule(t, new_)
  {
    AcceptedExactly(t, old_, valid);
    AcceptedExactly(t, new_, valid);
    hide TopologyAccepted, ValidAgainst;
    UpdateKeepsValid(t, old_, new_, diff, valid);
  }

  /** A validator that lets every single value pass. */
  const LENIENT := Validator((s: string, v: string) => true, (d: string) => true, (l: string) => true,
                             (v: string) => true, (v: string) => Some(VersionOrder.ZERO), (k: Class) => true,
                             (k: Class) => true, (k: Class) => true, (a: Class, b: Class) => true, true)

  /** The update that fails it: the class drops its machine infrastructure under a cluster with a definition of its
      own. */
  lemma InfrastructureDropped(key: Key)
    ensures var was, now := Class(key, [], None, true, []), Class(key, [], None, false, []);
            var t := Topology(key.name, "v1.26.6", [], Some(HealthCheck(None, Some("d"))), None);
            var c := Cluster(Key(key.namespace, "c"), false, Some(t));
            && TopologyAccepted(t, was, LENIENT) && ClassAccepted([c], Some(was), now, LENIENT)
            && !TopologyAccepted(t, now, LENIENT)
  {
    var was, now := Class(key, [], None, true, []), Class(key, [], None, false, []);
    assert VariableMap(was.variables) == map[] == VariableMap(now.variables);
    assert ClassDiff(was, now) == map[];
    assert RemovedClasses(was, now) == {};
  }

  // ---- runs of accepted writes ----

  datatype Store = Store(clusters: map<Key, Cluster>, classes: map<Key, Class>)

  /** `listed` is what listing the clusters of a class returned, in any order. */
  datatype Request =
    | PutCluster(cluster: Cluster, rest: bool)
    | DeleteCluster(key: Key)
    | PutClass(new_: Class, listed: seq<Cluster>)
    | DeleteClass(key: Key, listed: seq<Cluster>)

  ghost predicate Lists(s: Store, key: Key, listed: seq<Cluster>)
  {
    forall c :: c in listed <==> c.key in s.clusters && s.clusters[c.key] == c && c.topology.Some? && ClassKey(c) == key
  }

  /** The Cluster webhook; `rest` stands for its checks of name, references and networks. */
  ghost predicate ClusterAccepted(s: Store, c: Cluster, valid: Validator, rest: bool)
  {
    var was := if c.key in s.clusters then Some(s.clusters[c.key]) else None;
    && rest
    && (if c.topology.Some? then TopologyValid(c, was, s.classes, valid)
        else was.Some? ==> was.value.topology.None?)
  }

  ghost function Step(s: Store, r: Request, valid: Validator): Store
  {
    match r
    case PutCluster(c, rest) =>
      if ClusterAccepted(s, c, valid, rest) then s.(clusters := s.clusters[c.key := c]) else s
    case DeleteCluster(key) => s.(clusters := s.clusters - {key})
    case PutClass(k, listed) =>
      var old_ := if k.key in s.classes then Some(s.classes[k.key]) else None;
      if Lists(s, k.key, listed) && ClassAccepted(listed, old_, k, valid) then
        s.(classes := s.classes[k.key := k])
      else s
    case DeleteClass(key, listed) =>
      if Lists(s, key, listed) && |listed| == 0 then s.(classes := s.classes - {key}) else s
  }

  ghost function Run(s: Store, rs: seq<Request>, valid: Validator): Store
  {
    if rs == [] then s else Step(Run(s, rs[..|rs| - 1], valid), rs[|rs| - 1], valid)
  }

  /** Every managed cluster's class exists, and the cluster is valid against it but for the infrastructure rule. */
  ghost predicate Consistent(s: Store, valid: Validator)
  {
    && (forall k | k in s.clusters :: s.clusters[k].key == k)
    && (forall k | k in s.clusters && s.clusters[k].topology.Some? ::
          var c := s.clusters[k];
          ClassKey(c) in s.classes && ValidAgainst(c.topology.value, s.classes[ClassKey(c)], valid))
  }

  lemma PutClassKeeps(s: Store, new_: Class, listed: seq<Cluster>, valid: Validator)
    requires Consistent(s, valid)
    ensures Consistent(Step(s, PutClass(new_, listed), valid), valid)
  {
    hide ValidAgainst, CheckKept, ClusterSurvives, IsVariableDiff, VariableDiff, ClassesKept, RemovedClasses,
      VariableMap;
    var old_ := if new_.key in s.classes then Some(s.classes[new_.key]) else None;
    if Lists(s, new_.key, listed) && ClassAccepted(listed, old_, new_, valid) && old_.Some? {
      var diff := ClassDiff(old_.value, new_);
      forall k | k in s.clusters && s.clusters[k].topology.Some? && ClassKey(s.clusters[k]) == new_.key
        ensures ValidAgainst(s.clusters[k].topology.value, new_, valid)
      {
        var c := s.clusters[k];
        assert c in listed;
        forall n | ChangeKey(n, Required) in diff
          ensures exists v | v in c.topology.value.variables :: v.name == n
        {
          assert HasVariable(listed, c.key.name, n);
          var d, v :| d in listed && d.topology.Some? && v in d.topology.value.variables && d.key.name == c.key.name
            && v.name == n;
          assert d.key == c.key;
        }
        UpdateKeepsValid(c.topology.value, old_.value, new_, diff, valid);
      }
    }
  }

  /** What the class must satisfy by itself, and against its former version. */
  ghost predicate ClassSound(old_: Class, new_: Class, valid: Validator)
  {
    && valid.gate && valid.references(new_) && UniqueClasses(new_) && ClassChecksOk(new_, valid)
    && valid.variables(new_) && valid.patches(new_) && valid.compatible(old_, new_)
  }

  /** An update of a stored class is taken exactly when the class is sound, every stored cluster of it is valid
      against the new version, and each has a worker list if a worker class was removed. */
  lemma ClassUpdateExactly(s: Store, new_: Class, listed: seq<Cluster>, valid: Validator)
    requires Consistent(s, valid) && new_.key in s.classes && s.classes[new_.key] != new_ && Lists(s, new_.key, listed)
    ensures Step(s, PutClass(new_, listed), valid).classes[new_.key] == new_ <==>
              && ClassSound(s.classes[new_.key], new_, valid)
              && forall c | c in listed ::
                   && c.topology.Some? && ValidAgainst(c.topology.value, new_, valid)
                   && (RemovedClasses(s.classes[new_.key], new_) != {} ==> c.topology.value.workers.Some?)
    ensures Step(s, PutClass(new_, listed), valid).clusters == s.clusters
  {
    hide ValidAgainst, CheckKept, ClassesKept, RemovedClasses, VariableUpdatesOk, UniqueClasses, ClassChecksOk;
    if UniqueClasses(new_) {
      UpdateChecksExactly(listed, s.classes[new_.key], new_, valid);
    }
  }

  /** A class goes exactly when no stored cluster uses it, and nothing else goes with it. */
  lemma ClassDeletedExactly(s: Store, key: Key, listed: seq<Cluster>, valid: Validator)
    requires Consistent(s, valid) && key in s.classes && Lists(s, key, listed)
    ensures var after := Step(s, DeleteClass(key, listed), valid);
            && after.clusters == s.clusters && after.classes - {key} == s.classes - {key}
            && (key in after.classes <==>
                  exists k :: k in s.clusters && s.clusters[k].topology.Some? && ClassKey(s.clusters[k]) == key)
  {
    hide ValidAgainst;
    forall k | k in s.clusters && s.clusters[k].topology.Some? && ClassKey(s.clusters[k]) == key
      ensures s.clusters[k] in listed
    {}
    if |listed| > 0 {
      assert listed[0] in listed;
      assert s.clusters[listed[0].key] == listed[0];
    }
  }

  /** A new managed cluster is stored exactly when the feature is on, its class exists, it is valid against it and
      satisfies the infrastructure rule, and the remaining checks pass. */
  lemma ClusterCreatedExactly(s: Store, c: Cluster, rest: bool, valid: Validator)
    requires Consistent(s, valid) && c.topology.Some? && c.key !in s.clusters
    ensures var after := Step(s, PutCluster(c, rest), valid);
            && after.classes == s.classes && after.clusters - {c.key} == s.clusters
            && (c.key in after.clusters ==> after.clusters[c.key] == c)
            && (c.key in after.clusters <==>
                  && rest && valid.gate
                  && ClassKey(c) in s.classes && ValidAgainst(c.topology.value, s.classes[ClassKey(c)], valid)
                  && InfraRule(c.topology.value, s.classes[ClassKey(c)]))
  {
    hide TopologyAccepted, VariablesValid, RequiredSet, DeploymentValid;
    if ClassKey(c) in s.classes && c.topology.value.class_ != "" && valid.semver(c.topology.value.version) {
      AcceptedExactly(c.topology.value, s.classes[ClassKey(c)], valid);
    }
  }

  /** Another version of a stored cluster is taken exactly when the remaining checks pass and: it stays without a
      topology; or it has a valid one for an existing class and, if there was one before, the step in version is
      allowed and another class is compatible with the former, and if there was none, it says so. */
  lemma ClusterUpdatedExactly(s: Store, c: Cluster, rest: bool, valid: Validator)
    requires Consistent(s, valid) && c.key in s.clusters && s.clusters[c.key] != c
    ensures var was, after := s.clusters[c.key], Step(s, PutCluster(c, rest), valid);
            && after.classes == s.classes && after.clusters - {c.key} == s.clusters - {c.key}
            && (after.clusters[c.key] == c <==>
                  && rest
                  && if c.topology.None? then was.topology.None?
                     else
                       && valid.gate && ClassKey(c) in s.classes
                       && ValidAgainst(c.topology.value, s.classes[ClassKey(c)], valid)
                       && InfraRule(c.topology.value, s.classes[ClassKey(c)])
                       && if was.topology.None? then c.unsafe
                          else
                            && VersionOrder.VersionAccepted(valid.parse(was.topology.value.version),
                                                            valid.parse(c.topology.value.version))
                            && (was.topology.value.class_ != c.topology.value.class_ ==>
                                  ClassKey(was) in s.classes
                                  && valid.compatible(s.classes[ClassKey(was)], s.classes[ClassKey(c)])))
  {
    hide TopologyAccepted, VariablesValid, RequiredSet, DeploymentValid, VersionOrder.VersionAccepted, InfraRule;
    if c.topology.Some? && ClassKey(c) in s.classes && c.topology.value.class_ != ""
       && valid.semver(c.topology.value.version) {
      AcceptedExactly(c.topology.value, s.classes[ClassKey(c)], valid);
    }
  }

  lemma StepKeeps(s: Store, r: Request, valid: Validator)
    requires Consistent(s, valid)
    ensures Consistent(Step(s, r, valid), valid)
  {
    match r {
      case PutCluster(c, rest) =>
        hide ValidAgainst, TopologyAccepted, UpdateAccepted;
        if ClusterAccepted(s, c, valid, rest) && c.topology.Some? {
          AcceptedExactly(c.topology.value, s.classes[ClassKey(c)], valid);
        }
      case DeleteCluster(key) =>
      case PutClass(k, listed) =>
        PutClassKeeps(s, k, listed, valid);
      case DeleteClass(key, listed) =>
        hide ValidAgainst;
        if Lists(s, key, listed) && |listed| == 0 {
          forall k | k in s.clusters && s.clusters[k].topology.Some?
            ensures ClassKey(s.clusters[k]) != key
          {
            assert s.clusters[k] !in listed;
          }
        }
    }
  }

  /** Along every run of accepted writes, in any order and from any consistent store, every managed cluster stays
      valid, but for the infrastructure rule, against the current version of an existing class. */
  lemma {:induction false} AlwaysConsistent(s: Store, rs: seq<Request>, valid: Validator)
    requires Consistent(s, valid)
    ensures Consistent(Run(s, rs, valid), valid)
  {
    if rs != [] {
      AlwaysConsistent(s, rs[..|rs| - 1], valid);
      StepKeeps(Run(s, rs[..|rs| - 1], valid), rs[|rs| - 1], valid);
    }
  }

  // ---- the infrastructure rule along runs ----

  lemma SameVersion(v: VersionOrder.Version)
    requires v.minor <= VersionOrder.MAX_UINT64
    ensures VersionOrder.VersionAccepted(Some(v), Some(v)) <==> v.minor + 2 <= VersionOrder.MAX_UINT64
  {
    VersionOrder.AcceptedExactly(v, v);
    VersionOrder.CompareLawful(v, v, v);
    VersionOrder.ReleaseLawful(v, v, v);
    hide VersionOrder.Compare, VersionOrder.VersionAccepted;
  }

  /** In any store the webhooks can produce, sending a managed cluster again as it is stored is accepted exactly when
      the infrastructure rule holds for it, the feature is on, and its version parses with room for two more minors. */
  lemma ResubmitExactly(s: Store, c: Cluster, valid: Validator)
    requires Consistent(s, valid) && c.topology.Some? && c.key in s.clusters && s.clusters[c.key] == c
    requires forall v | valid.parse(v).Some? :: valid.parse(v).value.minor <= VersionOrder.MAX_UINT64
    ensures TopologyValid(c, Some(c), s.classes, valid) <==>
              && valid.gate && InfraRule(c.topology.value, s.classes[ClassKey(c)])
              && valid.parse(c.topology.value.version).Some?
              && valid.parse(c.topology.value.version).value.minor + 2 <= VersionOrder.MAX_UINT64
  {
    var t := c.topology.value;
    AcceptedExactly(t, s.classes[ClassKey(c)], valid);
    assert t.class_ != "" && valid.semver(t.version);
    if valid.parse(t.version).Some? {
      SameVersion(valid.parse(t.version).value);
    }
    hide TopologyAccepted, ValidAgainst, VersionOrder.VersionAccepted;
  }

  ghost predicate InfraRuleHolds(s: Store)
  {
    forall k | k in s.clusters && s.clusters[k].topology.Some? && ClassKey(s.clusters[k]) in s.classes ::
      InfraRule(s.clusters[k].topology.value, s.classes[ClassKey(s.clusters[k])])
  }

  /** An accepted class update without machine infrastructure, while a cluster of the class has a control plane
      definition of its own. */
  ghost predicate Strips(s: Store, r: Request, valid: Validator)
  {
    && r.PutClass? && Step(s, r, valid) != s && !r.new_.hasInfra
    && exists k :: k in s.clusters && s.clusters[k].topology.Some? && ClassKey(s.clusters[k]) == r.new_.key
                   && !InfraRule(s.clusters[k].topology.value, r.new_)
  }

  /** A write keeps the infrastructure rule for all clusters exactly when it is no such class update. */
  lemma InfraStep(s: Store, r: Request, valid: Validator)
    requires Consistent(s, valid) && InfraRuleHolds(s)
    ensures InfraRuleHolds(Step(s, r, valid)) <==> !Strips(s, r, valid)
  {
    hide ValidAgainst, TopologyAccepted, UpdateAccepted, ClassAccepted;
    var v := Step(s, r, valid);
    match r {
      case PutCluster(c, rest) =>
        if ClusterAccepted(s, c, valid, rest) && c.topology.Some? {
          AcceptedExactly(c.topology.value, s.classes[ClassKey(c)], valid);
        }
      case DeleteCluster(key) =>
      case PutClass(k, listed) =>
        if v != s {
          assert v == s.(classes := s.classes[k.key := k]);
          if Strips(s, r, valid) {
            var i :| i in s.clusters && s.clusters[i].topology.Some? && ClassKey(s.clusters[i]) == k.key
                     && !InfraRule(s.clusters[i].topology.value, k);
            assert v.classes[ClassKey(v.clusters[i])] == k;
          }
        }
      case DeleteClass(key, listed) =>
    }
  }

  lemma PrefixRun(s: Store, rs: seq<Request>, valid: Validator, k: nat)
    requires k < |rs|
    ensures Run(s, rs[..k + 1], valid) == Step(Run(s, rs[..k], valid), rs[k], valid)
  {
    hide Step;
    assert rs[..k + 1][..k] == rs[..k];
  }

  lemma {:induction false} InfraPrefix(s: Store, rs: seq<Request>, valid: Validator, k: nat)
    requires Consistent(s, valid) && InfraRuleHolds(s) && k <= |rs|
    requires forall i | 0 <= i < |rs| :: !Strips(Run(s, rs[..i], valid), rs[i], valid)
    ensures InfraRuleHolds(Run(s, rs[..k], valid))
  {
    hide InfraRuleHolds, Strips, Step, Consistent;
    if k > 0 {
      InfraPrefix(s, rs, valid, k - 1);
      AlwaysConsistent(s, rs[..k - 1], valid);
      PrefixRun(s, rs, valid, k - 1);
      InfraStep(Run(s, rs[..k - 1], valid), rs[k - 1], valid);
    }
  }

  /** Over any run of accepted writes every managed cluster always satisfies the infrastructure rule, and so would be
      accepted again, exactly when no accepted class update drops machine infrastructure under a cluster with a control
      plane definition of its own. */
  lemma InfraRun(s: Store, rs: seq<Request>, valid: Validator)
    requires Consistent(s, valid) && InfraRuleHolds(s)
    ensures (forall k | 0 <= k <= |rs| :: InfraRuleHolds(Run(s, rs[..k], valid))) <==>
              forall k | 0 <= k < |rs| :: !Strips(Run(s, rs[..k], valid), rs[k], valid)
  {
    hide InfraRuleHolds, Strips, Step, Consistent;
    if forall k | 0 <= k < |rs| :: !Strips(Run(s, rs[..k], valid), rs[k], valid) {
      forall k | 0 <= k <= |rs|
        ensures InfraRuleHolds(Run(s, rs[..k], valid))
      {
        InfraPrefix(s, rs, valid, k);
      }
    } else {
      var k :| 0 <= k < |rs| && Strips(Run(s, rs[..k], valid), rs[k], valid);
      AlwaysConsistent(s, rs[..k], valid);
      PrefixRun(s, rs, valid, k);
      if InfraRuleHolds(Run(s, rs[..k], valid)) {
        InfraStep(Run(s, rs[..k], valid), rs[k], valid);
        assert !InfraRuleHolds(Run(s, rs[..k + 1], valid));
      }
    }
  }
}
