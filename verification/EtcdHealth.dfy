/**
 One pass over the control plane nodes that sets the etcd condition of every machine and of the control plane. What each
 node's etcd pod reports is the parameter `views`.
 */
module EtcdHealth {
  import opened Options

  datatype Severity = Error | Warning | Info

  /** The state of an etcd health condition. */
  datatype Health = Healthy | Unhealthy(severity: Severity) | Unknown

  datatype Machine = Machine(name: string, node: Option<string>, deleting: bool)

  datatype Member = Member(name: string, cluster: nat, alarms: seq<nat>)

  datatype View = NoConnection | StatusErrors | NoAnswer | Reports(members: seq<Member>)

  const ALARM_OK := 0

  function Names(ms: seq<Member>): set<string>
  {
    set m | m in ms :: m.name
  }

  function MemberFor(ms: seq<Member>, name: string): (r: Option<Member>)
    ensures r.Some? ==> r.value in ms && r.value.name == name
    ensures r.None? <==> name !in Names(ms)
  {
    if ms == [] then None
    else if ms[0].name == name then assert name in Names(ms); Some(ms[0])
    else
      assert ms == [ms[0]] + ms[1..];
      MemberFor(ms[1..], name)
  }

  predicate Alarmed(m: Member)
  {
    exists k :: 0 <= k < |m.alarms| && m.alarms[k] != ALARM_OK
  }

  /** The last machine, in iteration order, that has this node. */
  function MachineFor(ms: seq<Machine>, node: string): (r: Option<Machine>)
    ensures r.Some? ==> r.value in ms && r.value.node == Some(node)
    ensures r.None? ==> forall m | m in ms :: m.node != Some(node)
  {
    if ms == [] then None
    else if ms[|ms| - 1].node == Some(node) then Some(ms[|ms| - 1])
    else MachineFor(ms[..|ms| - 1], node)
  }

  predicate Provisioning(ms: seq<Machine>)
  {
    exists m :: m in ms && m.node.None?
  }

  /** Machine conditions, the first reported members and cluster id, and the number of errors without a machine. */
  datatype Pass = Pass(health: map<string, Health>, baseline: Option<seq<Member>>, cluster: Option<nat>, errors: nat)

  /** The visit of one node; None when the report lacks the node's own member, which the code then dereferences. */
  function Visit(p: Pass, node: string, ms: seq<Machine>, views: string -> View): Option<Pass>
  {
    match MachineFor(ms, node)
    case None => Some(if Provisioning(ms) then p else p.(errors := p.errors + 1))
    case Some(machine) =>
      if machine.deleting then Some(Mark(p, machine, Unhealthy(Info)))
      else
        match views(node)
        case NoConnection => Some(Mark(p, machine, Unknown))
        case StatusErrors => Some(Mark(p, machine, Unhealthy(Error)))
        case NoAnswer => Some(Mark(p, machine, Unhealthy(Error)))
        case Reports(members) =>
          var base := if p.baseline.Some? then p.baseline.value else members;
          var q := p.(baseline := Some(base));
          if Names(base) != Names(members) then Some(Mark(q, machine, Unhealthy(Error)))
          else
            match MemberFor(members, node)
            case None => None
            case Some(own) =>
              if Alarmed(own) then Some(Mark(q, machine, Unhealthy(Error)))
              else
                var id := if p.cluster.Some? then p.cluster.value else own.cluster;
                Some(Mark(q.(cluster := Some(id)), machine, if id != own.cluster then Unhealthy(Error) else Healthy))
  }

  function Mark(p: Pass, m: Machine, h: Health): Pass
  {
    p.(health := p.health[m.name := h])
  }

  function VisitAll(p: Pass, nodes: seq<string>, ms: seq<Machine>, views: string -> View): Option<Pass>
  {
    if nodes == [] then Some(p)
    else
      match VisitAll(p, nodes[..|nodes| - 1], ms, views)
      case None => None
      case Some(q) => Visit(q, nodes[|nodes| - 1], ms, views)
  }

  // ---- machines against members ----

  predicate Missing(m: Machine, base: seq<Member>)
  {
    m.node.Some? && m.node.value !in Names(base)
  }

  function MarkMissing(h: map<string, Health>, ms: seq<Machine>, base: seq<Member>): map<string, Health>
  {
    if ms == [] then h
    else
      var r := MarkMissing(h, ms[..|ms| - 1], base);
      if Missing(ms[|ms| - 1], base) then r[ms[|ms| - 1].name := Unhealthy(Error)] else r
  }

  predicate Owned(m: Member, ms: seq<Machine>)
  {
    exists x :: x in ms && x.node == Some(m.name)
  }

  function Orphans(base: seq<Member>, ms: seq<Machine>): (n: nat)
    ensures n > 0 <==> exists m :: m in base && !Owned(m, ms)
  {
    if base == [] then 0
    else
      assert base == base[..|base| - 1] + [base[|base| - 1]];
      Orphans(base[..|base| - 1], ms) + if Owned(base[|base| - 1], ms) then 0 else 1
  }

  function Compare(p: Pass, ms: seq<Machine>): Pass
  {
    if p.baseline.None? then p
    else p.(health := MarkMissing(p.health, ms, p.baseline.value), errors := p.errors + Orphans(p.baseline.value, ms))
  }

  // ---- aggregation ----

  ghost predicate Any(h: map<string, Health>, ms: seq<Machine>, wanted: Health)
  {
    exists m :: m in ms && m.name in h && h[m.name] == wanted
  }

  /** The control plane's condition as the code computes it; None leaves the condition as it was. */
  ghost function Aggregate(h: map<string, Health>, ms: seq<Machine>, errors: nat): Option<Health>
  {
    if errors > 0 || Any(h, ms, Unhealthy(Error)) then Some(Unhealthy(Error))
    else if Any(h, ms, Unhealthy(Warning)) then Some(Unhealthy(Warning))
    else if Any(h, ms, Healthy) then Some(Healthy)
    else if Any(h, ms, Unknown) then Some(Unknown)
    else None
  }

  /** The priority its comment announces. */
  ghost function Announced(h: map<string, Health>, ms: seq<Machine>, errors: nat): Option<Health>
  {
    if errors > 0 || Any(h, ms, Unhealthy(Error)) then Some(Unhealthy(Error))
    else if Any(h, ms, Unhealthy(Warning)) then Some(Unhealthy(Warning))
    else if Any(h, ms, Unhealthy(Info)) then Some(Unhealthy(Info))
    else if Any(h, ms, Healthy) then Some(Healthy)
    else if Any(h, ms, Unknown) then Some(Unknown)
    else None
  }

  /** The info rule never fires: code and comment agree exactly when no machine has an info condition or something more
      severe is reported anyway. */
  lemma InfoNeverReported(h: map<string, Health>, ms: seq<Machine>, errors: nat)
    ensures Aggregate(h, ms, errors) != Some(Unhealthy(Info))
    ensures Aggregate(h, ms, errors) == Announced(h, ms, errors) <==>
              !Any(h, ms, Unhealthy(Info)) || errors > 0 || Any(h, ms, Unhealthy(Error))
              || Any(h, ms, Unhealthy(Warning))
  {
  }

  // ---- what a pass establishes ----

  /** The report names the baseline's members, and the node's own member has the baseline's cluster id and no alarm. */
  ghost predicate Agrees(p: Pass, node: string, members: seq<Member>)
  {
    && p.baseline.Some? && Names(members) == Names(p.baseline.value)
    && MemberFor(members, node).Some?
    && !Alarmed(MemberFor(members, node).value)
    && p.cluster == Some(MemberFor(members, node).value.cluster)
  }

  ghost function Verdict(p: Pass, machine: Machine, node: string, view: View): Health
  {
    if machine.deleting then Unhealthy(Info)
    else
      match view
      case NoConnection => Unknown
      case StatusErrors => Unhealthy(Error)
      case NoAnswer => Unhealthy(Error)
      case Reports(members) => if Agrees(p, node, members) then Healthy else Unhealthy(Error)
  }

  /** The node has a live machine and its pod reports members. */
  ghost predicate Seen(ms: seq<Machine>, node: string, views: string -> View)
  {
    MachineFor(ms, node).Some? && !MachineFor(ms, node).value.deleting && views(node).Reports?
  }

  /** What the pass knows and has marked for a node it has visited. */
  ghost predicate Judged(p: Pass, node: string, ms: seq<Machine>, views: string -> View)
  {
    && (Seen(ms, node, views) ==>
          && p.baseline.Some?
          && (Names(views(node).members) == Names(p.baseline.value) ==>
                var own := MemberFor(views(node).members, node);
                own.Some? && (!Alarmed(own.value) ==> p.cluster.Some?)))
    && (MachineFor(ms, node).Some? ==>
          var machine := MachineFor(ms, node).value;
          machine.name in p.health && p.health[machine.name] == Verdict(p, machine, node, views(node)))
    && (MachineFor(ms, node).None? && !Provisioning(ms) ==> p.errors > 0)
  }

  ghost predicate DistinctMachines(ms: seq<Machine>)
  {
    forall i, j | 0 <= i < j < |ms| :: ms[i].name != ms[j].name
  }

  ghost predicate DistinctNodes(nodes: seq<string>)
  {
    forall i, j | 0 <= i < j < |nodes| :: nodes[i] != nodes[j]
  }

  /** Once known, the baseline and the cluster id stay. */
  lemma VisitKeepsBaseline(p: Pass, node: string, ms: seq<Machine>, views: string -> View)
    requires Visit(p, node, ms, views).Some?
    ensures var q := Visit(p, node, ms, views).value;
            && (p.baseline.Some? ==> q.baseline == p.baseline) && (p.cluster.Some? ==> q.cluster == p.cluster)
            && p.errors <= q.errors
            && (forall m: string | m in p.health ::
                  && m in q.health
                  && ((MachineFor(ms, node).Some? && MachineFor(ms, node).value.name == m)
                      || q.health[m] == p.health[m]))
  {
  }

  lemma VisitJudges(p: Pass, node: string, ms: seq<Machine>, views: string -> View)
    requires Visit(p, node, ms, views).Some?
    ensures Judged(Visit(p, node, ms, views).value, node, ms, views)
  {
  }

  lemma OtherMachine(ms: seq<Machine>, a: string, b: string)
    requires DistinctMachines(ms) && a != b && MachineFor(ms, a).Some? && MachineFor(ms, b).Some?
    ensures MachineFor(ms, a).value.name != MachineFor(ms, b).value.name
  {
    var x, y := MachineFor(ms, a).value, MachineFor(ms, b).value;
    var i :| 0 <= i < |ms| && ms[i] == x;
    var j :| 0 <= j < |ms| && ms[j] == y;
  }

  lemma JudgedStays(p: Pass, node: string, other: string, ms: seq<Machine>, views: string -> View)
    requires DistinctMachines(ms) && Judged(p, node, ms, views) && node != other && Visit(p, other, ms, views).Some?
    ensures Judged(Visit(p, other, ms, views).value, node, ms, views)
  {
    hide Visit, Names;
    VisitKeepsBaseline(p, other, ms, views);
    if MachineFor(ms, node).Some? && MachineFor(ms, other).Some? {
      OtherMachine(ms, node, other);
    }
    hide MachineFor, DistinctMachines;
  }

  lemma {:induction false} AllJudged(p: Pass, nodes: seq<string>, ms: seq<Machine>, views: string -> View)
    requires DistinctMachines(ms) && DistinctNodes(nodes) && VisitAll(p, nodes, ms, views).Some?
    ensures forall n | n in nodes :: Judged(VisitAll(p, nodes, ms, views).value, n, ms, views)
  {
    if nodes != [] {
      hide Visit, Judged;
      var k := |nodes| - 1;
      AllJudged(p, nodes[..k], ms, views);
      var q := VisitAll(p, nodes[..k], ms, views).value;
      VisitJudges(q, nodes[k], ms, views);
      forall n | n in nodes
        ensures Judged(VisitAll(p, nodes, ms, views).value, n, ms, views)
      {
        if n != nodes[k] {
          assert n in nodes[..k];
          JudgedStays(q, n, nodes[k], ms, views);
        }
      }
    }
  }

  /** The first report the pass sees. */
  ghost function Base(nodes: seq<string>, ms: seq<Machine>, views: string -> View): Option<seq<Member>>
  {
    if nodes == [] then None
    else
      var before := Base(nodes[..|nodes| - 1], ms, views);
      if before.Some? then before
      else if Seen(ms, nodes[|nodes| - 1], views) then Some(views(nodes[|nodes| - 1]).members)
      else None
  }

  /** The pod's report names the same members as the first one, and its own node is not among them. */
  ghost predicate Unlisted(base: Option<seq<Member>>, node: string, ms: seq<Machine>, views: string -> View)
  {
    && base.Some? && Seen(ms, node, views) && Names(views(node).members) == Names(base.value)
    && node !in Names(base.value)
  }

  ghost predicate Crashes(nodes: seq<string>, ms: seq<Machine>, views: string -> View)
  {
    exists n :: n in nodes && Unlisted(Base(nodes, ms, views), n, ms, views)
  }

  lemma VisitCrashes(p: Pass, node: string, ms: seq<Machine>, views: string -> View)
    ensures var base := if p.baseline.Some? then p.baseline
                        else if Seen(ms, node, views) then Some(views(node).members) else None;
            && (Visit(p, node, ms, views).None? <==> Unlisted(base, node, ms, views))
            && (Visit(p, node, ms, views).Some? ==> Visit(p, node, ms, views).value.baseline == base)
  {
  }

  /** A pass dereferences a missing member exactly when some pod reports the members the first pod reported and its own
      node is not one of them; otherwise its baseline is the first report. */
  lemma {:induction false} CrashExactly(p: Pass, nodes: seq<string>, ms: seq<Machine>, views: string -> View)
    requires p.baseline.None?
    ensures VisitAll(p, nodes, ms, views).None? <==> Crashes(nodes, ms, views)
    ensures !Crashes(nodes, ms, views) ==> VisitAll(p, nodes, ms, views).value.baseline == Base(nodes, ms, views)
  {
    if nodes != [] {
      var k := |nodes| - 1;
      CrashExactly(p, nodes[..k], ms, views);
      BaseExtends(nodes, ms, views);
      if VisitAll(p, nodes[..k], ms, views).Some? {
        VisitCrashes(VisitAll(p, nodes[..k], ms, views).value, nodes[k], ms, views);
      }
    }
  }

  /** One more node makes the pass crash if it did before or at that node. */
  lemma BaseExtends(nodes: seq<string>, ms: seq<Machine>, views: string -> View)
    requires nodes != []
    ensures var k := |nodes| - 1;
            Crashes(nodes, ms, views) <==>
              Crashes(nodes[..k], ms, views) || Unlisted(Base(nodes, ms, views), nodes[k], ms, views)
  {
    var k := |nodes| - 1;
    var front := nodes[..k];
    assert nodes == front + [nodes[k]];
    BaseSeen(front, ms, views);
    if Crashes(nodes, ms, views) {
      var n :| n in nodes && Unlisted(Base(nodes, ms, views), n, ms, views);
      assert n in front || n == nodes[k];
    }
    if Crashes(front, ms, views) {
      var n :| n in front && Unlisted(Base(front, ms, views), n, ms, views);
      assert n in nodes && Unlisted(Base(nodes, ms, views), n, ms, views);
    }
  }

  lemma {:induction false} BaseSeen(nodes: seq<string>, ms: seq<Machine>, views: string -> View)
    ensures Base(nodes, ms, views).None? <==> forall n | n in nodes :: !Seen(ms, n, views)
  {
    if nodes != [] {
      var k := |nodes| - 1;
      BaseSeen(nodes[..k], ms, views);
      assert nodes == nodes[..k] + [nodes[k]];
    }
  }

  /** For one, when the only pod reports its own member before that has a name. */
  lemma UnnamedMemberCrashes(node: string, machine: Machine, cluster: nat, views: string -> View)
    requires machine.node == Some(node) && !machine.deleting && node != ""
    requires views(node) == Reports([Member("", cluster, [])])
    ensures VisitAll(Pass(map[], None, None, 0), [node], [machine], views).None?
  {
    var nodes, ms := [node], [machine];
    assert MachineFor(ms, node) == Some(machine);
    assert nodes[..0] == [] && Base(nodes, ms, views) == Some(views(node).members);
    assert Names(views(node).members) == {""};
    assert node in nodes && Unlisted(Base(nodes, ms, views), node, ms, views);
    CrashExactly(Pass(map[], None, None, 0), nodes, ms, views);
  }

  lemma {:induction false} MarkMissingMeaning(h: map<string, Health>, ms: seq<Machine>, base: seq<Member>, m: Machine)
    requires DistinctMachines(ms)
    ensures m in ms && Missing(m, base) ==>
              m.name in MarkMissing(h, ms, base) && MarkMissing(h, ms, base)[m.name] == Unhealthy(Error)
    ensures (forall x | x in ms && x.name == m.name :: !Missing(x, base)) ==>
              (m.name in MarkMissing(h, ms, base) <==> m.name in h)
              && (m.name in h ==> MarkMissing(h, ms, base)[m.name] == h[m.name])
  {
    if ms != [] {
      var k := |ms| - 1;
      MarkMissingMeaning(h, ms[..k], base, m);
      assert ms == ms[..k] + [ms[k]];
    }
  }

  /** The whole pass. */
  ghost function Outcome(p: Pass, nodes: seq<string>, ms: seq<Machine>, views: string -> View): Pass
    requires p.baseline.None? && !Crashes(nodes, ms, views)
  {
    CrashExactly(p, nodes, ms, views);
    Compare(VisitAll(p, nodes, ms, views).value, ms)
  }

  /** After a pass, a machine whose node was visited is healthy exactly when it is not being deleted, its pod agrees
      with the first pod to report, and the node is one of the reported members. */
  lemma HealthyExactly(p: Pass, nodes: seq<string>, ms: seq<Machine>, views: string -> View, node: string)
    requires DistinctMachines(ms) && DistinctNodes(nodes) && p.baseline.None? && !Crashes(nodes, ms, views)
    requires node in nodes && MachineFor(ms, node).Some?
    ensures var machine, r := MachineFor(ms, node).value, Outcome(p, nodes, ms, views);
            && machine.name in r.health
            && (r.health[machine.name] == Healthy <==>
                  Seen(ms, node, views) && Agrees(r, node, views(node).members))
            && (r.health[machine.name] == Unhealthy(Error)
                || r.health[machine.name] == Verdict(r, machine, node, views(node)))
  {
    CrashExactly(p, nodes, ms, views);
    AllJudged(p, nodes, ms, views);
    var q, r := VisitAll(p, nodes, ms, views).value, Outcome(p, nodes, ms, views);
    hide VisitAll;
    var machine := MachineFor(ms, node).value;
    assert Judged(q, node, ms, views);
    if q.baseline.Some? {
      NamedOnce(ms, machine);
      MarkMissingMeaning(q.health, ms, q.baseline.value, machine);
    }
    hide MarkMissing, Names, MachineFor, MemberFor;
  }

  // ---- every mark and every error ----

  /** The pod reports the members the first pod reported, and its own member has no alarm. */
  ghost predicate Sound(base: Option<seq<Member>>, node: string, ms: seq<Machine>, views: string -> View)
  {
    && base.Some? && Seen(ms, node, views) && Names(views(node).members) == Names(base.value)
    && MemberFor(views(node).members, node).Some? && !Alarmed(MemberFor(views(node).members, node).value)
  }

  /** The cluster id of the first such pod. */
  ghost function FirstId(nodes: seq<string>, ms: seq<Machine>, views: string -> View): Option<nat>
  {
    if nodes == [] then None
    else
      var node := nodes[|nodes| - 1];
      var before := FirstId(nodes[..|nodes| - 1], ms, views);
      if before.Some? then before
      else if Sound(Base(nodes, ms, views), node, ms, views) then
        Some(MemberFor(views(node).members, node).value.cluster)
      else None
  }

  lemma {:induction false} IdExactly(p: Pass, nodes: seq<string>, ms: seq<Machine>, views: string -> View)
    requires p.baseline.None? && p.cluster.None? && !Crashes(nodes, ms, views)
    ensures VisitAll(p, nodes, ms, views).Some?
    ensures VisitAll(p, nodes, ms, views).value.cluster == FirstId(nodes, ms, views)
  {
    CrashExactly(p, nodes, ms, views);
    if nodes != [] {
      var k := |nodes| - 1;
      BaseExtends(nodes, ms, views);
      CrashExactly(p, nodes[..k], ms, views);
      IdExactly(p, nodes[..k], ms, views);
      VisitId(VisitAll(p, nodes[..k], ms, views).value, nodes[k], ms, views);
    }
  }

  lemma VisitId(p: Pass, node: string, ms: seq<Machine>, views: string -> View)
    requires Visit(p, node, ms, views).Some?
    ensures var q := Visit(p, node, ms, views).value;
            q.cluster == if p.cluster.Some? then p.cluster
                         else if Sound(q.baseline, node, ms, views) then
                           Some(MemberFor(views(node).members, node).value.cluster)
                         else None
  {
  }

  /** The condition of every machine whose node was visited: an error if the node is not one of the members first
      reported; else info if it is being deleted, unknown if its pod cannot be reached, an error if the pod gives no
      members, other members, an alarm or another cluster id, and healthy in all other cases. */
  lemma MarksExactly(p: Pass, nodes: seq<string>, ms: seq<Machine>, views: string -> View, node: string)
    requires DistinctMachines(ms) && DistinctNodes(nodes) && p.baseline.None? && p.cluster.None?
    requires !Crashes(nodes, ms, views) && node in nodes && MachineFor(ms, node).Some?
    ensures var machine, h, base := MachineFor(ms, node).value, Outcome(p, nodes, ms, views).health,
              Base(nodes, ms, views);
            && machine.name in h
            && h[machine.name] ==
               if base.Some? && node !in Names(base.value) then Unhealthy(Error)
               else if machine.deleting then Unhealthy(Info)
               else match views(node)
                    case NoConnection => Unknown
                    case StatusErrors => Unhealthy(Error)
                    case NoAnswer => Unhealthy(Error)
                    case Reports(members) =>
                      if Sound(base, node, ms, views)
                         && FirstId(nodes, ms, views) == Some(MemberFor(members, node).value.cluster) then Healthy
                      else Unhealthy(Error)
  {
    CrashExactly(p, nodes, ms, views);
    IdExactly(p, nodes, ms, views);
    AllJudged(p, nodes, ms, views);
    var q := VisitAll(p, nodes, ms, views).value;
    hide VisitAll, FirstId, Base;
    var machine := MachineFor(ms, node).value;
    assert Judged(q, node, ms, views);
    if q.baseline.Some? {
      NamedOnce(ms, machine);
      MarkMissingMeaning(q.health, ms, q.baseline.value, machine);
    }
    hide MarkMissing, Names, MachineFor, MemberFor;
  }

  /** A machine none of the visited nodes belongs to keeps its condition, unless its node is not one of the members. */
  lemma UnvisitedKept(p: Pass, nodes: seq<string>, ms: seq<Machine>, views: string -> View, m: Machine)
    requires DistinctMachines(ms) && p.baseline.None? && !Crashes(nodes, ms, views) && m in ms
    requires forall n | n in nodes :: MachineFor(ms, n) != Some(m)
    ensures var h, base := Outcome(p, nodes, ms, views).health, Base(nodes, ms, views);
            if base.Some? && m.node.Some? && m.node.value !in Names(base.value) then
              m.name in h && h[m.name] == Unhealthy(Error)
            else
              (m.name in h <==> m.name in p.health) && (m.name in h ==> h[m.name] == p.health[m.name])
  {
    CrashExactly(p, nodes, ms, views);
    NamedOnce(ms, m);
    VisitsSkip(p, nodes, ms, views, m);
    hide VisitAll, Base;
    if Base(nodes, ms, views).Some? {
      MarkMissingMeaning(VisitAll(p, nodes, ms, views).value.health, ms, Base(nodes, ms, views).value, m);
    }
  }

  lemma {:induction false} VisitsSkip(p: Pass, nodes: seq<string>, ms: seq<Machine>, views: string -> View, m: Machine)
    requires VisitAll(p, nodes, ms, views).Some? && (forall x | x in ms && x.name == m.name :: x == m)
    requires forall n | n in nodes :: MachineFor(ms, n) != Some(m)
    ensures var h := VisitAll(p, nodes, ms, views).value.health;
            (m.name in h <==> m.name in p.health) && (m.name in h ==> h[m.name] == p.health[m.name])
  {
    if nodes != [] {
      var k := |nodes| - 1;
      assert nodes[k] in nodes && forall n | n in nodes[..k] :: n in nodes;
      VisitsSkip(p, nodes[..k], ms, views, m);
    }
  }

  /** Errors that belong to no machine: a node without one while none is still coming up, or a member without one. */
  lemma ErrorsExactly(p: Pass, nodes: seq<string>, ms: seq<Machine>, views: string -> View)
    requires p.baseline.None? && p.errors == 0 && !Crashes(nodes, ms, views)
    ensures var base := Base(nodes, ms, views);
            Outcome(p, nodes, ms, views).errors > 0 <==>
              || (!Provisioning(ms) && exists n :: n in nodes && MachineFor(ms, n).None?)
              || (base.Some? && exists m :: m in base.value && !Owned(m, ms))
  {
    CrashExactly(p, nodes, ms, views);
    NodeErrors(p, nodes, ms, views);
  }

  lemma VisitErrors(p: Pass, node: string, ms: seq<Machine>, views: string -> View)
    requires Visit(p, node, ms, views).Some?
    ensures Visit(p, node, ms, views).value.errors ==
            p.errors + if MachineFor(ms, node).None? && !Provisioning(ms) then 1 else 0
  {
  }

  lemma {:induction false} NodeErrors(p: Pass, nodes: seq<string>, ms: seq<Machine>, views: string -> View)
    requires p.errors == 0 && VisitAll(p, nodes, ms, views).Some?
    ensures VisitAll(p, nodes, ms, views).value.errors > 0 <==>
              !Provisioning(ms) && exists n :: n in nodes && MachineFor(ms, n).None?
  {
    if nodes != [] {
      var k := |nodes| - 1;
      NodeErrors(p, nodes[..k], ms, views);
      assert forall n :: n in nodes <==> n in nodes[..k] || n == nodes[k];
      VisitErrors(VisitAll(p, nodes[..k], ms, views).value, nodes[k], ms, views);
      hide Visit, MachineFor;
    }
  }

  /** The control plane is healthy exactly when nothing is wrong anywhere and some machine is; unknown exactly when
      nothing is wrong, none is healthy and some is unknown; and left as it was only if all that is known is info. */
  lemma AggregateExactly(h: map<string, Health>, ms: seq<Machine>, errors: nat)
    ensures var r := Aggregate(h, ms, errors);
            && (r == Some(Unhealthy(Error)) <==> errors > 0 || Any(h, ms, Unhealthy(Error)))
            && (r == Some(Unhealthy(Warning)) <==>
                  errors == 0 && !Any(h, ms, Unhealthy(Error)) && Any(h, ms, Unhealthy(Warning)))
            && (r == Some(Healthy) <==>
                  && errors == 0 && Any(h, ms, Healthy)
                  && forall m | m in ms && m.name in h :: h[m.name] in {Healthy, Unknown, Unhealthy(Info)})
            && (r == Some(Unknown) <==>
                  && errors == 0 && Any(h, ms, Unknown)
                  && forall m | m in ms && m.name in h :: h[m.name] in {Unknown, Unhealthy(Info)})
            && (r == None <==> errors == 0 && forall m | m in ms && m.name in h :: h[m.name] == Unhealthy(Info))
  {
    forall m | m in ms && m.name in h
      ensures Any(h, ms, h[m.name])
      ensures h[m.name] in {Healthy, Unknown, Unhealthy(Error), Unhealthy(Warning), Unhealthy(Info)}
    {
      if h[m.name].Unhealthy? {
        match h[m.name].severity case Error => case Warning => case Info =>
      }
    }
  }

  lemma NamedOnce(ms: seq<Machine>, m: Machine)
    requires DistinctMachines(ms) && m in ms
    ensures forall x | x in ms && x.name == m.name :: x == m
  {
    var i :| 0 <= i < |ms| && ms[i] == m;
    forall x | x in ms && x.name == m.name
      ensures x == m
    {
      var j :| 0 <= j < |ms| && ms[j] == x;
    }
  }

  /** Any two visited machines that end up healthy reported the same members and cluster, and neither has an alarm. */
  lemma HealthyMachinesAgree(p: Pass, nodes: seq<string>, ms: seq<Machine>, views: string -> View, a: string, b: string)
    requires DistinctMachines(ms) && DistinctNodes(nodes) && p.baseline.None? && !Crashes(nodes, ms, views)
    requires a in nodes && b in nodes && MachineFor(ms, a).Some? && MachineFor(ms, b).Some?
    requires var h := Outcome(p, nodes, ms, views).health;
             && MachineFor(ms, a).value.name in h && h[MachineFor(ms, a).value.name] == Healthy
             && MachineFor(ms, b).value.name in h && h[MachineFor(ms, b).value.name] == Healthy
    ensures views(a).Reports? && views(b).Reports? && Names(views(a).members) == Names(views(b).members)
    ensures a in Names(views(b).members) && b in Names(views(a).members)
    ensures var x, y := MemberFor(views(a).members, a).value, MemberFor(views(b).members, b).value;
            x.cluster == y.cluster && !Alarmed(x) && !Alarmed(y)
  {
    HealthyExactly(p, nodes, ms, views, a);
    HealthyExactly(p, nodes, ms, views, b);
  }

  /** When the pass reports the etcd cluster as healthy: every node has a machine or one is still coming up, every pod
      that reports members agrees with the first, and members and machines with a node match one to one by name. */
  lemma ClusterHealthySound(p: Pass, nodes: seq<string>, ms: seq<Machine>, views: string -> View, node: string)
    requires DistinctMachines(ms) && DistinctNodes(nodes) && p.baseline.None? && !Crashes(nodes, ms, views)
    requires var r := Outcome(p, nodes, ms, views); Aggregate(r.health, ms, r.errors) == Some(Healthy)
    ensures var r := Outcome(p, nodes, ms, views);
            && (node in nodes ==> MachineFor(ms, node).Some? || Provisioning(ms))
            && (node in nodes && Seen(ms, node, views) ==> Agrees(r, node, views(node).members))
            && (node in nodes && MachineFor(ms, node).Some? && !MachineFor(ms, node).value.deleting ==>
                  views(node).Reports? || views(node).NoConnection?)
            && (r.baseline.Some? ==>
                  && (forall m | m in r.baseline.value :: Owned(m, ms))
                  && (forall m | m in ms && m.node.Some? :: m.node.value in Names(r.baseline.value)))
  {
    CrashExactly(p, nodes, ms, views);
    AllJudged(p, nodes, ms, views);
    var q, r := VisitAll(p, nodes, ms, views).value, Outcome(p, nodes, ms, views);
    if node in nodes {
      assert Judged(q, node, ms, views);
      if MachineFor(ms, node).Some? {
        HealthyExactly(p, nodes, ms, views, node);
        assert r.health[MachineFor(ms, node).value.name] != Unhealthy(Error);
      }
    }
    hide VisitAll, MachineFor, Names;
    if r.baseline.Some? {
      forall m | m in ms && m.node.Some?
        ensures !Missing(m, r.baseline.value)
      {
        MarkMissingMeaning(q.health, ms, r.baseline.value, m);
      }
    }
  }

  /** A reported member without a machine makes the cluster condition a false error. */
  lemma OrphanForcesError(p: Pass, nodes: seq<string>, ms: seq<Machine>, views: string -> View, orphan: Member)
    requires p.baseline.None? && !Crashes(nodes, ms, views)
    requires var r := Outcome(p, nodes, ms, views);
             r.baseline.Some? && orphan in r.baseline.value && !Owned(orphan, ms)
    ensures var r := Outcome(p, nodes, ms, views); Aggregate(r.health, ms, r.errors) == Some(Unhealthy(Error))
  {
    CrashExactly(p, nodes, ms, views);
    assert Orphans(VisitAll(p, nodes, ms, views).value.baseline.value, ms) > 0;
  }

  // ---- the pass as the controller runs it ----

  class ControlPlane {
    const machines: seq<Machine>
    /** Each machine's etcd condition, by machine name. */
    var health: map<string, Health>
    /** The control plane's own etcd condition. */
    var cluster: Option<Health>

    constructor (ms: seq<Machine>, h: map<string, Health>, c: Option<Health>)
      ensures machines == ms && health == h && cluster == c
    {
      machines, health, cluster := ms, h, c;
    }

    /** The node loop. */
    method VisitNodes(nodes: seq<string>, views: string -> View)
      returns (crashed: bool, baseline: Option<seq<Member>>, id: Option<nat>, errors: nat)
      modifies this
      ensures cluster == old(cluster)
      ensures crashed <==> VisitAll(Pass(old(health), None, None, 0), nodes, machines, views).None?
      ensures !crashed ==>
                VisitAll(Pass(old(health), None, None, 0), nodes, machines, views)
                == Some(Pass(health, baseline, id, errors))
    {
      ghost var start := Pass(health, None, None, 0);
      crashed, baseline, id, errors := false, None, None, 0;
      for i := 0 to |nodes|
        invariant !crashed && cluster == old(cluster)
        invariant VisitAll(start, nodes[..i], machines, views) == Some(Pass(health, baseline, id, errors))
      {
        assert nodes[..i + 1][..i] == nodes[..i];
        ghost var before := Pass(health, baseline, id, errors);
        crashed, baseline, id, errors := VisitNode(nodes[i], views, baseline, id, errors);
        if crashed {
          VisitAllCrashes(start, nodes, i + 1, machines, views);
          return;
        }
      }
      assert nodes[..|nodes|] == nodes;
    }

    /** The loop body for one node. */
    method VisitNode(node: string, views: string -> View, base: Option<seq<Member>>, seen: Option<nat>, count: nat)
      returns (crashed: bool, baseline: Option<seq<Member>>, id: Option<nat>, errors: nat)
      modifies this
      ensures cluster == old(cluster)
      ensures crashed <==> Visit(Pass(old(health), base, seen, count), node, machines, views).None?
      ensures !crashed ==>
                Visit(Pass(old(health), base, seen, count), node, machines, views)
                == Some(Pass(health, baseline, id, errors))
    {
      crashed, baseline, id, errors := false, base, seen, count;
      var machine := MachineFor(machines, node);
      if machine.None? {
        if !Provisioning(machines) {
          errors := errors + 1;
        }
        return;
      }
      var name := machine.value.name;
      if machine.value.deleting {
        health := health[name := Unhealthy(Info)];
        return;
      }
      var view := views(node);
      if !view.Reports? {
        health := health[name := if view.NoConnection? then Unknown else Unhealthy(Error)];
        return;
      }
      if baseline.None? {
        baseline := Some(view.members);
      }
      if Names(baseline.value) != Names(view.members) {
        health := health[name := Unhealthy(Error)];
        return;
      }
      var own := MemberFor(view.members, node);
      if own.None? {
        crashed := true;
        return;
      }
      var alarmed := HasAlarm(own.value);
      if alarmed {
        health := health[name := Unhealthy(Error)];
        return;
      }
      if id.None? {
        id := Some(own.value.cluster);
      }
      health := health[name := if id.value != own.value.cluster then Unhealthy(Error) else Healthy];
    }

    /** Machines without a member, then members without a machine. */
    method CompareMachinesAndMembers(base: Option<seq<Member>>, count: nat) returns (errors: nat)
      modifies this
      ensures cluster == old(cluster)
      ensures forall id :: Compare(Pass(old(health), base, id, count), machines) == Pass(health, base, id, errors)
    {
      errors := count;
      if base.None? {
        return;
      }
      for i := 0 to |machines|
        invariant cluster == old(cluster)
        invariant health == MarkMissing(old(health), machines[..i], base.value)
      {
        assert machines[..i + 1][..i] == machines[..i];
        if machines[i].node.Some? && machines[i].node.value !in Names(base.value) {
          health := health[machines[i].name := Unhealthy(Error)];
        }
      }
      assert machines[..|machines|] == machines;
      for i := 0 to |base.value|
        invariant errors == count + Orphans(base.value[..i], machines)
      {
        assert base.value[..i + 1][..i] == base.value[..i];
        if !Owned(base.value[i], machines) {
          errors := errors + 1;
        }
      }
      assert base.value[..|base.value|] == base.value;
    }

    /** The control plane condition from the machine conditions: one set of machines for each state. */
    method AggregateFromMachines(errors: nat)
      modifies this`cluster
      ensures cluster == (if Aggregate(health, machines, errors).Some? then Aggregate(health, machines, errors)
                          else old(cluster))
    {
      var seen: set<Health> := {};
      for i := 0 to |machines|
        invariant cluster == old(cluster)
        invariant forall h :: h in seen <==> Any(health, machines[..i], h)
      {
        if machines[i].name in health {
          seen := seen + {health[machines[i].name]};
        }
        AnyExtends(health, machines, i);
      }
      assert machines[..|machines|] == machines;
      if errors > 0 || Unhealthy(Error) in seen {
        cluster := Some(Unhealthy(Error));
      } else if Unhealthy(Warning) in seen {
        cluster := Some(Unhealthy(Warning));
      } else if Healthy in seen {
        cluster := Some(Healthy);
      } else if Unknown in seen {
        cluster := Some(Unknown);
      }
    }

    /** One pass. `nodes` is None when the node list could not be read; a crashed pass leaves what it had marked. */
    method UpdateManagedEtcdConditions(nodes: Option<seq<string>>, views: string -> View) returns (crashed: bool)
      modifies this
      ensures nodes.None? ==>
                !crashed && cluster == Some(Unknown) && health == AllUnknown(old(health), machines)
      ensures nodes.Some? ==>
                var start := Pass(old(health), None, None, 0);
                && (crashed <==> Crashes(nodes.value, machines, views))
                && (!crashed ==>
                      var r := Outcome(start, nodes.value, machines, views);
                      health == r.health
                      && cluster == (if Aggregate(r.health, machines, r.errors).Some?
                                     then Aggregate(r.health, machines, r.errors) else old(cluster)))
    {
      crashed := false;
      if nodes.None? {
        cluster := Some(Unknown);
        for i := 0 to |machines|
          invariant cluster == Some(Unknown) && health == AllUnknown(old(health), machines[..i])
        {
          assert machines[..i + 1][..i] == machines[..i];
          health := health[machines[i].name := Unknown];
        }
        assert machines[..|machines|] == machines;
        return;
      }
      var baseline, id, errors;
      CrashExactly(Pass(health, None, None, 0), nodes.value, machines, views);
      crashed, baseline, id, errors := VisitNodes(nodes.value, views);
      if !crashed {
        errors := CompareMachinesAndMembers(baseline, errors);
        AggregateFromMachines(errors);
      }
    }
  }

  method HasAlarm(m: Member) returns (alarmed: bool)
    ensures alarmed <==> Alarmed(m)
  {
    alarmed := false;
    for k := 0 to |m.alarms|
      invariant !alarmed && forall j | 0 <= j < k :: m.alarms[j] == ALARM_OK
    {
      if m.alarms[k] != ALARM_OK {
        return true;
      }
    }
  }

  /** Every machine is unknown, and nothing else changes. */
  function AllUnknown(h: map<string, Health>, ms: seq<Machine>): (r: map<string, Health>)
    ensures forall m | m in ms :: m.name in r && r[m.name] == Unknown
    ensures r.Keys == h.Keys + set m | m in ms :: m.name
    ensures forall n | n in h && (forall m | m in ms :: m.name != n) :: n in r && r[n] == h[n]
  {
    if ms == [] then h
    else
      assert ms == ms[..|ms| - 1] + [ms[|ms| - 1]];
      AllUnknown(h, ms[..|ms| - 1])[ms[|ms| - 1].name := Unknown]
  }

  lemma AnyExtends(h: map<string, Health>, ms: seq<Machine>, i: nat)
    requires i < |ms|
    ensures forall w :: Any(h, ms[..i + 1], w) <==> Any(h, ms[..i], w) || (ms[i].name in h && h[ms[i].name] == w)
  {
    var a, b := ms[..i], ms[..i + 1];
    assert forall m :: m in b <==> m in a || m == ms[i] by {
      assert b == a + [ms[i]];
    }
    forall w: Health
      ensures Any(h, b, w) <==> Any(h, a, w) || (ms[i].name in h && h[ms[i].name] == w)
    {
      assert ms[i] in b;
      if Any(h, a, w) {
        var m :| m in a && m.name in h && h[m.name] == w;
        assert m in b;
      }
    }
  }

  lemma {:induction false} VisitAllCrashes(p: Pass, nodes: seq<string>, i: nat, ms: seq<Machine>, views: string -> View)
    requires i <= |nodes| && VisitAll(p, nodes[..i], ms, views).None?
    ensures VisitAll(p, nodes, ms, views).None?
    decreases |nodes| - i
  {
    if i == |nodes| {
      assert nodes[..i] == nodes;
    } else {
      assert nodes[..i + 1][..i] == nodes[..i];
      VisitAllCrashes(p, nodes, i + 1, ms, views);
    }
  }
}
