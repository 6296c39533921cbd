/**
 Membership of the workload cluster's etcd: removing the member of a deleted machine, removing members without a node,
 and moving leadership away first. Each call meets the outside world through one `Env`: the node lists, which etcd pods
 answer, and how the requests end. A pod answers only while its node's name is the name of a member.
 */
module EtcdMembers {
  import opened Options

  datatype Member = Member(id: nat, name: string)

  datatype Etcd = Etcd(members: seq<Member>, leader: Option<nat>)

  /** `Lost`: the request took effect but its caller saw an error. */
  datatype Reply = Done | Lost | Refused

  /** What one call meets: the two node lists, the pods that answer, those of them that list the members, whether the
      leader's pod is reached and lists them in turn, the end of the change request, and of the ConfigMap edit. */
  datatype Env = Env(nodesListed: bool, oldLabel: seq<string>, newLabel: seq<string>, up: set<string>,
                     lists: set<string>, leaderUp: bool, leaderLists: bool, reply: Reply, configEdited: bool)

  datatype Error = MinNodes | NoClient | NoMembers | NoNodes | RequestFailed | NoLeader | NoCandidate

  datatype Result = Result(etcd: Etcd, error: Option<Error>)

  function Names(ms: seq<Member>): set<string>
  {
    set m | m in ms :: m.name
  }

  function Ids(ms: seq<Member>): set<nat>
  {
    set m | m in ms :: m.id
  }

  /** Ids differ, and so do names once given. */
  ghost predicate WellNamed(ms: seq<Member>)
  {
    && (forall i, j | 0 <= i < j < |ms| :: ms[i].id != ms[j].id)
    && (forall i, j | 0 <= i < j < |ms| :: ms[i].name == ms[j].name ==> ms[i].name == "")
  }

  ghost predicate Valid(e: Etcd)
  {
    WellNamed(e.members) && (e.leader.Some? ==> e.leader.value in Ids(e.members))
  }

  // ---- control plane nodes: two label queries, merged without repetition ----

  function Merge(acc: seq<string>, found: seq<string>): (r: seq<string>)
    decreases |found|
  {
    if found == [] then acc
    else Merge(if found[0] in acc then acc else acc + [found[0]], found[1..])
  }

  ghost predicate Distinct(s: seq<string>)
  {
    forall i, j | 0 <= i < j < |s| :: s[i] != s[j]
  }

  lemma {:induction false} MergeMeaning(acc: seq<string>, found: seq<string>)
    requires Distinct(acc)
    ensures Distinct(Merge(acc, found))
    ensures forall n :: n in Merge(acc, found) <==> n in acc || n in found
    decreases |found|
  {
    if found != [] {
      var next := if found[0] in acc then acc else acc + [found[0]];
      assert Distinct(next) && forall n :: n in next <==> n in acc || n == found[0];
      assert forall n :: n in found <==> n == found[0] || n in found[1..];
      hide Distinct;
      MergeMeaning(next, found[1..]);
    }
  }

  function Nodes(env: Env): seq<string>
  {
    Merge(Merge([], env.oldLabel), env.newLabel)
  }

  method AddNodes(acc: seq<string>, found: seq<string>) returns (r: seq<string>)
    requires Distinct(acc)
    ensures r == Merge(acc, found)
  {
    r := acc;
    for i := 0 to |found|
      invariant Merge(r, found[i..]) == Merge(acc, found)
    {
      assert found[i..][1..] == found[i + 1..];
      if found[i] !in r {
        r := r + [found[i]];
      }
    }
  }

  /** Every node that carries either label, once. */
  method GetControlPlaneNodes(env: Env) returns (r: seq<string>)
    ensures Distinct(r) && r == Nodes(env)
    ensures forall n :: n in r <==> n in env.oldLabel || n in env.newLabel
  {
    MergeMeaning([], env.oldLabel);
    MergeMeaning(Merge([], env.oldLabel), env.newLabel);
    r := AddNodes([], env.oldLabel);
    r := AddNodes(r, env.newLabel);
  }

  // ---- clients ----

  /** The etcd pod of this node answers. */
  predicate Answers(e: Etcd, env: Env, node: string)
  {
    node in env.up && node in Names(e.members)
  }

  function FirstAvailable(e: Etcd, env: Env, nodes: seq<string>): (r: Option<string>)
    ensures r.Some? ==> r.value in nodes && Answers(e, env, r.value)
    ensures r.None? ==> forall n | n in nodes :: !Answers(e, env, n)
  {
    if nodes == [] then None
    else if Answers(e, env, nodes[0]) then Some(nodes[0])
    else FirstAvailable(e, env, nodes[1..])
  }

  function MemberForName(ms: seq<Member>, name: string): (r: Option<Member>)
    ensures r.Some? ==> r.value in ms && r.value.name == name
    ensures r.None? ==> name !in Names(ms)
  {
    if ms == [] then None
    else if ms[0].name == name then Some(ms[0])
    else MemberForName(ms[1..], name)
  }

  function MemberForId(ms: seq<Member>, id: nat): (r: Option<Member>)
    ensures r.Some? ==> r.value in ms && r.value.id == id
    ensures r.None? ==> id !in Ids(ms)
  {
    if ms == [] then None
    else if ms[0].id == id then Some(ms[0])
    else MemberForId(ms[1..], id)
  }

  // ---- removing one member ----

  function Without(ms: seq<Member>, id: nat): (r: seq<Member>)
    ensures forall m :: m in r <==> m in ms && m.id != id
  {
    if ms == [] then []
    else (if ms[0].id == id then [] else [ms[0]]) + Without(ms[1..], id)
  }

  function Removed(e: Etcd, id: nat): Etcd
  {
    Etcd(Without(e.members, id), if e.leader == Some(id) then None else e.leader)
  }

  function Excluding(nodes: seq<string>, name: string): (r: seq<string>)
    ensures forall n :: n in r <==> n in nodes && n != name
  {
    if nodes == [] then []
    else (if nodes[0] == name then [] else [nodes[0]]) + Excluding(nodes[1..], name)
  }

  function RemoveMemberForNode(e: Etcd, name: string, env: Env): Result
  {
    if !env.nodesListed then Result(e, Some(NoNodes))
    else if |Nodes(env)| < 2 then Result(e, Some(MinNodes))
    else if FirstAvailable(e, env, Excluding(Nodes(env), name)).None? then Result(e, Some(NoClient))
    else if FirstAvailable(e, env, Excluding(Nodes(env), name)).value !in env.lists then Result(e, Some(NoMembers))
    else
      match MemberForName(e.members, name)
      case None => Result(e, None)
      case Some(m) =>
        (match env.reply
         case Done => Result(Removed(e, m.id), None)
         case Lost => Result(Removed(e, m.id), Some(RequestFailed))
         case Refused => Result(e, Some(RequestFailed)))
  }

  lemma {:induction false} WithoutKeepsOrder(ms: seq<Member>, id: nat)
    requires WellNamed(ms)
    ensures WellNamed(Without(ms, id))
  {
    if ms != [] {
      WithoutKeepsOrder(ms[1..], id);
      var rest := Without(ms[1..], id);
      forall k | 0 <= k < |rest|
        ensures rest[k].id != ms[0].id && (rest[k].name == ms[0].name ==> ms[0].name == "")
      {
        assert rest[k] in ms[1..];
        var j :| 0 <= j < |ms[1..]| && ms[1..][j] == rest[k];
        assert ms[j + 1] == rest[k];
      }
      if ms[0].id == id {
        assert Without(ms, id) == rest;
      } else {
        WellNamedCons(ms[0], rest);
      }
    }
  }

  lemma WellNamedCons(m: Member, rest: seq<Member>)
    requires WellNamed(rest)
    requires forall k | 0 <= k < |rest| :: rest[k].id != m.id && (rest[k].name == m.name ==> m.name == "")
    ensures WellNamed([m] + rest)
  {
    var s := [m] + rest;
    forall i, j | 0 <= i < j < |s|
      ensures s[i].id != s[j].id && (s[i].name == s[j].name ==> s[i].name == "")
    {
      var y := rest[j - 1];
      assert s[j] == y;
      if i > 0 {
        var x := rest[i - 1];
        assert s[i] == x && x.id != y.id;
      }
    }
  }

  /** A removal takes out at most the one member of that name; the member that served it survives, so etcd is never left
      empty. Without an error no member has the name any more. */
  lemma RemoveMeaning(e: Etcd, name: string, env: Env)
    requires Valid(e)
    ensures var r := RemoveMemberForNode(e, name, env);
            && Valid(r.etcd)
            && (forall m | m in r.etcd.members :: m in e.members)
            && (forall m | m in e.members && m.name != name :: m in r.etcd.members)
            && (e.members != [] ==> r.etcd.members != [])
            && (r.etcd != e ==> exists m :: m in r.etcd.members && m.name != name && m.name in env.up)
            && (r.error.None? && name != "" ==> name !in Names(r.etcd.members))
  {
    hide Nodes, Valid, Without, Names;
    var r := RemoveMemberForNode(e, name, env);
    var m := MemberForName(e.members, name);
    if r.etcd != e {
      RemovedValid(e, m.value);
      SingleName(e, m.value);
      ServerSurvives(e, m.value, FirstAvailable(e, env, Excluding(Nodes(env), name)).value);
    } else if m.Some? && env.reply == Done {
      SingleName(e, m.value);
    }
  }

  lemma ServerSurvives(e: Etcd, gone: Member, node: string)
    requires Valid(e) && gone in e.members && node in Names(e.members) && node != gone.name
    ensures exists s :: s in Removed(e, gone.id).members && s.name == node
  {
    var s :| s in e.members && s.name == node;
    assert s in Removed(e, gone.id).members;
  }

  lemma RemovedValid(e: Etcd, gone: Member)
    requires Valid(e) && gone in e.members
    ensures Valid(Removed(e, gone.id))
  {
    hide WellNamed, Without, Ids, Names;
    WithoutKeepsOrder(e.members, gone.id);
    SingleName(e, gone);
  }

  lemma SingleName(e: Etcd, gone: Member)
    requires Valid(e) && gone in e.members
    ensures gone.name != "" ==> gone.name !in Names(Removed(e, gone.id).members)
    ensures forall m | m in e.members && m.name != gone.name :: m in Removed(e, gone.id).members
    ensures Removed(e, gone.id).leader.Some? ==> Removed(e, gone.id).leader.value in Ids(Removed(e, gone.id).members)
  {
    var i :| 0 <= i < |e.members| && e.members[i] == gone;
    forall m | m in e.members
      ensures m.id == gone.id ==> m == gone
      ensures m.name == gone.name && gone.name != "" ==> m == gone
    {
      var j :| 0 <= j < |e.members| && e.members[j] == m;
    }
    if e.leader.Some? && e.leader.value != gone.id {
      var l :| l in e.members && l.id == e.leader.value;
      assert l in Without(e.members, gone.id);
    }
  }

  // ---- when a removal succeeds ----

  /** A control-plane node, by either label. */
  ghost predicate IsNode(env: Env, node: string)
  {
    node in env.oldLabel || node in env.newLabel
  }

  lemma NodesExactly(env: Env)
    ensures |Nodes(env)| >= 2 <==> exists a, b :: IsNode(env, a) && IsNode(env, b) && a != b
    ensures forall n :: n in Nodes(env) <==> IsNode(env, n)
  {
    MergeMeaning([], env.oldLabel);
    MergeMeaning(Merge([], env.oldLabel), env.newLabel);
    var s := Nodes(env);
    hide Nodes, Merge;
    if |s| >= 2 {
      assert s[0] in s && s[1] in s && s[0] != s[1] && IsNode(env, s[0]) && IsNode(env, s[1]);
    }
  }

  /** Of the nodes other than `name`, this is the first whose etcd pod is up and belongs to a member. */
  ghost predicate Serves(e: Etcd, env: Env, nodes: seq<string>, name: string, i: nat)
  {
    && i < |nodes| && nodes[i] != name && nodes[i] in env.up && nodes[i] in Names(e.members)
    && forall j | 0 <= j < i :: nodes[j] == name || nodes[j] !in env.up || nodes[j] !in Names(e.members)
  }

  lemma {:induction false} FirstServes(e: Etcd, env: Env, nodes: seq<string>, name: string, i: nat)
    requires Serves(e, env, nodes, name, i)
    ensures FirstAvailable(e, env, Excluding(nodes, name)) == Some(nodes[i])
  {
    var rest := Excluding(nodes[1..], name);
    if i == 0 {
      assert Excluding(nodes, name) == [nodes[0]] + rest;
    } else {
      assert Serves(e, env, nodes[1..], name, i - 1);
      FirstServes(e, env, nodes[1..], name, i - 1);
      if nodes[0] == name {
        assert Excluding(nodes, name) == rest;
      } else {
        assert Excluding(nodes, name) == [nodes[0]] + rest;
        assert Excluding(nodes, name)[1..] == rest;
      }
    }
  }

  lemma {:induction false} SomeServes(e: Etcd, env: Env, nodes: seq<string>, name: string) returns (i: nat)
    requires exists n :: n in nodes && n != name && n in env.up && n in Names(e.members)
    ensures Serves(e, env, nodes, name, i)
  {
    if nodes[0] != name && nodes[0] in env.up && nodes[0] in Names(e.members) {
      i := 0;
    } else {
      assert forall n | n in nodes && n != nodes[0] :: n in nodes[1..];
      i := SomeServes(e, env, nodes[1..], name);
      i := i + 1;
    }
  }

  /** The request to remove `name` can be made: there are two control-plane nodes, and of those other than `name` the
      first whose pod answers lists the members. */
  ghost predicate Reachable(e: Etcd, name: string, env: Env)
  {
    && env.nodesListed
    && (exists a, b :: IsNode(env, a) && IsNode(env, b) && a != b)
    && exists i: nat :: Serves(e, env, Nodes(env), name, i) && Nodes(env)[i] in env.lists
  }

  /** A removal succeeds exactly when the request can be made and, unless the member is gone already, goes through; the
      members change exactly when the member is there and the request takes effect. */
  lemma RemoveExactly(e: Etcd, name: string, env: Env)
    requires Valid(e)
    ensures var r := RemoveMemberForNode(e, name, env);
            && (r.error.None? <==> Reachable(e, name, env) && (name in Names(e.members) ==> env.reply == Done))
            && (r.etcd != e <==> Reachable(e, name, env) && name in Names(e.members) && env.reply != Refused)
            && (r.etcd != e && name != "" ==> name !in Names(r.etcd.members))
  {
    hide Nodes, Valid, Without, Names;
    NodesExactly(env);
    var nodes := Nodes(env);
    if n :| n in nodes && n != name && n in env.up && n in Names(e.members) {
      var i := SomeServes(e, env, nodes, name);
      FirstServes(e, env, nodes, name, i);
      ReachableIs(e, name, env, i);
    }
    var m := MemberForName(e.members, name);
    if m.Some? {
      SingleName(e, m.value);
      MemberGoes(e, m.value);
    }
  }

  lemma ReachableIs(e: Etcd, name: string, env: Env, i: nat)
    requires Serves(e, env, Nodes(env), name, i)
    ensures Reachable(e, name, env) <==>
              && env.nodesListed && (exists a, b :: IsNode(env, a) && IsNode(env, b) && a != b)
              && Nodes(env)[i] in env.lists
  {
    hide Nodes, Names;
    if k: nat :| Serves(e, env, Nodes(env), name, k) && Nodes(env)[k] in env.lists {
      FirstServes(e, env, Nodes(env), name, i);
      FirstServes(e, env, Nodes(env), name, k);
    }
  }

  lemma MemberGoes(e: Etcd, m: Member)
    requires m in e.members
    ensures Removed(e, m.id) != e && m.name in Names(e.members)
  {
    assert m !in Removed(e, m.id).members;
  }

  // ---- removing members without a node ----

  /** `time` counts the calls that met the outside world; `looked` records that some pod listed the members. */
  datatype Pass = Pass(etcd: Etcd, time: nat, removed: seq<string>, errors: nat, looked: bool)

  predicate Stays(m: Member, nodeNames: seq<string>)
  {
    m.name == "" || m.name in nodeNames
  }

  function SweepOne(m: Member, nodeNames: seq<string>, world: nat -> Env, p: Pass): Pass
  {
    if Stays(m, nodeNames) then p
    else
      var r := RemoveMemberForNode(p.etcd, m.name, world(p.time));
      p.(etcd := r.etcd, time := p.time + 1, removed := p.removed + [m.name],
         errors := p.errors + (if r.error.Some? then 1 else 0) + (if world(p.time).configEdited then 0 else 1))
  }

  function Sweep(ms: seq<Member>, nodeNames: seq<string>, world: nat -> Env, p: Pass): Pass
    decreases |ms|
  {
    if ms == [] then p else Sweep(ms[1..], nodeNames, world, SweepOne(ms[0], nodeNames, world, p))
  }

  predicate Listed(e: Etcd, node: string, env: Env)
  {
    Answers(e, env, node) && node in env.lists
  }

  function ReconcileMember(node: string, nodeNames: seq<string>, world: nat -> Env, p: Pass): Pass
  {
    if Listed(p.etcd, node, world(p.time)) then
      Sweep(p.etcd.members, nodeNames, world, p.(time := p.time + 1, looked := true))
    else p.(time := p.time + 1)
  }

  function ReconcileMembers(todo: seq<string>, nodeNames: seq<string>, world: nat -> Env, p: Pass): Pass
    decreases |todo|
  {
    if todo == [] then p
    else ReconcileMembers(todo[1..], nodeNames, world, ReconcileMember(todo[0], nodeNames, world, p))
  }

  /** What a pass may do: drop members that have a name no node has, and report them. */
  ghost predicate Pruned(p: Pass, q: Pass, nodeNames: seq<string>)
  {
    && Valid(q.etcd)
    && (p.etcd.members != [] ==> q.etcd.members != [])
    && (forall m | m in q.etcd.members :: m in p.etcd.members)
    && (forall m | m in p.etcd.members :: m in q.etcd.members || (!Stays(m, nodeNames) && m.name in q.removed))
    && p.errors <= q.errors && p.removed <= q.removed && (p.looked ==> q.looked)
    && (forall k | |p.removed| <= k < |q.removed| :: q.removed[k] != "" && q.removed[k] !in nodeNames)
  }

  lemma PrunedTransitive(p: Pass, q: Pass, r: Pass, nodeNames: seq<string>)
    requires Pruned(p, q, nodeNames) && Pruned(q, r, nodeNames)
    ensures Pruned(p, r, nodeNames)
  {
    hide Valid, Stays;
    forall k | |p.removed| <= k < |r.removed|
      ensures r.removed[k] != "" && r.removed[k] !in nodeNames
    {
      if k < |q.removed| {
        assert r.removed[k] == q.removed[k];
      }
    }
    forall m | m in p.etcd.members && m !in r.etcd.members
      ensures !Stays(m, nodeNames) && m.name in r.removed
    {
      if m !in q.etcd.members {
        var k :| 0 <= k < |q.removed| && q.removed[k] == m.name;
        assert r.removed[k] == m.name;
      }
    }
  }

  lemma SweepOneMeaning(m: Member, nodeNames: seq<string>, world: nat -> Env, p: Pass)
    requires Valid(p.etcd)
    ensures var q := SweepOne(m, nodeNames, world, p);
            && Pruned(p, q, nodeNames)
            && (q.errors == p.errors ==> Stays(m, nodeNames) || m.name !in Names(q.etcd.members))
  {
    RemoveMeaning(p.etcd, m.name, world(p.time));
    hide RemoveMemberForNode, Valid;
    var q := SweepOne(m, nodeNames, world, p);
    assert !Stays(m, nodeNames) ==> q.removed[|p.removed|] == m.name;
  }

  /** A sweep without errors leaves no swept member that lacks a node. */
  lemma {:induction false} SweepMeaning(ms: seq<Member>, nodeNames: seq<string>, world: nat -> Env, p: Pass)
    requires Valid(p.etcd)
    ensures var q := Sweep(ms, nodeNames, world, p);
            && Pruned(p, q, nodeNames)
            && (q.errors == p.errors ==> forall m | m in ms :: Stays(m, nodeNames) || m.name !in Names(q.etcd.members))
    decreases |ms|
  {
    if ms != [] {
      hide SweepOne;
      var one := SweepOne(ms[0], nodeNames, world, p);
      SweepOneMeaning(ms[0], nodeNames, world, p);
      SweepMeaning(ms[1..], nodeNames, world, one);
      var q := Sweep(ms[1..], nodeNames, world, one);
      PrunedTransitive(p, one, q, nodeNames);
      if q.errors == p.errors {
        assert forall n | n in Names(q.etcd.members) :: n in Names(one.etcd.members);
        assert ms == [ms[0]] + ms[1..];
      }
    }
  }

  /** Every member has a node or no name yet. */
  ghost predicate Clean(e: Etcd, nodeNames: seq<string>)
  {
    forall m | m in e.members :: Stays(m, nodeNames)
  }

  lemma ReconcileMemberMeaning(node: string, nodeNames: seq<string>, world: nat -> Env, p: Pass)
    requires Valid(p.etcd) && (p.looked && p.errors == 0 ==> Clean(p.etcd, nodeNames))
    ensures var q := ReconcileMember(node, nodeNames, world, p);
            Pruned(p, q, nodeNames) && (q.looked && q.errors == 0 ==> Clean(q.etcd, nodeNames))
  {
    hide Sweep, Valid, Stays;
    var q := ReconcileMember(node, nodeNames, world, p);
    SweepMeaning(p.etcd.members, nodeNames, world, p.(time := p.time + 1, looked := true));
    if Listed(p.etcd, node, world(p.time)) && q.errors == 0 {
      assert forall m | m in q.etcd.members :: m.name in Names(q.etcd.members);
    }
  }

  /** Reconciliation never removes a member that has a node or is not started, never the last member, reports every
      removal, and leaves only such members if some pod listed them and no removal failed. */
  lemma {:induction false} ReconcileMeaning(todo: seq<string>, nodeNames: seq<string>, world: nat -> Env, p: Pass)
    requires Valid(p.etcd) && (p.looked && p.errors == 0 ==> Clean(p.etcd, nodeNames))
    ensures var q := ReconcileMembers(todo, nodeNames, world, p);
            Pruned(p, q, nodeNames) && (q.looked && q.errors == 0 ==> Clean(q.etcd, nodeNames))
    decreases |todo|
  {
    if todo != [] {
      hide ReconcileMember, Clean;
      var one := ReconcileMember(todo[0], nodeNames, world, p);
      ReconcileMemberMeaning(todo[0], nodeNames, world, p);
      ReconcileMeaning(todo[1..], nodeNames, world, one);
      PrunedTransitive(p, one, ReconcileMembers(todo[1..], nodeNames, world, one), nodeNames);
    }
  }

  /** All is well: the node is among at least two, its pod is up, pods that answer list the members, and requests go
      through. */
  ghost predicate Healthy(env: Env, node: string)
  {
    && env.nodesListed && IsNode(env, node) && (exists other :: IsNode(env, other) && other != node)
    && node in env.up && env.up <= env.lists && env.reply == Done && env.configEdited
  }

  lemma RemoveHealthy(e: Etcd, name: string, env: Env, node: string)
    requires Valid(e) && Healthy(env, node) && node in Names(e.members) && name != node
    ensures RemoveMemberForNode(e, name, env).error.None?
    ensures node in Names(RemoveMemberForNode(e, name, env).etcd.members)
  {
    hide Nodes, RemoveMemberForNode;
    RemoveExactly(e, name, env);
    RemoveMeaning(e, name, env);
    NodesExactly(env);
    assert node in Nodes(env);
    var i := SomeServes(e, env, Nodes(env), name);
    ReachableIs(e, name, env, i);
    var m :| m in e.members && m.name == node;
  }

  lemma {:induction false} SweepHealthy(ms: seq<Member>, nodeNames: seq<string>, world: nat -> Env, p: Pass,
                                        node: string)
    requires Valid(p.etcd) && node in nodeNames && node in Names(p.etcd.members)
    requires forall t :: Healthy(world(t), node)
    ensures var q := Sweep(ms, nodeNames, world, p);
            Valid(q.etcd) && q.errors == p.errors && node in Names(q.etcd.members) && q.looked == p.looked
    decreases |ms|
  {
    if ms != [] {
      hide Valid, Names, Healthy, RemoveMemberForNode;
      var one := SweepOne(ms[0], nodeNames, world, p);
      if !Stays(ms[0], nodeNames) {
        RemoveHealthy(p.etcd, ms[0].name, world(p.time), node);
        RemoveMeaning(p.etcd, ms[0].name, world(p.time));
        assert world(p.time).configEdited by {
          assert Healthy(world(p.time), node);
          HealthyEdits(world(p.time), node);
        }
      }
      SweepHealthy(ms[1..], nodeNames, world, one, node);
    }
  }

  lemma HealthyEdits(env: Env, node: string)
    requires Healthy(env, node)
    ensures env.configEdited
  {
  }

  lemma {:induction false} ReconcileHealthy(todo: seq<string>, nodeNames: seq<string>, world: nat -> Env, p: Pass,
                                            node: string)
    requires Valid(p.etcd) && node in nodeNames && node in Names(p.etcd.members)
    requires forall t :: Healthy(world(t), node)
    ensures var q := ReconcileMembers(todo, nodeNames, world, p);
            q.errors == p.errors && (q.looked <== p.looked || node in todo)
    decreases |todo|
  {
    if todo != [] {
      hide Valid, Sweep, Names;
      var p0 := p.(time := p.time + 1, looked := true);
      SweepHealthy(p.etcd.members, nodeNames, world, p0, node);
      assert Healthy(world(p.time), node);
      ReconcileHealthy(todo[1..], nodeNames, world, ReconcileMember(todo[0], nodeNames, world, p), node);
      assert todo == [todo[0]] + todo[1..];
    }
  }

  /** While one of the given nodes runs a member and all is well, reconciliation reports no error and leaves exactly the
      members that have one of the nodes or no name yet. */
  lemma ReconcileCleans(e: Etcd, nodeNames: seq<string>, world: nat -> Env, node: string)
    requires Valid(e) && node in nodeNames && node in Names(e.members)
    requires forall t :: Healthy(world(t), node)
    ensures var q := ReconcileMembers(nodeNames, nodeNames, world, Pass(e, 0, [], 0, false));
            && q.errors == 0
            && forall m :: m in q.etcd.members <==> m in e.members && (m.name == "" || m.name in nodeNames)
  {
    hide ReconcileMembers, Valid, Healthy, Names;
    var p := Pass(e, 0, [], 0, false);
    ReconcileHealthy(nodeNames, nodeNames, world, p, node);
    ReconcileMeaning(nodeNames, nodeNames, world, p);
  }

  // ---- moving leadership ----

  /** A client of the leader: its id, or why there is none. */
  datatype Leader = Leader(id: nat) | Unavailable(error: Error)

  function ForLeader(e: Etcd, todo: seq<string>, nodes: seq<string>, env: Env): Leader
  {
    if todo == [] then Unavailable(NoClient)
    else if !Listed(e, todo[0], env) then ForLeader(e, todo[1..], nodes, env)
    else if e.leader.None? then Unavailable(NoLeader)
    else
      var m := MemberForId(e.members, e.leader.value);
      if m.None? || m.value.name !in nodes then Unavailable(NoLeader)
      else if !env.leaderUp then Unavailable(NoClient)
      else Leader(e.leader.value)
  }

  /** `candidate`: no machine, a machine without a node, or a machine's node. */
  function ForwardLeadership(e: Etcd, machine: Option<string>, candidate: Option<Option<string>>, env: Env): Result
  {
    if machine.None? then Result(e, None)
    else if candidate.None? || candidate.value.None? then Result(e, Some(NoCandidate))
    else if !env.nodesListed then Result(e, Some(NoNodes))
    else
      match ForLeader(e, Nodes(env), Nodes(env), env)
      case Unavailable(error) => Result(e, Some(error))
      case Leader(id) =>
        var current := MemberForName(e.members, machine.value);
        if !env.leaderLists then Result(e, Some(NoMembers))
        else if current.None? || current.value.id != id then Result(e, None)
        else
          match MemberForName(e.members, candidate.value.value)
          case None => Result(e, Some(NoCandidate))
          case Some(next) =>
            (match env.reply
             case Done => Result(e.(leader := Some(next.id)), None)
             case Lost => Result(e.(leader := Some(next.id)), Some(RequestFailed))
             case Refused => Result(e, Some(RequestFailed)))
  }

  lemma {:induction false} ForLeaderMeaning(e: Etcd, todo: seq<string>, nodes: seq<string>, env: Env)
    ensures var l := ForLeader(e, todo, nodes, env); l.Leader? ==> e.leader == Some(l.id)
  {
    if todo != [] && !Listed(e, todo[0], env) {
      ForLeaderMeaning(e, todo[1..], nodes, env);
    }
  }

  lemma NamedOnce(e: Etcd, a: Member, b: Member)
    requires Valid(e) && a in e.members && b in e.members && (a.id == b.id || (a.name == b.name && a.name != ""))
    ensures a == b
  {
    var i :| 0 <= i < |e.members| && e.members[i] == a;
    var j :| 0 <= j < |e.members| && e.members[j] == b;
  }

  ghost predicate Leads(e: Etcd, node: string)
  {
    var m := MemberForName(e.members, node);
    m.Some? && e.leader == Some(m.value.id)
  }

  lemma ForwardLeads(e: Etcd, node: string, candidate: string, env: Env)
    requires Valid(e) && node != "" && ForwardLeadership(e, Some(node), Some(Some(candidate)), env).error.None?
    ensures var f := ForwardLeadership(e, Some(node), Some(Some(candidate)), env).etcd;
            f.members == e.members && f.leader.Some? && (Leads(f, node) <==> candidate == node && Leads(e, node))
  {
    hide Nodes, ForLeader;
    ForLeaderMeaning(e, Nodes(env), Nodes(env), env);
    var c, next := MemberForName(e.members, node), MemberForName(e.members, candidate);
    if c.Some? && next.Some? && c.value.id == next.value.id {
      NamedOnce(e, c.value, next.value);
    }
  }

  lemma RemoveLeader(e: Etcd, node: string, env: Env)
    requires e.leader.Some?
    ensures var r := RemoveMemberForNode(e, node, env).etcd;
            r.leader == e.leader || (r.leader.None? && r != e && Leads(e, node))
    ensures var r := RemoveMemberForNode(e, node, env).etcd;
            r != e && Leads(e, node) ==> r.leader.None?
  {
    hide Nodes, FirstAvailable;
  }

  // ---- when leadership is forwarded ----

  /** Some node's pod lists the members, the leader runs on one of the nodes, and its pod answers. */
  ghost predicate LeaderReached(e: Etcd, todo: seq<string>, nodes: seq<string>, env: Env)
  {
    && (exists n :: n in todo && n in env.up && n in Names(e.members) && n in env.lists)
    && e.leader.Some? && (exists m :: m in e.members && m.id == e.leader.value && m.name in nodes)
    && env.leaderUp
  }

  lemma {:induction false} ForLeaderExactly(e: Etcd, todo: seq<string>, nodes: seq<string>, env: Env)
    requires Valid(e)
    ensures ForLeader(e, todo, nodes, env).Leader? <==> LeaderReached(e, todo, nodes, env)
  {
    hide Valid, Names;
    if todo != [] {
      assert todo == [todo[0]] + todo[1..];
      if !Listed(e, todo[0], env) {
        ForLeaderExactly(e, todo[1..], nodes, env);
        assert LeaderReached(e, todo, nodes, env) <==> LeaderReached(e, todo[1..], nodes, env);
      } else if e.leader.Some? {
        assert todo[0] in todo;
        var found := MemberForId(e.members, e.leader.value);
        if m :| m in e.members && m.id == e.leader.value && m.name in nodes {
          NamedOnce(e, m, found.value);
        }
      }
    }
  }

  /** Forwarding from a machine with a node reports no error exactly when there is a candidate with a node, the leader
      is reached and lists the members, and, if the machine leads, the candidate is a member and the request goes
      through.
      A machine that does not lead changes nothing and is no error; from one that leads, leadership goes to the
      candidate's member exactly when the request takes effect. */
  lemma ForwardExactly(e: Etcd, node: string, candidate: Option<Option<string>>, env: Env)
    requires Valid(e)
    ensures var r := ForwardLeadership(e, Some(node), candidate, env);
            var asked := && candidate.Some? && candidate.value.Some? && env.nodesListed && env.leaderLists
                         && LeaderReached(e, Nodes(env), Nodes(env), env);
            && (r.error.None? <==>
                  asked && (Leads(e, node) ==> candidate.value.value in Names(e.members) && env.reply == Done))
            && (asked && !Leads(e, node) ==> r == Result(e, None))
            && (asked && Leads(e, node) && candidate.value.value in Names(e.members) && env.reply != Refused ==>
                  Leads(r.etcd, candidate.value.value))
            && (r.etcd != e ==> asked && Leads(e, node) && env.reply != Refused)
            && r.etcd.members == e.members
  {
    ForLeaderExactly(e, Nodes(env), Nodes(env), env);
    ForLeaderMeaning(e, Nodes(env), Nodes(env), env);
    hide Nodes, ForLeader, LeaderReached;
  }

  /** After leadership was forwarded from a machine without an error, and with no election in between, removing the
      machine's member takes the leader away exactly when the candidate was the machine's own node, which led. */
  lemma ForwardThenRemove(e: Etcd, node: string, candidate: string, env: Env, later: Env)
    requires Valid(e) && node != "" && ForwardLeadership(e, Some(node), Some(Some(candidate)), env).error.None?
    ensures var f := ForwardLeadership(e, Some(node), Some(Some(candidate)), env).etcd;
            var r := RemoveMemberForNode(f, node, later).etcd;
            && f.members == e.members && f.leader.Some?
            && (r.leader == f.leader || r.leader.None?)
            && (r.leader.None? <==> r != f && candidate == node && Leads(e, node))
  {
    hide ForwardLeadership, RemoveMemberForNode, Leads;
    ForwardLeads(e, node, candidate, env);
    RemoveLeader(ForwardLeadership(e, Some(node), Some(Some(candidate)), env).etcd, node, later);
  }

  // ---- any sequence of operations ----

  datatype Action =
    | Remove(machine: Option<string>, env: Env)
    | Reconcile(nodeNames: seq<string>, world: nat -> Env)
    | Forward(node: Option<string>, candidate: Option<Option<string>>, seen: Env)
    | Join(id: nat)
    | Start(member: nat, name: string)
    | Elect(leader: nat)

  /** The operations, and what etcd does by itself: members join without a name, get one, and elect a leader. */
  function Step(e: Etcd, a: Action): Etcd
  {
    match a
    case Remove(machine, env) => if machine.None? then e else RemoveMemberForNode(e, machine.value, env).etcd
    case Reconcile(nodeNames, world) => ReconcileMembers(nodeNames, nodeNames, world, Pass(e, 0, [], 0, false)).etcd
    case Forward(machine, candidate, env) => ForwardLeadership(e, machine, candidate, env).etcd
    case Join(id) => if id in Ids(e.members) then e else e.(members := e.members + [Member(id, "")])
    case Start(id, name) => if name in Names(e.members) then e else e.(members := Named(e.members, id, name))
    case Elect(id) => if id in Ids(e.members) then e.(leader := Some(id)) else e
  }

  function Named(ms: seq<Member>, id: nat, name: string): (r: seq<Member>)
    ensures |r| == |ms|
    ensures forall i | 0 <= i < |r| :: r[i] == if ms[i] == Member(id, "") then Member(id, name) else ms[i]
  {
    seq(|ms|, i requires 0 <= i < |ms| => if ms[i] == Member(id, "") then Member(id, name) else ms[i])
  }

  function Run(e: Etcd, actions: seq<Action>): Etcd
  {
    if actions == [] then e else Step(Run(e, actions[..|actions| - 1]), actions[|actions| - 1])
  }

  lemma StepKeeps(e: Etcd, a: Action)
    requires Valid(e) && e.members != []
    ensures Valid(Step(e, a)) && Step(e, a).members != []
  {
    hide RemoveMemberForNode, ReconcileMembers, Nodes;
    match a
    case Remove(machine, env) => if machine.Some? { RemoveMeaning(e, machine.value, env); }
    case Reconcile(nodeNames, world) => ReconcileMeaning(nodeNames, nodeNames, world, Pass(e, 0, [], 0, false));
    case Forward(machine, candidate, env) => ForwardKeeps(e, machine, candidate, env);
    case Join(id) => if id !in Ids(e.members) { JoinKeeps(e, id); }
    case Start(id, name) => if name !in Names(e.members) { StartKeeps(e, id, name); }
    case Elect(id) =>
  }

  lemma ForwardKeeps(e: Etcd, machine: Option<string>, candidate: Option<Option<string>>, env: Env)
    requires Valid(e)
    ensures Valid(ForwardLeadership(e, machine, candidate, env).etcd)
    ensures ForwardLeadership(e, machine, candidate, env).etcd.members == e.members
  {
    hide Nodes, WellNamed, ForLeader;
    if candidate.Some? && candidate.value.Some? {
      var next := MemberForName(e.members, candidate.value.value);
      if next.Some? {
        assert next.value.id in Ids(e.members);
      }
    }
  }

  lemma JoinKeeps(e: Etcd, id: nat)
    requires Valid(e) && id !in Ids(e.members)
    ensures Valid(e.(members := e.members + [Member(id, "")]))
  {
    var ms := e.members + [Member(id, "")];
    assert forall i | 0 <= i < |e.members| :: e.members[i] in e.members && e.members[i].id in Ids(e.members);
    if e.leader.Some? {
      var m :| m in e.members && m.id == e.leader.value;
      assert m in ms;
    }
  }

  lemma StartKeeps(e: Etcd, id: nat, name: string)
    requires Valid(e) && name !in Names(e.members)
    ensures Valid(e.(members := Named(e.members, id, name)))
  {
    var ms, ns := e.members, Named(e.members, id, name);
    assert forall i | 0 <= i < |ms| :: ms[i] in ms && ms[i].name in Names(ms);
    assert forall i | 0 <= i < |ms| :: ns[i].id == ms[i].id;
    if e.leader.Some? {
      var m :| m in ms && m.id == e.leader.value;
      var i :| 0 <= i < |ms| && ms[i] == m;
      assert ns[i] in ns && ns[i].id in Ids(ns);
    }
  }

  /** No sequence of removals, reconciliations, leadership moves, joins and elections leaves etcd without a member. */
  lemma {:induction false} NeverEmpty(e: Etcd, actions: seq<Action>)
    requires Valid(e) && e.members != []
    ensures Valid(Run(e, actions)) && Run(e, actions).members != []
  {
    if actions != [] {
      hide Step, Valid;
      NeverEmpty(e, actions[..|actions| - 1]);
      StepKeeps(Run(e, actions[..|actions| - 1]), actions[|actions| - 1]);
    }
  }

  // ---- the calls themselves ----

  method ExcludeNode(nodes: seq<string>, name: string) returns (remaining: seq<string>)
    ensures remaining == Excluding(nodes, name)
  {
    remaining := [];
    for i := 0 to |nodes|
      invariant remaining + Excluding(nodes[i..], name) == Excluding(nodes, name)
    {
      ghost var rest := Excluding(nodes[i + 1..], name);
      assert nodes[i..][1..] == nodes[i + 1..];
      if nodes[i] != name {
        assert (remaining + [nodes[i]]) + rest == remaining + ([nodes[i]] + rest);
        remaining := remaining + [nodes[i]];
      }
    }
  }

  /** The workload cluster as one controller call sees it; every request meets the world at the current `time`. */
  class Workload {
    var etcd: Etcd
    var time: nat
    const world: nat -> Env

    constructor (e: Etcd, w: nat -> Env)
      ensures etcd == e && time == 0 && world == w
    {
      etcd, time, world := e, 0, w;
    }

    method FirstAvailableNode(nodes: seq<string>) returns (r: Option<string>)
      ensures r == FirstAvailable(etcd, world(time), nodes)
    {
      for i := 0 to |nodes|
        invariant FirstAvailable(etcd, world(time), nodes[i..]) == FirstAvailable(etcd, world(time), nodes)
      {
        if Answers(etcd, world(time), nodes[i]) {
          return Some(nodes[i]);
        }
        assert nodes[i..][1..] == nodes[i + 1..];
      }
      return None;
    }

    method RemoveMember(name: string) returns (error: Option<Error>)
      modifies this
      ensures time == old(time) + 1
      ensures Result(etcd, error) == RemoveMemberForNode(old(etcd), name, world(old(time)))
    {
      var env := world(time);
      if !env.nodesListed {
        time := time + 1;
        return Some(NoNodes);
      }
      var nodes := GetControlPlaneNodes(env);
      if |nodes| < 2 {
        time := time + 1;
        return Some(MinNodes);
      }
      hide Nodes, Excluding;
      var remaining := ExcludeNode(nodes, name);
      var client := FirstAvailableNode(remaining);
      time := time + 1;
      if client.None? {
        return Some(NoClient);
      }
      if client.value !in env.lists {
        return Some(NoMembers);
      }
      var member := MemberForName(etcd.members, name);
      if member.None? {
        return None;
      }
      if env.reply != Refused {
        etcd := Removed(etcd, member.value.id);
      }
      error := if env.reply == Done then None else Some(RequestFailed);
    }

    /** The sweep of one node's view of the members. */
    method SweepMembers(members: seq<Member>, nodeNames: seq<string>, ghost p: Pass)
      returns (removed: seq<string>, errors: nat)
      requires p.etcd == etcd && p.time == time
      modifies this
      ensures var q := Sweep(members, nodeNames, world, p);
              q.etcd == etcd && q.time == time && q.removed == p.removed + removed && q.errors == p.errors + errors
              && q.looked == p.looked
    {
      removed, errors := [], 0;
      ghost var now := p;
      for i := 0 to |members|
        invariant now == Pass(etcd, time, p.removed + removed, p.errors + errors, p.looked)
        invariant Sweep(members[i..], nodeNames, world, now) == Sweep(members, nodeNames, world, p)
      {
        assert members[i..][1..] == members[i + 1..];
        now := SweepOne(members[i], nodeNames, world, now);
        if members[i].name != "" && members[i].name !in nodeNames {
          removed := removed + [members[i].name];
          var error := RemoveMember(members[i].name);
          if error.Some? {
            errors := errors + 1;
          }
          if !world(time - 1).configEdited {
            errors := errors + 1;
          }
        }
      }
    }

    method ReconcileEtcdMembers(nodeNames: seq<string>) returns (removed: seq<string>, errors: nat)
      modifies this
      ensures exists looked ::
                Pass(etcd, time, removed, errors, looked)
                == ReconcileMembers(nodeNames, nodeNames, world, Pass(old(etcd), old(time), [], 0, false))
    {
      removed, errors := [], 0;
      ghost var looked := false;
      ghost var start := Pass(etcd, time, [], 0, false);
      for i := 0 to |nodeNames|
        invariant ReconcileMembers(nodeNames[i..], nodeNames, world, Pass(etcd, time, removed, errors, looked))
                  == ReconcileMembers(nodeNames, nodeNames, world, start)
      {
        assert nodeNames[i..][1..] == nodeNames[i + 1..];
        var env := world(time);
        var client := FirstAvailableNode([nodeNames[i]]);
        ghost var p := Pass(etcd, time, removed, errors, looked);
        time := time + 1;
        if client.Some? && client.value in env.lists {
          looked := true;
          var gone, failed := SweepMembers(etcd.members, nodeNames, p.(time := p.time + 1, looked := true));
          removed, errors := removed + gone, errors + failed;
        }
        assert Pass(etcd, time, removed, errors, looked) == ReconcileMember(nodeNames[i], nodeNames, world, p);
      }
    }

    /** Tries node after node; only a node that cannot be reached lets the search go on. */
    method LeaderClient(nodes: seq<string>, env: Env) returns (r: Leader)
      ensures r == ForLeader(etcd, nodes, nodes, env)
    {
      for i := 0 to |nodes|
        invariant ForLeader(etcd, nodes[i..], nodes, env) == ForLeader(etcd, nodes, nodes, env)
      {
        assert nodes[i..][1..] == nodes[i + 1..];
        if !Listed(etcd, nodes[i], env) {
          continue;
        }
        if etcd.leader.None? {
          return Unavailable(NoLeader);
        }
        var member := MemberForId(etcd.members, etcd.leader.value);
        if member.None? || member.value.name !in nodes {
          return Unavailable(NoLeader);
        }
        if !env.leaderUp {
          return Unavailable(NoClient);
        }
        return Leader(etcd.leader.value);
      }
      return Unavailable(NoClient);
    }

    method ForwardEtcdLeadership(machine: Option<string>, candidate: Option<Option<string>>)
      returns (error: Option<Error>)
      modifies this
      ensures time == old(time) + 1
      ensures Result(etcd, error) == ForwardLeadership(old(etcd), machine, candidate, world(old(time)))
    {
      var env := world(time);
      time := time + 1;
      if machine.None? {
        return None;
      }
      if candidate.None? || candidate.value.None? {
        return Some(NoCandidate);
      }
      if !env.nodesListed {
        return Some(NoNodes);
      }
      var nodes := GetControlPlaneNodes(env);
      var leader := LeaderClient(nodes, env);
      if leader.Unavailable? {
        return Some(leader.error);
      }
      if !env.leaderLists {
        return Some(NoMembers);
      }
      var current := MemberForName(etcd.members, machine.value);
      if current.None? || current.value.id != leader.id {
        return None;
      }
      var next := MemberForName(etcd.members, candidate.value.value);
      if next.None? {
        return Some(NoCandidate);
      }
      if env.reply != Refused {
        etcd := etcd.(leader := Some(next.value.id));
      }
      error := if env.reply == Done then None else Some(RequestFailed);
    }
  }
}
