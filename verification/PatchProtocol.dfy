/**
 Any number of controllers patching the conditions of one object. Each runs the loop of
 Helper.patchStatusConditions: read the object, merge its diff into the copy, send the result guarded by the
 resource version it read, and start over on a version conflict. The API server is one versioned cell; a read goes
 through a cache and may return any version there has been.
 */
module PatchProtocol {
  import opened Options
  import opened Conditions
  import opened ConditionsPatch

  const ATTEMPTS := 5

  /** A merge a controller computed: the operations it used, from which copy, and the outcome. */
  datatype Attempt = Attempt(
    diff: seq<Op>, used: seq<Op>, own: Ownership, times: seq<Time>, base: seq<Condition>, result: seq<Condition>)

  datatype Controller =
    | Idle
    | Fetching(diff: seq<Op>, ops: seq<Op>, own: Ownership, left: nat)
    | Sending(attempt: Attempt, ops: seq<Op>, left: nat, version: nat)

  datatype Commit = Commit(who: nat, attempt: Attempt)

  /** `past` holds the versions so far, `log` is the history of accepted writes. */
  datatype World = World(version: nat, conditions: seq<Condition>, past: map<nat, seq<Condition>>,
                         controllers: map<nat, Controller>, log: seq<Commit>)

  datatype Action =
    | Begin(who: nat, before: seq<Condition>, after: seq<Condition>, own: Ownership)
    | Fetch(who: nat, times: seq<Time>, version: nat)
    | Send(who: nat)
    | Fail(who: nat)
    | OtherWrite

  function At(w: World, who: nat): Controller
  {
    if who in w.controllers then w.controllers[who] else Idle
  }

  function Put(w: World, who: nat, c: Controller): World
  {
    w.(controllers := w.controllers[who := c])
  }

  /** Patch call: nothing to do when the diff is empty. Lists come from Set and Delete, so types are distinct. */
  function DoBegin(w: World, who: nat, before: seq<Condition>, after: seq<Condition>, own: Ownership): World
  {
    if At(w, who).Idle? && DistinctKinds(before) && DistinctKinds(after) && Diff(before, after) != [] then
      Put(w, who, Fetching(Diff(before, after), Diff(before, after), own, ATTEMPTS))
    else w
  }

  /** Get and Apply: Apply works on the fetched copy and leaves its times in the controller's operations. */
  function DoFetch(w: World, who: nat, times: seq<Time>, version: nat): World
  {
    var c := At(w, who);
    if c.Fetching? && |times| == |c.ops| && version in w.past then
      var m := ApplyOps(w.past[version], c.ops, c.own, times);
      if m.ok then
        Put(w, who, Sending(Attempt(c.diff, c.ops, c.own, times, w.past[version], m.list), m.ops, c.left, version))
      else Put(w, who, Idle)
    else w
  }

  function Next(w: World, version: nat, conditions: seq<Condition>): World
  {
    w.(version := version, conditions := conditions, past := w.past[version := conditions])
  }

  /** Status patch under the optimistic lock. A write that changes nothing keeps the version. */
  function DoSend(w: World, who: nat): World
  {
    var c := At(w, who);
    if !c.Sending? then w
    else if c.version == w.version then
      Next(w, if c.attempt.result == w.conditions then w.version else w.version + 1, c.attempt.result)
      .(controllers := w.controllers[who := Idle], log := w.log + [Commit(who, c.attempt)])
    else if c.left > 1 then Put(w, who, Fetching(c.attempt.diff, c.ops, c.attempt.own, c.left - 1))
    else Put(w, who, Idle)
  }

  function Step(w: World, a: Action): World
  {
    match a
    case Begin(who, before, after, own) => DoBegin(w, who, before, after, own)
    case Fetch(who, times, version) => DoFetch(w, who, times, version)
    case Send(who) => DoSend(w, who)
    case Fail(who) => Put(w, who, Idle)
    case OtherWrite => Next(w, w.version + 1, w.conditions)
  }

  function Run(w: World, actions: seq<Action>): World
  {
    if actions == [] then w else Step(Run(w, actions[..|actions| - 1]), actions[|actions| - 1])
  }

  ghost predicate Initial(w: World)
  {
    w.controllers == map[] && w.log == [] && History(w)
  }

  // ---- invariants ----

  /** The current version is the latest there has been. */
  ghost predicate History(w: World)
  {
    && w.version in w.past && w.past[w.version] == w.conditions
    && (forall v | v in w.past :: v <= w.version && DistinctKinds(w.past[v]))
  }

  /** The outcome is Apply of the diff, up to the times earlier attempts left in it, to the copy. */
  ghost predicate Sound(a: Attempt)
  {
    && DistinctKinds(a.base) && Patchable(a.diff) && SameOps(a.diff, a.used) && |a.times| == |a.used|
    && ApplyOps(a.base, a.used, a.own, a.times).ok
    && ApplyOps(a.base, a.used, a.own, a.times).list == a.result
  }

  ghost predicate Coherent(c: Controller, w: World)
  {
    match c
    case Idle => true
    case Fetching(diff, ops, _, _) => Patchable(diff) && SameOps(diff, ops)
    case Sending(a, ops, _, version) =>
      Sound(a) && SameOps(a.diff, ops) && version <= w.version && (version == w.version ==> a.base == w.conditions)
  }

  /** Every accepted write replaced exactly the list it was computed from. */
  ghost predicate Chained(initial: seq<Condition>, log: seq<Commit>, current: seq<Condition>)
  {
    && (log == [] ==> current == initial)
    && (log != [] ==> log[0].attempt.base == initial && log[|log| - 1].attempt.result == current)
    && (forall k | 0 <= k < |log| - 1 :: log[k + 1].attempt.base == log[k].attempt.result)
  }

  ghost predicate Inv(initial: seq<Condition>, w: World)
  {
    && History(w)
    && Chained(initial, w.log, w.conditions)
    && (forall k | 0 <= k < |w.log| :: Sound(w.log[k].attempt))
    && (forall who | who in w.controllers :: Coherent(w.controllers[who], w))
  }

  lemma SameOpsRefl(a: seq<Op>)
    ensures SameOps(a, a)
  {}

  lemma SameOpsTrans(a: seq<Op>, b: seq<Op>, c: seq<Op>)
    requires SameOps(a, b) && SameOps(b, c)
    ensures SameOps(a, c)
  {}

  lemma BeginKeeps(initial: seq<Condition>, w: World, who: nat, before: seq<Condition>, after: seq<Condition>,
                   own: Ownership)
    requires Inv(initial, w)
    ensures Inv(initial, DoBegin(w, who, before, after, own))
  {
    hide Diff, Patchable, Sound, DistinctKinds;
    if DistinctKinds(before) && DistinctKinds(after) {
      DiffMeaning(before, after);
      SameOpsRefl(Diff(before, after));
    }
  }

  lemma FetchKeeps(initial: seq<Condition>, w: World, who: nat, times: seq<Time>, version: nat)
    requires Inv(initial, w)
    ensures Inv(initial, DoFetch(w, who, times, version))
  {
    hide ApplyOps, Patchable, DistinctKinds, SameOps, Chained, Sound;
    var c := At(w, who);
    if c.Fetching? && |times| == |c.ops| && version in w.past {
      assert Coherent(c, w);
      var base := w.past[version];
      FetchSound(base, c, times);
      var m := ApplyOps(base, c.ops, c.own, times);
      PutKeeps(initial, w, who,
               if m.ok then Sending(Attempt(c.diff, c.ops, c.own, times, base, m.list), m.ops, c.left, version)
               else Idle);
    }
  }

  lemma FetchSound(base: seq<Condition>, c: Controller, times: seq<Time>)
    requires c.Fetching? && |times| == |c.ops| && Patchable(c.diff) && SameOps(c.diff, c.ops) && DistinctKinds(base)
    ensures var m := ApplyOps(base, c.ops, c.own, times);
            m.ok ==> Sound(Attempt(c.diff, c.ops, c.own, times, base, m.list)) && SameOps(c.diff, m.ops)
  {
    SameOpsEffect(base, c.diff, c.ops, c.own);
    MergeMeaning(base, c.ops, c.own, times);
    hide ApplyOps, Patchable, DistinctKinds, SameOps;
    SameOpsTrans(c.diff, c.ops, ApplyOps(base, c.ops, c.own, times).ops);
  }

  lemma PutKeeps(initial: seq<Condition>, w: World, who: nat, c: Controller)
    requires Inv(initial, w) && Coherent(c, w)
    ensures Inv(initial, Put(w, who, c))
  {
    hide Sound, SameOps, Patchable, DistinctKinds, Chained;
  }

  lemma ChainExtends(initial: seq<Condition>, log: seq<Commit>, current: seq<Condition>, c: Commit)
    requires Chained(initial, log, current) && c.attempt.base == current
    ensures Chained(initial, log + [c], c.attempt.result)
  {}

  lemma SendKeeps(initial: seq<Condition>, w: World, who: nat)
    requires Inv(initial, w)
    ensures Inv(initial, DoSend(w, who))
  {
    hide Sound, Patchable, DistinctKinds, SameOps, Chained;
    var c := At(w, who);
    if c.Sending? {
      assert Coherent(c, w);
      SoundResult(c.attempt);
      if c.version == w.version {
        ChainExtends(initial, w.log, w.conditions, Commit(who, c.attempt));
      }
    }
  }

  lemma SoundResult(a: Attempt)
    requires Sound(a)
    ensures DistinctKinds(a.result) && Patchable(a.diff)
    ensures Clear(a.base, a.diff, a.own) && Reached(a.result, a.diff) && Untouched(a.base, a.result, a.diff)
  {
    hide ApplyOps, Patchable, DistinctKinds, SameOps, Clear, Reached, Names;
    SameOpsEffect(a.base, a.diff, a.used, a.own);
    SameOpsEffect(a.result, a.diff, a.used, a.own);
    MergeMeaning(a.base, a.used, a.own, a.times);
  }

  lemma StepKeeps(initial: seq<Condition>, w: World, a: Action)
    requires Inv(initial, w)
    ensures Inv(initial, Step(w, a))
  {
    match a {
      case Begin(who, before, after, own) => BeginKeeps(initial, w, who, before, after, own);
      case Fetch(who, times, version) => FetchKeeps(initial, w, who, times, version);
      case Send(who) => SendKeeps(initial, w, who);
      case Fail(who) =>
      case OtherWrite =>
    }
  }

  /** In every interleaving, the accepted writes form one chain of merges: each is Apply of its controller's
      diff to exactly the list it replaces. */
  lemma {:induction false} WritesSerialize(w: World, actions: seq<Action>)
    requires Initial(w)
    ensures Inv(w.conditions, Run(w, actions))
  {
    if actions != [] {
      WritesSerialize(w, actions[..|actions| - 1]);
      StepKeeps(w.conditions, Run(w, actions[..|actions| - 1]), actions[|actions| - 1]);
    }
  }

  // ---- what readers see ----

  ghost predicate LastNaming(log: seq<Commit>, t: string, k: nat)
  {
    && k < |log| && Names(log[k].attempt.diff, t)
    && forall j | k < j < |log| :: !Names(log[j].attempt.diff, t)
  }

  /** The stored state of `t` is the one wanted by the last accepted write naming it; failing one, `t` is as at
      the start, transition time included. */
  ghost predicate Explained(initial: seq<Condition>, log: seq<Commit>, current: seq<Condition>, t: string)
  {
    if exists k: nat :: LastNaming(log, t, k) then
      exists k: nat, i: nat :: LastNaming(log, t, k) && Wants(log[k].attempt.diff, i, t, StateOf(current, t))
    else Get(current, t) == Get(initial, t)
  }

  ghost predicate Wants(diff: seq<Op>, i: nat, t: string, state: Option<Condition>)
  {
    i < |diff| && Kind(diff[i]) == t && Target(diff[i]) == state
  }

  lemma {:induction false} LogExplains(initial: seq<Condition>, log: seq<Commit>, current: seq<Condition>, t: string)
    requires Chained(initial, log, current) && forall k | 0 <= k < |log| :: Sound(log[k].attempt)
    ensures Explained(initial, log, current, t)
  {
    hide Sound, Get, Target, Patchable, DistinctKinds, Clear, Names;
    if log == [] {
      assert forall k: nat :: !LastNaming(log, t, k);
    } else {
      var n := |log| - 1;
      var a := log[n].attempt;
      SoundResult(a);
      if Names(a.diff, t) {
        assert LastNaming(log, t, n);
        var i := NamedAt(a.diff, t);
        assert Wants(a.diff, i, t, StateOf(current, t));
      } else {
        var p := log[..n];
        LogExplains(initial, p, a.base, t);
        assert Get(current, t) == Get(a.base, t);
        SameLookupSameState(current, a.base, t);
        forall k: nat
          ensures LastNaming(log, t, k) <==> LastNaming(p, t, k)
        {
          LastNamingShorter(log, t, k);
        }
        if k: nat :| LastNaming(p, t, k) {
          var k': nat, i: nat :| LastNaming(p, t, k') && Wants(p[k'].attempt.diff, i, t, StateOf(a.base, t));
          assert LastNaming(log, t, k') && log[k'] == p[k'];
        }
      }
    }
  }

  lemma LastNamingShorter(log: seq<Commit>, t: string, k: nat)
    requires log != [] && !Names(log[|log| - 1].attempt.diff, t)
    ensures LastNaming(log, t, k) <==> LastNaming(log[..|log| - 1], t, k)
  {
    hide Names;
    var p := log[..|log| - 1];
    assert forall j | 0 <= j < |p| :: p[j] == log[j];
  }

  lemma NamedAt(diff: seq<Op>, t: string) returns (i: nat)
    requires Names(diff, t)
    ensures i < |diff| && Kind(diff[i]) == t
  {
    i :| 0 <= i < |diff| && Kind(diff[i]) == t;
  }

  /** Last writer wins per type, in every interleaving, with no type lost. */
  lemma StoredStateIsLastWrite(w: World, actions: seq<Action>, t: string)
    requires Initial(w)
    ensures var v := Run(w, actions); Explained(w.conditions, v.log, v.conditions, t)
  {
    WritesSerialize(w, actions);
    LogExplains(w.conditions, Run(w, actions).log, Run(w, actions).conditions, t);
  }

  // ---- one owner per type ----

  /** Each controller only asks for changes to types it owns. */
  ghost predicate Disciplined(actions: seq<Action>, owner: string -> nat)
  {
    forall k, t | 0 <= k < |actions| && actions[k].Begin? && Names(Diff(actions[k].before, actions[k].after), t) ::
      owner(t) == actions[k].who
  }

  ghost predicate OwnedBy(diff: seq<Op>, who: nat, owner: string -> nat)
  {
    forall t | Names(diff, t) :: owner(t) == who
  }

  ghost predicate OwnedWorld(w: World, owner: string -> nat)
  {
    && (forall k | 0 <= k < |w.log| :: OwnedBy(w.log[k].attempt.diff, w.log[k].who, owner))
    && (forall who | who in w.controllers && w.controllers[who].Fetching? ::
       OwnedBy(w.controllers[who].diff, who, owner))
    && (forall who | who in w.controllers && w.controllers[who].Sending? ::
          OwnedBy(w.controllers[who].attempt.diff, who, owner))
  }

  lemma StepOwned(w: World, a: Action, owner: string -> nat)
    requires OwnedWorld(w, owner)
    requires a.Begin? ==> OwnedBy(Diff(a.before, a.after), a.who, owner)
    ensures OwnedWorld(Step(w, a), owner)
  {
    hide OwnedBy, Diff, ApplyOps;
    if a.Send? {
      var c := At(w, a.who);
      if c.Sending? && c.version == w.version {
        assert Step(w, a).log == w.log + [Commit(a.who, c.attempt)];
      }
    }
  }

  /** When every type has one owner, all accepted writes naming a type are its owner's; so what is stored is
      the owner's last accepted write of it. */
  lemma {:induction false} OnlyOwnersWrite(w: World, actions: seq<Action>, owner: string -> nat)
    requires Initial(w) && Disciplined(actions, owner)
    ensures OwnedWorld(Run(w, actions), owner)
  {
    if actions != [] {
      var n := |actions| - 1;
      assert forall k | 0 <= k < n :: actions[..n][k] == actions[k];
      OnlyOwnersWrite(w, actions[..n], owner);
      if actions[n].Begin? {
        assert OwnedBy(Diff(actions[n].before, actions[n].after), actions[n].who, owner);
      }
      StepOwned(Run(w, actions[..n]), actions[n], owner);
    }
  }

  lemma StoredStateIsOwnersLastWrite(w: World, actions: seq<Action>, owner: string -> nat, t: string)
    requires Initial(w) && Disciplined(actions, owner)
    ensures var v := Run(w, actions);
            && Explained(w.conditions, v.log, v.conditions, t)
            && forall k | 0 <= k < |v.log| && Names(v.log[k].attempt.diff, t) :: v.log[k].who == owner(t)
  {
    StoredStateIsLastWrite(w, actions, t);
    OnlyOwnersWrite(w, actions, owner);
    var v := Run(w, actions);
    forall k | 0 <= k < |v.log| && Names(v.log[k].attempt.diff, t)
      ensures v.log[k].who == owner(t)
    {
      assert OwnedBy(v.log[k].attempt.diff, v.log[k].who, owner);
    }
  }
}
