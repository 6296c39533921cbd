/**
 The lock that lets one control-plane machine run init, kept in a ConfigMap. Lock and Unlock are sequences of get,
 create and delete requests; any number of calls interleave request by request.
 */
module InitLock {
  import opened Options

  /** What the ConfigMap records. */
  datatype Info = Held(machine: string) | Unreadable

  /** The next request of a Lock or Unlock call. */
  datatype Call =
    | LockGet(machine: string)
    | LockGetHolder(machine: string, holder: string)
    | LockUnlockGet(machine: string)
    | LockUnlockDelete(machine: string)
    | LockCreate(machine: string)
    | UnlockGet
    | UnlockDelete
    | Returned(result: bool)

  /** A Lock call that returned true, and how many deletes had succeeded when its deciding request ran. */
  datatype Grant = Grant(machine: string, epoch: nat)

  datatype World = World(
    lock: Option<Info>, machines: set<string>, calls: map<nat, Call>, epoch: nat, grants: seq<Grant>)

  /** How a request ends: answered (not-found and already-exists are answers), or with an error, after or without taking
      effect. */
  datatype Reply = Done | Lost | Refused

  datatype Action =
    | StartLock(id: nat, machine: string)
    | StartUnlock(id: nat)
    | Request(id: nat, reply: Reply)
    | AddMachine(machine: string)
    | RemoveMachine(machine: string)

  function Put(w: World, id: nat, c: Call): World
  {
    w.(calls := w.calls[id := c])
  }

  function Grants(w: World, id: nat, machine: string): World
  {
    Put(w, id, Returned(true)).(grants := w.grants + [Grant(machine, w.epoch)])
  }

  /** Delete names the ConfigMap only: it removes whatever lock is there. */
  function Deleted(w: World): World
  {
    if w.lock.None? then w else w.(lock := None, epoch := w.epoch + 1)
  }

  function DoRequest(w: World, id: nat, reply: Reply): World
  {
    if id !in w.calls then w
    else
      match w.calls[id]
      case LockGet(m) =>
        if reply != Done then Put(w, id, Returned(false))
        else (match w.lock
              case None => Put(w, id, LockCreate(m))
              case Some(Unreadable) => Put(w, id, Returned(false))
              case Some(Held(h)) => if h == m then Grants(w, id, m) else Put(w, id, LockGetHolder(m, h)))
      case LockGetHolder(m, h) =>
        if reply == Done && h !in w.machines then Put(w, id, LockUnlockGet(m)) else Put(w, id, Returned(false))
      case LockUnlockGet(m) =>
        if reply == Done && w.lock.Some? then Put(w, id, LockUnlockDelete(m)) else Put(w, id, Returned(false))
      case LockUnlockDelete(m) =>
        Put(if reply == Refused then w else Deleted(w), id, Returned(false))
      case LockCreate(m) =>
        if reply == Refused || w.lock.Some? then Put(w, id, Returned(false))
        else if reply == Lost then Put(w.(lock := Some(Held(m))), id, Returned(false))
        else Grants(w.(lock := Some(Held(m))), id, m)
      case UnlockGet =>
        if reply != Done then Put(w, id, Returned(false))
        else if w.lock.None? then Put(w, id, Returned(true))
        else Put(w, id, UnlockDelete)
      case UnlockDelete =>
        Put(if reply == Refused then w else Deleted(w), id, Returned(reply == Done))
      case Returned(_) => w
  }

  function Step(w: World, a: Action): World
  {
    match a
    case StartLock(id, m) => if id in w.calls then w else Put(w, id, LockGet(m))
    case StartUnlock(id) => if id in w.calls then w else Put(w, id, UnlockGet)
    case Request(id, reply) => DoRequest(w, id, reply)
    case AddMachine(m) => w.(machines := w.machines + {m})
    case RemoveMachine(m) => w.(machines := w.machines - {m})
  }

  function Run(w: World, actions: seq<Action>): World
  {
    if actions == [] then w else Step(Run(w, actions[..|actions| - 1]), actions[|actions| - 1])
  }

  ghost predicate Initial(w: World)
  {
    w.calls == map[] && w.grants == [] && w.epoch == 0
  }

  // ---- one machine per lock ----

  ghost predicate Inv(w: World)
  {
    && (forall i | 0 <= i < |w.grants| :: w.grants[i].epoch <= w.epoch)
    && (forall i | 0 <= i < |w.grants| && w.grants[i].epoch == w.epoch :: w.lock == Some(Held(w.grants[i].machine)))
    && (forall i, j | 0 <= i < |w.grants| && 0 <= j < |w.grants| && w.grants[i].epoch == w.grants[j].epoch ::
          w.grants[i].machine == w.grants[j].machine)
  }

  lemma StepKeeps(w: World, a: Action)
    requires Inv(w)
    ensures Inv(Step(w, a))
  {
    StepShape(w, a);
    var v := Step(w, a);
    hide Step;
    if v.grants != w.grants {
      GrantKeeps(w, v);
    }
  }

  /** A step leaves lock and grants alone, or deletes the lock, or takes a free lock unawares, or grants the lock as
      recorded. */
  lemma StepShape(w: World, a: Action)
    ensures var v := Step(w, a);
            || (v.grants == w.grants && v.epoch == w.epoch && (v.lock == w.lock || w.lock.None?))
            || (v.grants == w.grants && v.epoch == w.epoch + 1)
            || Granted(w, v)
  {
  }

  ghost predicate Granted(w: World, v: World)
  {
    && |v.grants| == |w.grants| + 1 && v.grants[..|w.grants|] == w.grants && v.epoch == w.epoch
    && v.grants[|w.grants|].epoch == w.epoch
    && v.lock == Some(Held(v.grants[|w.grants|].machine))
    && (w.lock == v.lock || w.lock.None?)
  }

  lemma GrantKeeps(w: World, v: World)
    requires Inv(w) && Granted(w, v)
    ensures Inv(v)
  {
    assert forall i | 0 <= i < |w.grants| :: v.grants[i] == v.grants[..|w.grants|][i] == w.grants[i];
  }

  /** In every interleaving, all Lock calls that return true between two consecutive successful deletes are for one
      machine, the one the ConfigMap records while that period lasts. */
  lemma {:induction false} OneMachinePerLock(w: World, actions: seq<Action>)
    requires Initial(w)
    ensures Inv(Run(w, actions))
  {
    if actions != [] {
      OneMachinePerLock(w, actions[..|actions| - 1]);
      StepKeeps(Run(w, actions[..|actions| - 1]), actions[|actions| - 1]);
    }
  }

  // ---- what a call returns ----

  /** A call in progress on behalf of Lock. */
  predicate Locking(c: Call)
  {
    c.LockGet? || c.LockGetHolder? || c.LockUnlockGet? || c.LockUnlockDelete? || c.LockCreate?
  }

  /** A request makes its Lock call return true exactly when it is a get that finds the lock held by the machine itself,
      or a create that finds no lock; then, and only then, the lock is granted, and the machine is recorded. */
  lemma GrantedExactly(w: World, id: nat, reply: Reply)
    requires id in w.calls && Locking(w.calls[id])
    ensures var c, v := w.calls[id], Step(w, Request(id, reply));
            var holds := c.LockGet? && w.lock == Some(Held(c.machine));
            var takes := c.LockCreate? && w.lock.None?;
            && (v.calls[id] == Returned(true) <==> reply == Done && (holds || takes))
            && v.grants == (if reply == Done && (holds || takes) then w.grants + [Grant(c.machine, w.epoch)]
                            else w.grants)
            && (reply == Done && (holds || takes) ==> v.lock == Some(Held(c.machine)))
  {
  }

  /** The next requests of a call, all answered and with nothing in between. */
  function Answered(w: World, id: nat, n: nat): World
  {
    if n == 0 then w else Step(Answered(w, id, n - 1), Request(id, Done))
  }

  /** A Lock call with nothing in between is over after four requests. It returns true exactly when there was no lock or
      the machine held it already, and then the machine holds it; a lock whose holder is gone is removed, and any other
      lock is left as it is. */
  lemma LockAlone(w: World, id: nat, m: string)
    requires id !in w.calls
    ensures var v := Answered(Step(w, StartLock(id, m)), id, 4);
            && v.machines == w.machines
            && v.calls == w.calls[id := Returned(w.lock.None? || w.lock == Some(Held(m)))]
            && v.lock == (match w.lock
                          case None => Some(Held(m))
                          case Some(Unreadable) => w.lock
                          case Some(Held(h)) => if h == m || h in w.machines then w.lock else None)
  {
    var s := Step(w, StartLock(id, m));
    assert Answered(s, id, 0) == s;
    assert Answered(s, id, 1) == Step(s, Request(id, Done));
    assert Answered(s, id, 2) == Step(Answered(s, id, 1), Request(id, Done));
    assert Answered(s, id, 3) == Step(Answered(s, id, 2), Request(id, Done));
    assert Answered(s, id, 4) == Step(Answered(s, id, 3), Request(id, Done));
  }

  /** An Unlock call with nothing in between returns true after two requests, and there is no lock. */
  lemma UnlockAlone(w: World, id: nat)
    requires id !in w.calls
    ensures var v := Answered(Step(w, StartUnlock(id)), id, 2);
            v.calls == w.calls[id := Returned(true)] && v.lock.None?
  {
    var s := Step(w, StartUnlock(id));
    assert Answered(s, id, 0) == s;
    assert Answered(s, id, 1) == Step(s, Request(id, Done));
    assert Answered(s, id, 2) == Step(Answered(s, id, 1), Request(id, Done));
  }

  /** A machine that asks twice gets the lock unless it is unreadable or held by another machine that exists. */
  lemma LockRetried(w: World, id: nat, again: nat, m: string)
    requires id !in w.calls && again !in w.calls && id != again
    ensures var v := Answered(Step(w, StartLock(id, m)), id, 4);
            Answered(Step(v, StartLock(again, m)), again, 4).lock == Some(Held(m)) <==>
              match w.lock
              case None => true
              case Some(Unreadable) => false
              case Some(Held(h)) => h == m || h !in w.machines
  {
    hide Step;
    LockAlone(w, id, m);
    var v := Answered(Step(w, StartLock(id, m)), id, 4);
    LockAlone(v, again, m);
  }

  // ---- one machine ever ----

  /** A call in progress on behalf of this machine. */
  predicate ActsFor(c: Call, m: string)
  {
    match c
    case LockGet(x) => x == m
    case LockGetHolder(x, h) => x == m || h == m
    case LockUnlockGet(x) => x == m
    case LockUnlockDelete(x) => x == m
    case LockCreate(x) => x == m
    case _ => false
  }

  /** The action is no Unlock, Lock is called for machines that exist, and no machine disappears that holds the lock or
      may come to hold it. */
  ghost predicate Calm(w: World, a: Action)
  {
    && !a.StartUnlock?
    && (a.StartLock? ==> a.machine in w.machines)
    && (a.RemoveMachine? ==> w.lock != Some(Held(a.machine)) && forall id | id in w.calls ::
       !ActsFor(w.calls[id], a.machine))
  }

  ghost predicate CalmRun(w: World, actions: seq<Action>)
  {
    forall k | 0 <= k < |actions| :: Calm(Run(w, actions[..k]), actions[k])
  }

  ghost predicate Undisturbed(w: World)
  {
    && w.epoch == 0
    && (w.lock.Some? && w.lock.value.Held? ==> w.lock.value.machine in w.machines)
    && (forall id | id in w.calls ::
          match w.calls[id]
          case LockGet(m) => m in w.machines
          case LockGetHolder(m, h) => h in w.machines
          case LockCreate(m) => m in w.machines
          case Returned(_) => true
          case _ => false)
  }

  lemma StepUndisturbed(w: World, a: Action)
    requires Undisturbed(w) && Calm(w, a)
    ensures Undisturbed(Step(w, a))
  {}

  lemma {:induction false} RunUndisturbed(w: World, actions: seq<Action>)
    requires Initial(w) && Undisturbed(w) && CalmRun(w, actions)
    ensures Undisturbed(Run(w, actions))
  {
    if actions != [] {
      var n := |actions| - 1;
      forall k | 0 <= k < n
        ensures Calm(Run(w, actions[..n][..k]), actions[..n][k])
      {
        assert actions[..n][..k] == actions[..k];
      }
      RunUndisturbed(w, actions[..n]);
      StepUndisturbed(Run(w, actions[..n]), actions[n]);
    }
  }

  /** If Unlock is never called and no holder disappears, at most one machine ever gets the lock. */
  lemma OneMachineEver(w: World, actions: seq<Action>)
    requires Initial(w) && Undisturbed(w) && CalmRun(w, actions)
    ensures var g := Run(w, actions).grants;
            forall i, j | 0 <= i < |g| && 0 <= j < |g| :: g[i].machine == g[j].machine
  {
    OneMachinePerLock(w, actions);
    RunUndisturbed(w, actions);
  }

  // ---- when the lock is exclusive ----

  ghost predicate EverGranted(w: World, m: string)
  {
    exists i :: 0 <= i < |w.grants| && w.grants[i].machine == m
  }

  /** Every machine that was granted the lock and still exists is the recorded holder. */
  ghost predicate Exclusive(w: World)
  {
    forall i | 0 <= i < |w.grants| && w.grants[i].machine in w.machines :: w.lock == Some(Held(w.grants[i].machine))
  }

  /** A delete, of Unlock or of a Lock call that found an earlier holder gone, takes effect while the recorded holder
      was granted the lock and exists; or a machine that was granted the lock and disappeared comes back without being
      the recorded holder. */
  ghost predicate Disturbs(w: World, a: Action)
  {
    match a
    case Request(id, reply) =>
      && id in w.calls && (w.calls[id].LockUnlockDelete? || w.calls[id].UnlockDelete?) && reply != Refused
      && w.lock.Some? && w.lock.value.Held?
      && EverGranted(w, w.lock.value.machine) && w.lock.value.machine in w.machines
    case AddMachine(m) => m !in w.machines && EverGranted(w, m) && w.lock != Some(Held(m))
    case _ => false
  }

  lemma ExclusiveGrant(w: World, v: World)
    requires Exclusive(w) && Granted(w, v) && v.machines == w.machines
    ensures Exclusive(v)
  {
    assert forall i | 0 <= i < |w.grants| :: v.grants[i] == v.grants[..|w.grants|][i] == w.grants[i];
  }

  lemma MachinesStay(w: World, a: Action)
    requires !a.AddMachine? && !a.RemoveMachine?
    ensures Step(w, a).machines == w.machines
  {
  }

  /** A step keeps the lock exclusive exactly when it does not disturb it. */
  lemma ExclusiveStep(w: World, a: Action)
    requires Exclusive(w)
    ensures Exclusive(Step(w, a)) <==> !Disturbs(w, a)
  {
    var v := Step(w, a);
    StepShape(w, a);
    if Granted(w, v) {
      MachinesStay(w, a);
      ExclusiveGrant(w, v);
    }
  }

  /** Over any run, with holders disappearing and their lock being cleaned up, with Unlock and lost replies, the lock
      stays exclusive throughout exactly when no step disturbs it. */
  lemma {:induction false} ExclusiveRun(w: World, actions: seq<Action>)
    requires Exclusive(w)
    ensures (forall k | 0 <= k <= |actions| :: Exclusive(Run(w, actions[..k]))) <==>
              forall k | 0 <= k < |actions| :: !Disturbs(Run(w, actions[..k]), actions[k])
  {
    hide Exclusive, Disturbs, Step;
    if forall k | 0 <= k < |actions| :: !Disturbs(Run(w, actions[..k]), actions[k]) {
      forall k | 0 <= k <= |actions|
        ensures Exclusive(Run(w, actions[..k]))
      {
        UndisturbedPrefix(w, actions, k);
      }
    } else {
      var k :| 0 <= k < |actions| && Disturbs(Run(w, actions[..k]), actions[k]);
      PrefixStep(w, actions, k);
      if Exclusive(Run(w, actions[..k])) {
        ExclusiveStep(Run(w, actions[..k]), actions[k]);
        assert !Exclusive(Run(w, actions[..k + 1]));
      }
    }
  }

  lemma PrefixStep(w: World, actions: seq<Action>, k: nat)
    requires k < |actions|
    ensures Run(w, actions[..k + 1]) == Step(Run(w, actions[..k]), actions[k])
  {
    hide Step;
    assert actions[..k + 1][..k] == actions[..k];
  }

  lemma {:induction false} UndisturbedPrefix(w: World, actions: seq<Action>, k: nat)
    requires Exclusive(w) && k <= |actions|
    requires forall i | 0 <= i < |actions| :: !Disturbs(Run(w, actions[..i]), actions[i])
    ensures Exclusive(Run(w, actions[..k]))
  {
    hide Exclusive, Disturbs, Step;
    if k > 0 {
      UndisturbedPrefix(w, actions, k - 1);
      PrefixStep(w, actions, k - 1);
      ExclusiveStep(Run(w, actions[..k - 1]), actions[k - 1]);
    }
  }

  /** While it is exclusive, at most one of the existing machines was ever granted the lock. */
  lemma ExclusiveMeaning(w: World, a: string, b: string)
    requires Exclusive(w) && EverGranted(w, a) && EverGranted(w, b) && a in w.machines && b in w.machines
    ensures a == b
  {
  }

  /** Once a delete has disturbed it, any other machine that calls Lock gets it while the first holder exists. */
  lemma DisturbedGrantsTwo(w: World, a: Action, id: nat, m: string)
    requires Disturbs(w, a) && a.Request? && id !in w.calls && m != w.lock.value.machine
    ensures var v := Run(Step(w, a), [StartLock(id, m), Request(id, Done), Request(id, Done)]);
            && v.machines == w.machines && w.lock.value.machine in v.machines
            && EverGranted(v, m) && EverGranted(v, w.lock.value.machine)
  {
    DeleteShape(w, a);
    hide Step, Run;
    FreeLockGranted(Step(w, a), id, m);
    var v := Run(Step(w, a), [StartLock(id, m), Request(id, Done), Request(id, Done)]);
    var i :| 0 <= i < |w.grants| && w.grants[i].machine == w.lock.value.machine;
    assert v.grants[i] == w.grants[i] && v.grants[|w.grants|].machine == m;
  }

  lemma DeleteShape(w: World, a: Action)
    requires Disturbs(w, a) && a.Request?
    ensures var s := Step(w, a);
            s.lock.None? && s.grants == w.grants && s.machines == w.machines && s.calls.Keys == w.calls.Keys
  {
  }

  lemma FreeLockGranted(w: World, id: nat, m: string)
    requires w.lock.None? && id !in w.calls
    ensures var v := Run(w, [StartLock(id, m), Request(id, Done), Request(id, Done)]);
            v.machines == w.machines && v.grants == w.grants + [Grant(m, w.epoch)]
  {
    var x, y := StartLock(id, m), Request(id, Done);
    assert [] + [x] == [x] && [x] + [y] == [x, y] && [x, y] + [y] == [x, y, y];
    RunSnoc(w, [], x);
    RunSnoc(w, [x], y);
    RunSnoc(w, [x, y], y);
  }

  // ---- why holders must not disappear ----

  lemma {:induction false} RunConcat(w: World, xs: seq<Action>, ys: seq<Action>)
    ensures Run(w, xs + ys) == Run(Run(w, xs), ys)
  {
    if ys == [] {
      assert xs + ys == xs;
    } else {
      var n := |ys| - 1;
      assert (xs + ys)[..|xs + ys| - 1] == xs + ys[..n];
      RunConcat(w, xs, ys[..n]);
    }
  }

  lemma RunSnoc(w: World, xs: seq<Action>, a: Action)
    ensures Run(w, xs + [a]) == Step(Run(w, xs), a)
  {
    assert (xs + [a])[..|xs|] == xs;
  }

  lemma RunFour(w: World, a: Action, b: Action, c: Action, d: Action)
    ensures Run(w, [a, b, c, d]) == Step(Step(Step(Step(w, a), b), c), d)
  {
    hide Step;
    RunSnoc(w, [], a);
    RunSnoc(w, [a], b);
    RunSnoc(w, [a, b], c);
    RunSnoc(w, [a, b, c], d);
    assert [] + [a] == [a] && [a] + [b] == [a, b] && [a, b] + [c] == [a, b, c] && [a, b, c] + [d] == [a, b, c, d];
  }

  /** A machine takes a free lock and disappears. */
  function Taken(id: nat, m: string): seq<Action>
  {
    [StartLock(id, m), Request(id, Done), Request(id, Done), RemoveMachine(m)]
  }

  /** Another machine finds the holder gone and is about to delete the lock. */
  function Seen(id: nat, m: string): seq<Action>
  {
    [StartLock(id, m), Request(id, Done), Request(id, Done), Request(id, Done)]
  }

  /** It deletes the lock and calls Lock again. */
  function Retaken(id: nat, again: nat, m: string): seq<Action>
  {
    [Request(id, Done), StartLock(again, m), Request(again, Done), Request(again, Done)]
  }

  lemma StaleTaken(w: World, id: nat, m: string)
    requires w.lock == None && m in w.machines && id !in w.calls
    ensures Run(w, Taken(id, m)) ==
            World(Some(Held(m)), w.machines - {m}, w.calls[id := Returned(true)], w.epoch,
              w.grants + [Grant(m, w.epoch)])
  {
    RunFour(w, StartLock(id, m), Request(id, Done), Request(id, Done), RemoveMachine(m));
    assert Run(w, Taken(id, m)).calls == w.calls[id := Returned(true)];
  }

  lemma StaleSeen(w: World, id: nat, m: string)
    requires w.lock.Some? && w.lock.value.Held? && w.lock.value.machine !in w.machines && m in w.machines
             && id !in w.calls
    ensures Run(w, Seen(id, m)) == Put(w, id, LockUnlockDelete(m))
  {
    RunFour(w, StartLock(id, m), Request(id, Done), Request(id, Done), Request(id, Done));
    assert Run(w, Seen(id, m)).calls == w.calls[id := LockUnlockDelete(m)];
  }

  /** The delete takes away whatever lock is there, and the caller's machine gets the lock. */
  lemma StaleRetaken(w: World, id: nat, again: nat, m: string)
    requires w.lock.Some? && m in w.machines && id in w.calls && w.calls[id] == LockUnlockDelete(m) && again !in w.calls
    ensures var v := Run(w, Retaken(id, again, m));
            && v.lock == Some(Held(m)) && v.machines == w.machines && v.epoch == w.epoch + 1
            && v.grants == w.grants + [Grant(m, w.epoch + 1)]
            && v.calls.Keys == w.calls.Keys + {again}
            && forall i | i in w.calls && i != id :: v.calls[i] == w.calls[i]
  {
    RunFour(w, Request(id, Done), StartLock(again, m), Request(again, Done), Request(again, Done));
  }

  /** After the first holder `a` is gone, two callers both decide to clean up. The slower delete removes the lock the
      faster one has just taken, and both are granted it while both machines exist and no Unlock was called. */
  lemma StaleDeleteGrantsTwo(w: World, a: string, b: string, c: string)
    requires Initial(w) && w.lock == None && w.machines == {a, b, c} && a != b && b != c && a != c
    ensures var v := Run(w, Taken(0, a) + Seen(1, b) + Seen(2, c) + Retaken(1, 3, b) + Retaken(2, 4, c));
            v.grants == [Grant(a, 0), Grant(b, 1), Grant(c, 2)] && v.machines == {b, c}
  {
    hide Run, Step, Taken, Seen, Retaken;
    StaleTaken(w, 0, a);
    var w1 := Run(w, Taken(0, a));
    StaleSeen(w1, 1, b);
    var w2 := Run(w1, Seen(1, b));
    StaleSeen(w2, 2, c);
    var w3 := Run(w2, Seen(2, c));
    StaleRetaken(w3, 1, 3, b);
    var w4 := Run(w3, Retaken(1, 3, b));
    StaleRetaken(w4, 2, 4, c);
    RunConcat(w, Taken(0, a), Seen(1, b));
    RunConcat(w, Taken(0, a) + Seen(1, b), Seen(2, c));
    RunConcat(w, Taken(0, a) + Seen(1, b) + Seen(2, c), Retaken(1, 3, b));
    RunConcat(w, Taken(0, a) + Seen(1, b) + Seen(2, c) + Retaken(1, 3, b), Retaken(2, 4, c));
  }
}
