/** What the patch protocol gets done: writes land, and sends that meet a newer version are retried. */
module PatchProgress {
  import opened Options
  import opened Conditions
  import opened ConditionsPatch
  import opened PatchProtocol

  /** A send that finds the version it read stores its result, once, and is done. */
  lemma SendLands(w: World, who: nat)
    requires At(w, who).Sending? && At(w, who).version == w.version
    ensures var c, v := At(w, who), Step(w, Send(who));
            && v.conditions == c.attempt.result && v.log == w.log + [Commit(who, c.attempt)] && At(v, who) == Idle
            && v.version == (if v.conditions == w.conditions then w.version else w.version + 1)
            && (forall x | x != who :: At(v, x) == At(w, x))
  {
  }

  /** A send that finds a newer version stores nothing; with attempts left the same change is tried again. */
  lemma SendRetries(w: World, who: nat)
    requires At(w, who).Sending? && At(w, who).version != w.version
    ensures var c, v := At(w, who), Step(w, Send(who));
            && v.conditions == w.conditions && v.version == w.version && v.log == w.log
            && (c.left > 1 ==> At(v, who) == Fetching(c.attempt.diff, c.ops, c.attempt.own, c.left - 1))
            && (c.left <= 1 ==> At(v, who) == Idle)
            && (forall x | x != who :: At(v, x) == At(w, x))
  {
  }

  lemma RunThree(w: World, a: Action, b: Action, c: Action)
    ensures PatchProtocol.Run(w, [a, b, c]) == Step(Step(Step(w, a), b), c)
  {
    hide Step;
    assert [a, b, c][..2] == [a, b] && [a, b][..1] == [a] && [a][..0] == [];
    assert PatchProtocol.Run(w, []) == w;
    assert PatchProtocol.Run(w, [a]) == Step(w, a);
    assert PatchProtocol.Run(w, [a, b]) == Step(Step(w, a), b);
  }

  /** A patch of a change that meets no foreign write and is not contested on a type it does not overwrite lands: every
      type it touches ends up stored in its new state or gone, every other as it was. A contested one stores nothing. */
  lemma PatchLands(w: World, who: nat, before: seq<Condition>, after: seq<Condition>, own: Ownership, times: seq<Time>)
    requires History(w) && At(w, who).Idle? && DistinctKinds(before) && DistinctKinds(after)
    requires Diff(before, after) != [] && |times| == |Diff(before, after)|
    ensures var v := PatchProtocol.Run(w, [Begin(who, before, after, own), Fetch(who, times, w.version), Send(who)]);
            var clear := forall t | Contested(before, after, w.conditions, t) :: own.force || t in own.owned;
            && At(v, who) == Idle
            && |v.log| == |w.log| + (if clear then 1 else 0)
            && (clear ==>
                  && (forall t | Get(before, t) != Get(after, t) :: StateOf(v.conditions, t) == StateOf(after, t))
                  && (forall t | Get(before, t) == Get(after, t) :: Get(v.conditions, t) == Get(w.conditions, t)))
            && (!clear ==> v.conditions == w.conditions && v.version == w.version)
  {
    hide Diff, ApplyOps, Get, StateOf, DistinctKinds, Contested, PatchProtocol.Run;
    var a, b, c := Begin(who, before, after, own), Fetch(who, times, w.version), Send(who);
    RunThree(w, a, b, c);
    ThreeWayExactly(before, after, w.conditions, own, times);
    var w1, w2 := Step(w, a), Step(Step(w, a), b);
    assert At(w1, who) == Fetching(Diff(before, after), Diff(before, after), own, ATTEMPTS);
    if ApplyOps(w.conditions, Diff(before, after), own, times).ok {
      SendLands(w2, who);
    } else {
      assert At(w2, who) == Idle;
    }
  }

  /** Sends by this controller since it last began a patch. */
  function Sends(w: World, actions: seq<Action>, who: nat): nat
  {
    if actions == [] then 0
    else
      var front, a := actions[..|actions| - 1], actions[|actions| - 1];
      var c := At(PatchProtocol.Run(w, front), who);
      if a.Begin? && a.who == who && c.Idle? && At(Step(PatchProtocol.Run(w, front), a), who).Fetching? then 0
      else if a == Send(who) && c.Sending? then Sends(w, front, who) + 1
      else Sends(w, front, who)
  }

  /** What a step does to the attempts a controller has left. */
  lemma AttemptsLeft(w: World, a: Action, who: nat)
    ensures var c, d := At(w, who), At(Step(w, a), who);
            if a == Send(who) && c.Sending? then d.Idle? || (d.Fetching? && d.left == c.left - 1 && c.left > 1)
            else
              || d == c || d.Idle? || (c.Fetching? && d.Sending? && d.left == c.left)
              || (a.Begin? && a.who == who && c.Idle? && d.Fetching? && d.left == 5)
  {
    hide Diff, ApplyOps, DistinctKinds;
  }

  /** A patch sends at most five times, and each send that meets a newer version uses up one attempt. */
  lemma {:induction false} AtMostFiveSends(w: World, actions: seq<Action>, who: nat)
    requires Initial(w)
    ensures Sends(w, actions, who) <= 5
    ensures var c := At(PatchProtocol.Run(w, actions), who);
            (c.Fetching? || c.Sending?) ==> Sends(w, actions, who) + c.left == 5 && c.left >= 1
  {
    if actions != [] {
      hide Step;
      var front, a := actions[..|actions| - 1], actions[|actions| - 1];
      AtMostFiveSends(w, front, who);
      AttemptsLeft(PatchProtocol.Run(w, front), a, who);
    }
  }
}
