/** The three-way merge of condition lists: NewPatch and Patch.Apply. */
module ConditionsPatch {
  import opened Options
  import opened Orders
  import opened Conditions

  datatype Op =
    | Add(after: Condition)
    | Change(before: Condition, after: Condition)
    | Remove(before: Condition)

  /** Apply options: overwrite everything, or the listed types, without looking for conflicts. */
  datatype Ownership = Ownership(force: bool, owned: seq<string>)

  predicate Owns(o: Ownership, t: string)
  {
    o.force || t in o.owned
  }

  function Kind(op: Op): string
  {
    if op.Remove? then op.before.kind else op.after.kind
  }

  predicate DistinctOps(ops: seq<Op>)
  {
    forall i, j | 0 <= i < j < |ops| :: Kind(ops[i]) != Kind(ops[j])
  }

  ghost predicate Names(ops: seq<Op>, t: string)
  {
    exists k | 0 <= k < |ops| :: Kind(ops[k]) == t
  }

  /** The state an operation wants its type to have. */
  function Target(op: Op): Option<Condition>
  {
    if op.Remove? then None else Some(State(op.after))
  }

  /** The type deviated on the latest object in a way that contradicts the operation. */
  predicate Conflicts(op: Op, latest: Option<Condition>)
  {
    match op
    case Add(after) => latest.Some? && !SameState(latest.value, after)
    case Change(before, after) =>
      latest.None? || (latest.value != before && !SameState(latest.value, after))
    case Remove(before) => latest.Some? && !SameState(latest.value, before)
  }

  // ---- building the patch ----

  function UpsertFor(before: seq<Condition>, target: Condition): seq<Op>
  {
    match Get(before, target.kind)
    case None => [Add(target)]
    case Some(current) => if target == current then [] else [Change(current, target)]
  }

  function Upserts(before: seq<Condition>, after: seq<Condition>): seq<Op>
  {
    if after == [] then []
    else Upserts(before, after[..|after| - 1]) + UpsertFor(before, after[|after| - 1])
  }

  function Removals(before: seq<Condition>, after: seq<Condition>): seq<Op>
  {
    if before == [] then []
    else
      var n := |before| - 1;
      Removals(before[..n], after) + if Get(after, before[n].kind).None? then [Remove(before[n])] else []
  }

  function Diff(before: seq<Condition>, after: seq<Condition>): seq<Op>
  {
    Upserts(before, after) + Removals(before, after)
  }

  method NewPatch(before: Conditioned, after: Conditioned) returns (patch: seq<Op>)
    ensures patch == Diff(before.conditions, after.conditions)
  {
    hide Get;
    var base, target := before.conditions, after.conditions;
    patch := [];
    for i := 0 to |target|
      invariant patch == Upserts(base, target[..i])
    {
      assert target[..i + 1][..i] == target[..i];
      var current := Get(base, target[i].kind);
      if current.None? {
        patch := patch + [Add(target[i])];
      } else if target[i] != current.value {
        patch := patch + [Change(current.value, target[i])];
      }
    }
    assert target[..|target|] == target;
    for i := 0 to |base|
      invariant patch == Upserts(base, target) + Removals(base[..i], target)
    {
      assert base[..i + 1][..i] == base[..i];
      if Get(target, base[i].kind).None? {
        patch := patch + [Remove(base[i])];
      }
    }
    assert base[..|base|] == base;
  }

  // ---- applying the patch ----

  datatype Outcome = Applied(list: seq<Condition>, op: Op) | Conflict

  /** One operation against a list; Set leaves its time in the operation. */
  function ApplyOp(s: seq<Condition>, op: Op, o: Ownership, now: Time): Outcome
  {
    match op
    case Add(after) =>
      var (r, d) := SetCondition(s, after, now);
      if Owns(o, after.kind) then Applied(r, Add(d))
      else (match Get(s, after.kind)
            case Some(l) => if SameState(l, after) then Applied(s, op) else Conflict
            case None => Applied(r, Add(d)))
    case Change(before, after) =>
      var (r, d) := SetCondition(s, after, now);
      if Owns(o, after.kind) then Applied(r, Change(before, d))
      else (match Get(s, after.kind)
            case None => Conflict
            case Some(l) =>
              if l == before then Applied(r, Change(before, d))
              else if SameState(l, after) then Applied(s, op)
              else Conflict)
    case Remove(before) =>
      var l := Get(s, before.kind);
      if !Owns(o, before.kind) && l.Some? && !SameState(l.value, before) then Conflict
      else Applied(DeleteCondition(s, before.kind), op)
  }

  datatype Merge = Merge(list: seq<Condition>, ops: seq<Op>, ok: bool)

  /** All operations in order, stopping at the first conflict. */
  function ApplyOps(s: seq<Condition>, ops: seq<Op>, o: Ownership, times: seq<Time>): (m: Merge)
    requires |times| == |ops|
    ensures |m.ops| == |ops|
    decreases |ops|
  {
    if ops == [] then Merge(s, [], true)
    else
      match ApplyOp(s, ops[0], o, times[0])
      case Conflict => Merge(s, ops, false)
      case Applied(list, op) =>
        var m := ApplyOps(list, ops[1..], o, times[1..]);
        Merge(m.list, [op] + m.ops, m.ok)
  }

  class Patch {
    var ops: seq<Op>

    constructor (initial: seq<Op>)
      ensures ops == initial
    {
      ops := initial;
    }

    /** One iteration of Apply. */
    method ApplyAt(i: nat, latest: Conditioned, o: Ownership, now: Time) returns (ok: bool)
      requires i < |ops|
      modifies this, latest
      ensures var r := ApplyOp(old(latest.conditions), old(ops)[i], o, now);
              if r.Conflict? then !ok && ops == old(ops) && latest.conditions == old(latest.conditions)
              else ok && ops == old(ops)[i := r.op] && latest.conditions == r.list
    {
      var op := ops[i];
      var l := Get(latest.conditions, Kind(op));
      if !Owns(o, Kind(op)) && Conflicts(op, l) {
        return false;
      }
      if op.Remove? {
        latest.Delete(Kind(op));
      } else if Owns(o, Kind(op)) || l.None? || (op.Change? && l.value == op.before) {
        var d := latest.Set(op.after, now);
        ops := ops[i := op.(after := d)];
      }
      ok := true;
    }

    /** Mutates `latest`, also when it fails halfway, and the transition times held in the patch itself. */
    method Apply(latest: Conditioned, o: Ownership, times: seq<Time>) returns (ok: bool)
      requires |times| == |ops|
      modifies this, latest
      ensures Merge(latest.conditions, ops, ok) == ApplyOps(old(latest.conditions), old(ops), o, times)
    {
      ghost var all := ApplyOps(latest.conditions, ops, o, times);
      assert Applying(all, latest.conditions, ops, o, times, 0) by {
        assert ops[..0] == [] && ops[0..] == ops && times[0..] == times;
      }
      var n := |ops|;
      for i := 0 to n
        invariant |ops| == n && Applying(all, latest.conditions, ops, o, times, i)
      {
        hide ApplyOp, ApplyOps, Applying;
        ApplyingStep(all, latest.conditions, ops, o, times, i);
        ok := ApplyAt(i, latest, o, times[i]);
        if !ok {
          return;
        }
      }
      assert ops[..n] + [] == ops;
      ok := true;
    }
  }

  /** What is left to apply, after the operations done so far, gives the whole merge. */
  ghost predicate Applying(all: Merge, s: seq<Condition>, ops: seq<Op>, o: Ownership, times: seq<Time>, i: nat)
  {
    && |times| == |ops| && i <= |ops|
    && var m := ApplyOps(s, ops[i..], o, times[i..]);
       all == Merge(m.list, ops[..i] + m.ops, m.ok)
  }

  lemma ApplyingStep(all: Merge, s: seq<Condition>, ops: seq<Op>, o: Ownership, times: seq<Time>, i: nat)
    requires Applying(all, s, ops, o, times, i) && i < |ops|
    ensures var r := ApplyOp(s, ops[i], o, times[i]);
            if r.Conflict? then all == Merge(s, ops, false)
            else Applying(all, r.list, ops[i := r.op], o, times, i + 1)
  {
    hide ApplyOp, ApplyOps;
    ApplyOpsFrom(s, ops, o, times, i);
    var r := ApplyOp(s, ops[i], o, times[i]);
    if r.Conflict? {
      assert ops == ops[..i] + ops[i..];
    } else {
      var next := ops[i := r.op];
      assert next[i + 1..] == ops[i + 1..] && next[..i + 1] == ops[..i] + [r.op];
      var m := ApplyOps(r.list, ops[i + 1..], o, times[i + 1..]);
      assert ops[..i] + ([r.op] + m.ops) == next[..i + 1] + m.ops;
    }
  }

  lemma ApplyOpsFrom(s: seq<Condition>, ops: seq<Op>, o: Ownership, times: seq<Time>, i: nat)
    requires |times| == |ops| && i < |ops|
    ensures var r := ApplyOp(s, ops[i], o, times[i]);
            ApplyOps(s, ops[i..], o, times[i..])
            == if r.Conflict? then Merge(s, ops[i..], false)
               else var m := ApplyOps(r.list, ops[i + 1..], o, times[i + 1..]); Merge(m.list, [r.op] + m.ops, m.ok)
  {
    hide ApplyOp;
    assert ops[i..][1..] == ops[i + 1..] && times[i..][1..] == times[i + 1..];
  }

  // ---- what a patch does ----

  predicate WellFormed(op: Op)
  {
    op.Change? ==> op.before.kind == op.after.kind
  }

  /** The same operation except for the transition time of its target. */
  predicate SameOp(a: Op, b: Op)
  {
    match a
    case Add(x) => b.Add? && SameState(x, b.after)
    case Change(b0, x) => b.Change? && b.before == b0 && SameState(x, b.after)
    case Remove(_) => a == b
  }

  predicate SameOps(a: seq<Op>, b: seq<Op>)
  {
    |a| == |b| && forall i | 0 <= i < |a| :: SameOp(a[i], b[i])
  }

  lemma ApplyOpMeaning(s: seq<Condition>, op: Op, o: Ownership, now: Time)
    requires DistinctKinds(s) && WellFormed(op)
    ensures var r := ApplyOp(s, op, o, now);
            && (r.Conflict? <==> !Owns(o, Kind(op)) && Conflicts(op, Get(s, Kind(op))))
            && (r.Applied? ==>
                  && DistinctKinds(r.list) && SameOp(op, r.op)
                  && StateOf(r.list, Kind(op)) == Target(op)
                  && forall t | t != Kind(op) :: Get(r.list, t) == Get(s, t))
  {
    if op.Remove? {
      DeleteMeaning(s, Kind(op));
    } else {
      SetMeaning(s, op.after, now);
    }
  }

  /** No operation on a type that is not owned conflicts with the list. */
  ghost predicate Clear(s: seq<Condition>, ops: seq<Op>, o: Ownership)
  {
    forall k | 0 <= k < |ops| :: Owns(o, Kind(ops[k])) || !Conflicts(ops[k], Get(s, Kind(ops[k])))
  }

  /** Every named type has the state its operation wants. */
  ghost predicate Reached(s: seq<Condition>, ops: seq<Op>)
  {
    forall k | 0 <= k < |ops| :: StateOf(s, Kind(ops[k])) == Target(ops[k])
  }

  /** The lists agree, times included, on every type the operations do not name. */
  ghost predicate Untouched(s: seq<Condition>, r: seq<Condition>, ops: seq<Op>)
  {
    forall t | !Names(ops, t) :: Get(r, t) == Get(s, t)
  }

  /** A patch as NewPatch builds it from lists with distinct types. */
  predicate Patchable(ops: seq<Op>)
  {
    DistinctOps(ops) && forall k | 0 <= k < |ops| :: WellFormed(ops[k])
  }

  lemma ClearNothing(s: seq<Condition>, o: Ownership)
    ensures Clear(s, [], o) && Reached(s, [])
  {}

  lemma HeadNotInTail(ops: seq<Op>)
    requires ops != [] && DistinctOps(ops)
    ensures !Names(ops[1..], Kind(ops[0]))
  {
    var rest := ops[1..];
    assert forall k | 0 <= k < |rest| :: rest[k] == ops[k + 1];
  }

  lemma SameLookupSameState(a: seq<Condition>, b: seq<Condition>, t: string)
    ensures Get(a, t) == Get(b, t) ==> StateOf(a, t) == StateOf(b, t)
  {}

  lemma ClearTail(s: seq<Condition>, mid: seq<Condition>, ops: seq<Op>, o: Ownership)
    requires ops != [] && DistinctOps(ops)
    requires forall t | t != Kind(ops[0]) :: Get(mid, t) == Get(s, t)
    ensures Clear(s, ops, o) <==>
              (Owns(o, Kind(ops[0])) || !Conflicts(ops[0], Get(s, Kind(ops[0])))) && Clear(mid, ops[1..], o)
  {
    hide Get, Conflicts;
    var rest := ops[1..];
    assert forall k | 0 < k < |ops| :: ops[k] == rest[k - 1] && Kind(ops[k]) != Kind(ops[0]);
    assert forall k | 0 <= k < |rest| :: rest[k] == ops[k + 1];
  }

  lemma ReachedCons(s: seq<Condition>, ops: seq<Op>)
    requires ops != []
    ensures Reached(s, ops) <==> StateOf(s, Kind(ops[0])) == Target(ops[0]) && Reached(s, ops[1..])
  {
    hide StateOf, Target;
    var rest := ops[1..];
    assert forall k | 0 < k < |ops| :: ops[k] == rest[k - 1];
    assert forall k | 0 <= k < |rest| :: rest[k] == ops[k + 1];
  }

  lemma NamesCons(ops: seq<Op>, t: string)
    requires ops != []
    ensures Names(ops, t) <==> Kind(ops[0]) == t || Names(ops[1..], t)
  {
    var rest := ops[1..];
    assert forall k | 0 < k < |ops| :: ops[k] == rest[k - 1];
    assert forall k | 0 <= k < |rest| :: rest[k] == ops[k + 1];
  }

  /** Three-way merge. With types distinct in the patch and on the latest object, Apply fails exactly when
      some operation on a type that is not owned conflicts with the latest object as it was; a successful
      Apply gives every named type its target state; no other type is ever touched. */
  lemma {:induction false} MergeMeaning(s: seq<Condition>, ops: seq<Op>, o: Ownership, times: seq<Time>)
    requires |times| == |ops|
    requires DistinctKinds(s) && Patchable(ops)
    ensures var m := ApplyOps(s, ops, o, times);
            && DistinctKinds(m.list) && SameOps(ops, m.ops)
            && (m.ok <==> Clear(s, ops, o))
            && (m.ok ==> Reached(m.list, ops))
            && Untouched(s, m.list, ops)
    decreases |ops|
  {
    hide ApplyOp, Get, Conflicts, Target, StateOf, DistinctKinds, Clear, Reached, Names;
    if ops == [] {
      assert Clear(s, ops, o) && Reached(s, ops) by { ClearNothing(s, o); }
    } else {
      var head, rest := ops[0], ops[1..];
      ApplyOpMeaning(s, head, o, times[0]);
      var r := ApplyOp(s, head, o, times[0]);
      if r.Conflict? {
        ClearTail(s, s, ops, o);
      } else {
        assert forall k | 0 <= k < |rest| :: rest[k] == ops[k + 1];
        MergeMeaning(r.list, rest, o, times[1..]);
        ClearTail(s, r.list, ops, o);
        var m := ApplyOps(r.list, rest, o, times[1..]);
        ReachedCons(m.list, ops);
        HeadNotInTail(ops);
        forall t | !Names(ops, t)
          ensures Get(m.list, t) == Get(s, t)
        {
          NamesCons(ops, t);
        }
        assert m.ok ==> StateOf(m.list, Kind(head)) == Target(head) by {
          SameLookupSameState(r.list, m.list, Kind(head));
        }
      }
    }
  }

  // ---- retries ----

  lemma SameOpEffect(a: Op, b: Op, l: Option<Condition>)
    requires SameOp(a, b)
    ensures Kind(a) == Kind(b) && Target(a) == Target(b) && (Conflicts(a, l) <==> Conflicts(b, l))
  {}

  lemma SameOpsEffect(s: seq<Condition>, a: seq<Op>, b: seq<Op>, o: Ownership)
    requires SameOps(a, b)
    ensures Patchable(a) <==> Patchable(b)
    ensures Clear(s, a, o) <==> Clear(s, b, o)
    ensures Reached(s, a) <==> Reached(s, b)
    ensures forall t :: Names(a, t) <==> Names(b, t)
  {
    hide Conflicts, Target, Get, StateOf, SameOp;
    forall k | 0 <= k < |a|
      ensures Kind(a[k]) == Kind(b[k]) && Target(a[k]) == Target(b[k])
      ensures WellFormed(a[k]) <==> WellFormed(b[k])
      ensures forall l :: Conflicts(a[k], l) <==> Conflicts(b[k], l)
    {
      SameOpWellFormed(a[k], b[k]);
      forall l
        ensures Conflicts(a[k], l) <==> Conflicts(b[k], l)
      {
        SameOpEffect(a[k], b[k], l);
      }
      SameOpEffect(a[k], b[k], None);
    }
  }

  lemma SameOpWellFormed(a: Op, b: Op)
    requires SameOp(a, b)
    ensures WellFormed(a) <==> WellFormed(b)
  {}

  /** Retrying with the times an earlier attempt left in the patch gives the same verdict and states. */
  lemma RetryMeaning(s: seq<Condition>, a: seq<Op>, b: seq<Op>, o: Ownership, ta: seq<Time>, tb: seq<Time>)
    requires |ta| == |a| && |tb| == |b| && SameOps(a, b)
    requires DistinctKinds(s) && Patchable(a)
    ensures var m, n := ApplyOps(s, a, o, ta), ApplyOps(s, b, o, tb);
            && m.ok == n.ok
            && (m.ok ==> forall t :: StateOf(m.list, t) == StateOf(n.list, t))
  {
    hide ApplyOp, Get, Conflicts, Target, StateOf, DistinctKinds, Clear, Patchable, SameOp;
    SameOpsEffect(s, a, b, o);
    MergeMeaning(s, a, o, ta);
    MergeMeaning(s, b, o, tb);
    var m, n := ApplyOps(s, a, o, ta), ApplyOps(s, b, o, tb);
    if m.ok {
      SameOpsEffect(n.list, a, b, o);
      forall t
        ensures StateOf(m.list, t) == StateOf(n.list, t)
      {
        if Names(a, t) {
          var k :| 0 <= k < |a| && Kind(a[k]) == t;
          assert StateOf(m.list, Kind(a[k])) == Target(a[k]);
          assert StateOf(n.list, Kind(a[k])) == Target(a[k]);
        } else {
          SameLookupSameState(m.list, n.list, t);
        }
      }
    }
  }

  // ---- NewPatch then Apply ----

  /** Why an operation is in the diff. */
  ghost predicate Justified(op: Op, before: seq<Condition>, after: seq<Condition>)
  {
    match op
    case Add(x) => x in after && Get(before, x.kind) == None
    case Change(w, x) => x in after && Get(before, x.kind) == Some(w) && w != x
    case Remove(w) => w in before && Get(after, w.kind) == None
  }

  lemma {:induction false} UpsertsAre(before: seq<Condition>, after: seq<Condition>)
    ensures forall op | op in Upserts(before, after) :: !op.Remove? && Justified(op, before, after)
    ensures forall c | c in after && Get(before, c.kind) != Some(c) :: Names(Upserts(before, after), c.kind)
  {
    hide Get;
    if after != [] {
      var n := |after| - 1;
      var p, u, last := Upserts(before, after[..n]), Upserts(before, after), UpsertFor(before, after[n]);
      UpsertsAre(before, after[..n]);
      assert after == after[..n] + [after[n]];
      assert u == p + last;
      forall op | op in p
        ensures Justified(op, before, after)
      {
        assert Justified(op, before, after[..n]);
      }
      UpsertForIs(before, after[n], after);
      forall c | c in after && Get(before, c.kind) != Some(c)
        ensures Names(u, c.kind)
      {
        if c in after[..n] {
          NamesAppend(p, last, c.kind);
        } else {
          assert u[|p|] == last[0];
        }
      }
    }
  }

  lemma {:induction false} UpsertsDistinct(before: seq<Condition>, after: seq<Condition>)
    requires DistinctKinds(after)
    ensures DistinctOps(Upserts(before, after))
  {
    if after != [] {
      hide Get, Justified;
      var n := |after| - 1;
      var p := Upserts(before, after[..n]);
      UpsertsDistinct(before, after[..n]);
      UpsertsFrom(before, after[..n]);
      UpsertForIs(before, after[n], after);
      forall k | 0 <= k < |p|
        ensures Kind(p[k]) != after[n].kind
      {
        assert p[k] in p;
        var i :| 0 <= i < n && after[..n][i].kind == Kind(p[k]);
        assert after[i].kind != after[n].kind;
      }
    }
  }

  lemma {:induction false} UpsertsFrom(before: seq<Condition>, after: seq<Condition>)
    ensures forall op | op in Upserts(before, after) :: exists i :: 0 <= i < |after| && after[i].kind == Kind(op)
  {
    if after != [] {
      hide Get, Justified;
      var n := |after| - 1;
      UpsertsFrom(before, after[..n]);
      UpsertForIs(before, after[n], after);
      forall op | op in Upserts(before, after)
        ensures exists i :: 0 <= i < |after| && after[i].kind == Kind(op)
      {
        if op in Upserts(before, after[..n]) {
          var i :| 0 <= i < n && after[..n][i].kind == Kind(op);
          assert after[i].kind == Kind(op);
        } else {
          assert after[n].kind == Kind(op);
        }
      }
    }
  }

  lemma UpsertForIs(before: seq<Condition>, c: Condition, after: seq<Condition>)
    requires c in after
    ensures forall op | op in UpsertFor(before, c) :: !op.Remove? && Kind(op) == c.kind && Justified(op, before, after)
    ensures |UpsertFor(before, c)| == if Get(before, c.kind) == Some(c) then 0 else 1
    ensures UpsertFor(before, c) != [] ==> Kind(UpsertFor(before, c)[0]) == c.kind
  {}

  lemma NamesAppend(p: seq<Op>, q: seq<Op>, t: string)
    ensures Names(p + q, t) <==> Names(p, t) || Names(q, t)
  {
    var u := p + q;
    assert forall k | 0 <= k < |p| :: u[k] == p[k];
    assert forall k | 0 <= k < |q| :: u[k + |p|] == q[k];
    assert forall k | |p| <= k < |u| :: u[k] == q[k - |p|];
  }

  lemma {:induction false} RemovalsAre(before: seq<Condition>, after: seq<Condition>)
    ensures forall op | op in Removals(before, after) :: op.Remove? && Justified(op, before, after)
    ensures forall c | c in before && Get(after, c.kind) == None :: Names(Removals(before, after), c.kind)
  {
    hide Get;
    if before != [] {
      var n := |before| - 1;
      var p, u := Removals(before[..n], after), Removals(before, after);
      RemovalsAre(before[..n], after);
      assert before == before[..n] + [before[n]];
      forall op | op in p
        ensures Justified(op, before, after)
      {
        assert Justified(op, before[..n], after);
      }
      forall c | c in before && Get(after, c.kind) == None
        ensures Names(u, c.kind)
      {
        if c in before[..n] {
          NamesAppend(p, u[|p|..], c.kind);
          assert p + u[|p|..] == u;
        } else {
          assert u[|p|] == Remove(c);
        }
      }
    }
  }

  lemma {:induction false} RemovalsDistinct(before: seq<Condition>, after: seq<Condition>)
    requires DistinctKinds(before)
    ensures DistinctOps(Removals(before, after))
    ensures forall op | op in Removals(before, after) :: op.Remove? && op.before in before
  {
    if before != [] {
      hide Get;
      var n := |before| - 1;
      var p := Removals(before[..n], after);
      RemovalsDistinct(before[..n], after);
      assert before == before[..n] + [before[n]];
      forall k | 0 <= k < |p|
        ensures Kind(p[k]) != before[n].kind
      {
        assert p[k] in p;
        var i :| 0 <= i < n && before[..n][i] == p[k].before;
        assert before[i].kind != before[n].kind;
      }
    }
  }

  /** NewPatch names a type once, and exactly when the two lists differ on it. */
  lemma DiffMeaning(before: seq<Condition>, after: seq<Condition>)
    requires DistinctKinds(before) && DistinctKinds(after)
    ensures Patchable(Diff(before, after))
    ensures forall op | op in Diff(before, after) :: Justified(op, before, after)
    ensures forall t :: Names(Diff(before, after), t) <==> Get(before, t) != Get(after, t)
  {
    hide Get;
    var u, r := Upserts(before, after), Removals(before, after);
    var d := Diff(before, after);
    UpsertsAre(before, after);
    UpsertsDistinct(before, after);
    RemovalsAre(before, after);
    RemovalsDistinct(before, after);
    forall op | op in d
      ensures Justified(op, before, after) && JustifiedKind(op, before, after)
    {
      assert op in u || op in r;
      JustifiedDiffers(op, before, after);
    }
    forall k | 0 <= k < |d|
      ensures WellFormed(d[k]) && JustifiedKind(d[k], before, after)
    {
      assert d[k] in d;
    }
    forall i, j | 0 <= i < j < |d|
      ensures Kind(d[i]) != Kind(d[j])
    {
      if j < |u| {
        assert d[i] == u[i] && d[j] == u[j];
      } else if i < |u| {
        assert d[i] == u[i] && d[j] == r[j - |u|] && u[i] in u && r[j - |u|] in r;
        UpsertNotRemoval(d[i], d[j], before, after);
      } else {
        assert d[i] == r[i - |u|] && d[j] == r[j - |u|];
      }
    }
    forall t
      ensures Names(d, t) <==> Get(before, t) != Get(after, t)
    {
      NamesAppend(u, r, t);
      LookupIn(before, t);
      LookupIn(after, t);
    }
  }

  /** Facts about the lookups of the type an operation of the diff names. */
  ghost predicate JustifiedKind(op: Op, before: seq<Condition>, after: seq<Condition>)
  {
    WellFormed(op) && Get(before, Kind(op)) != Get(after, Kind(op)) && StateOf(after, Kind(op)) == Target(op)
    && !Conflicts(op, Get(before, Kind(op)))
  }

  lemma JustifiedDiffers(op: Op, before: seq<Condition>, after: seq<Condition>)
    requires DistinctKinds(before) && DistinctKinds(after) && Justified(op, before, after)
    ensures JustifiedKind(op, before, after)
  {
    if op.Remove? {
      GetIs(before, op.before);
    } else {
      GetIs(after, op.after);
    }
  }

  lemma UpsertNotRemoval(a: Op, b: Op, before: seq<Condition>, after: seq<Condition>)
    requires DistinctKinds(after) && !a.Remove? && b.Remove?
    requires Justified(a, before, after) && Justified(b, before, after)
    ensures Kind(a) != Kind(b)
  {
    GetIs(after, a.after);
  }

  lemma LookupIn(s: seq<Condition>, t: string)
    ensures Get(s, t).Some? ==> Get(s, t).value in s && Get(s, t).value.kind == t
  {}

  /** Applying the diff of two lists to the first always succeeds and yields the second, up to times. */
  lemma RoundTrip(before: seq<Condition>, after: seq<Condition>, o: Ownership, times: seq<Time>)
    requires DistinctKinds(before) && DistinctKinds(after)
    requires |times| == |Diff(before, after)|
    ensures var m := ApplyOps(before, Diff(before, after), o, times);
            m.ok && DistinctKinds(m.list) && forall t :: StateOf(m.list, t) == StateOf(after, t)
  {
    hide ApplyOp, Get, Conflicts, Target, StateOf, DistinctKinds, Diff, Justified;
    var d := Diff(before, after);
    DiffMeaning(before, after);
    forall k | 0 <= k < |d|
      ensures JustifiedKind(d[k], before, after)
    {
      assert d[k] in d;
      JustifiedDiffers(d[k], before, after);
    }
    assert Clear(before, d, o);
    MergeMeaning(before, d, o, times);
    var m := ApplyOps(before, d, o, times);
    forall t
      ensures StateOf(m.list, t) == StateOf(after, t)
    {
      if Names(d, t) {
        var k :| 0 <= k < |d| && Kind(d[k]) == t;
        assert StateOf(m.list, Kind(d[k])) == Target(d[k]);
      } else {
        SameLookupSameState(m.list, after, t);
      }
    }
  }

  // ---- the merge in terms of the three lists ----

  /** The change from `before` to `after` touches this type, and the latest list neither has it as it was before nor as
      it is meant to be. A type that is in both lists counts as it was only with its transition time. */
  ghost predicate Contested(before: seq<Condition>, after: seq<Condition>, latest: seq<Condition>, t: string)
  {
    && Get(before, t) != Get(after, t) && StateOf(latest, t) != StateOf(after, t)
    && (if Get(before, t).Some? && Get(after, t).Some? then Get(latest, t) != Get(before, t)
        else StateOf(latest, t) != StateOf(before, t))
  }

  lemma ContestedConflicts(op: Op, before: seq<Condition>, after: seq<Condition>, latest: seq<Condition>)
    requires DistinctKinds(before) && DistinctKinds(after) && Justified(op, before, after)
    ensures Conflicts(op, Get(latest, Kind(op))) <==> Contested(before, after, latest, Kind(op))
  {
    JustifiedDiffers(op, before, after);
    if op.Remove? {
      GetIs(before, op.before);
    } else {
      GetIs(after, op.after);
    }
    hide Find;
  }

  /** Applying the change from `before` to `after` to the latest list fails exactly when it is contested on a type that
      is not overwritten; otherwise every type it touches gets its state in `after`, or goes, and every other type stays
      as it is. */
  lemma ThreeWayExactly(before: seq<Condition>, after: seq<Condition>, latest: seq<Condition>, o: Ownership,
                        times: seq<Time>)
    requires DistinctKinds(before) && DistinctKinds(after) && DistinctKinds(latest)
    requires |times| == |Diff(before, after)|
    ensures var m := ApplyOps(latest, Diff(before, after), o, times);
            && (m.ok <==> forall t | Contested(before, after, latest, t) :: o.force || t in o.owned)
            && (m.ok ==> DistinctKinds(m.list)
                         && (forall t | Get(before, t) != Get(after, t) :: StateOf(m.list, t) == StateOf(after, t))
                         && (forall t | Get(before, t) == Get(after, t) :: Get(m.list, t) == Get(latest, t)))
  {
    hide ApplyOp, ApplyOps, Get, Conflicts, Target, StateOf, DistinctKinds, Diff, Justified, Contested;
    var d := Diff(before, after);
    DiffMeaning(before, after);
    forall k | 0 <= k < |d|
      ensures JustifiedKind(d[k], before, after)
      ensures Conflicts(d[k], Get(latest, Kind(d[k]))) <==> Contested(before, after, latest, Kind(d[k]))
    {
      assert d[k] in d;
      JustifiedDiffers(d[k], before, after);
      ContestedConflicts(d[k], before, after, latest);
    }
    MergeMeaning(latest, d, o, times);
    var m := ApplyOps(latest, d, o, times);
    forall t
      ensures Contested(before, after, latest, t) ==> Names(d, t)
      ensures m.ok && Names(d, t) ==> StateOf(m.list, t) == StateOf(after, t)
      ensures m.ok && Contested(before, after, latest, t) ==> Owns(o, t)
    {
      ContestedTouched(before, after, latest, t);
      if Names(d, t) {
        var k :| 0 <= k < |d| && Kind(d[k]) == t;
        assert m.ok ==> StateOf(m.list, Kind(d[k])) == Target(d[k]);
      }
    }
  }

  lemma ContestedTouched(before: seq<Condition>, after: seq<Condition>, latest: seq<Condition>, t: string)
    ensures Contested(before, after, latest, t) ==> Get(before, t) != Get(after, t)
  {
  }
}
