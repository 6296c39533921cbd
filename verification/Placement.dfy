/** Spreading control-plane machines over failure domains. Go maps are walked in any order: every result below
    holds for every order, and so for every way of breaking ties. */
module Placement {
  import opened Options
  import opened Orders

  datatype Machine = Machine(name: string, creation: int, domain: Option<string>)

  datatype Aggregation = Aggregation(id: string, count: nat)

  predicate DistinctNames(ms: set<Machine>)
  {
    forall a, b | a in ms && b in ms && a != b :: a.name != b.name
  }

  function InDomain(ms: set<Machine>, d: string): set<Machine>
  {
    set m | m in ms && m.domain == Some(d)
  }

  function Count(ms: set<Machine>, d: string): nat
  {
    |InDomain(ms, d)|
  }

  /** Walking a Go map. */
  method Walk<T>(s: set<T>) returns (r: seq<T>)
    ensures multiset(r) == multiset(s)
    ensures forall x :: x in r <==> x in s
    ensures forall i, j | 0 <= i < j < |r| :: r[i] != r[j]
  {
    r := [];
    var todo := s;
    while todo != {}
      invariant todo <= s
      invariant multiset(r) == multiset(s - todo)
      invariant forall x :: x in r <==> x in s && x !in todo
      invariant forall i, j | 0 <= i < j < |r| :: r[i] != r[j]
      decreases |todo|
    {
      var x :| x in todo;
      assert s - (todo - {x}) == (s - todo) + {x};
      r := r + [x];
      todo := todo - {x};
    }
    assert s - todo == s;
  }

  // ---- counting ----

  ghost predicate Tallies(aggs: seq<Aggregation>, domains: set<string>, ms: set<Machine>)
  {
    && (forall a | a in aggs :: a.id in domains && a.count == Count(ms, a.id))
    && (forall d | d in domains :: Aggregation(d, Count(ms, d)) in aggs)
  }

  method CountMachines(domains: set<string>, ms: set<Machine>) returns (counters: map<string, nat>)
    ensures counters.Keys == domains
    ensures forall d | d in domains :: counters[d] == Count(ms, d)
  {
    counters := map d | d in domains :: 0;
    var walk := Walk(ms);
    ghost var seen: set<Machine> := {};
    for i := 0 to |walk|
      invariant counters.Keys == domains
      invariant forall m :: m in seen <==> m in walk[..i]
      invariant forall d | d in domains :: counters[d] == Count(seen, d)
    {
      hide Count;
      var m := walk[i];
      assert m !in seen;
      forall d | d in domains
        ensures Count(seen + {m}, d) == Count(seen, d) + if m.domain == Some(d) then 1 else 0
      {
        CountAdd(seen, m, d);
      }
      seen := seen + {m};
      if m.domain.Some? && m.domain.value in domains {
        counters := counters[m.domain.value := counters[m.domain.value] + 1];
      }
    }
    assert walk[..|walk|] == walk;
    assert seen == ms;
  }

  method Pick(domains: set<string>, ms: set<Machine>) returns (aggs: seq<Aggregation>)
    ensures Tallies(aggs, domains, ms)
    ensures aggs == [] <==> domains == {}
  {
    if |domains| == 0 {
      return [];
    }
    hide Count;
    var counters := CountMachines(domains, ms);
    aggs := [];
    var ids := Walk(domains);
    assert |multiset(ids)| == |domains|;
    for i := 0 to |ids|
      invariant |aggs| == i
      invariant forall k | 0 <= k < i :: aggs[k] == Aggregation(ids[k], Count(ms, ids[k]))
    {
      aggs := aggs + [Aggregation(ids[i], counters[ids[i]])];
    }
    forall d | d in domains
      ensures Aggregation(d, Count(ms, d)) in aggs
    {
      assert d in ids;
      var k :| 0 <= k < |ids| && ids[k] == d;
      assert aggs[k] == Aggregation(d, Count(ms, d));
    }
  }

  predicate Fewer(a: Aggregation, b: Aggregation)
  {
    a.count < b.count
  }

  predicate More(a: Aggregation, b: Aggregation)
  {
    b.count < a.count
  }

  lemma SortedTallies(aggs: seq<Aggregation>, domains: set<string>, ms: set<Machine>,
                      less: (Aggregation, Aggregation) -> bool)
    requires Tallies(aggs, domains, ms)
    requires less == Fewer || less == More
    ensures Tallies(Sort(aggs, less), domains, ms) && SortedBy(Sort(aggs, less), less)
  {
    var dom := set a | a in aggs;
    SortSorts(aggs, less, dom);
    forall a
      ensures a in Sort(aggs, less) <==> a in aggs
    {
      assert a in multiset(aggs) <==> a in multiset(Sort(aggs, less));
    }
  }

  /** A domain with the fewest machines, if there are domains. */
  method PickFewest(domains: set<string>, ms: set<Machine>) returns (r: Option<string>)
    ensures r.None? <==> domains == {}
    ensures r.Some? ==> IsFewest(r.value, domains, ms)
  {
    var aggs := Pick(domains, ms);
    if |aggs| == 0 {
      return None;
    }
    SortedTallies(aggs, domains, ms, Fewer);
    aggs := Sort(aggs, Fewer);
    forall d | d in domains
      ensures aggs[0].count <= Count(ms, d)
    {
      var k :| 0 <= k < |aggs| && aggs[k] == Aggregation(d, Count(ms, d));
      assert k > 0 ==> !Fewer(aggs[k], aggs[0]);
    }
    assert aggs[0] in aggs;
    r := Some(aggs[0].id);
  }

  ghost predicate IsFewest(d: string, domains: set<string>, ms: set<Machine>)
  {
    d in domains && forall e | e in domains :: Count(ms, d) <= Count(ms, e)
  }

  /** A domain holding a candidate, with the most machines of the group among such domains. */
  ghost predicate IsMost(d: string, domains: set<string>, group: set<Machine>, candidates: set<Machine>)
  {
    && d in domains && InDomain(candidates, d) != {}
    && forall e | e in domains && InDomain(candidates, e) != {} :: Count(group, e) <= Count(group, d)
  }

  method PickMost(domains: set<string>, group: set<Machine>, candidates: set<Machine>) returns (r: Option<string>)
    ensures r.None? <==> forall m | m in candidates && m.domain.Some? :: m.domain.value !in domains
    ensures r.Some? ==> IsMost(r.value, domains, group, candidates)
  {
    var aggs := Pick(domains, group);
    SortedTallies(aggs, domains, group, More);
    aggs := Sort(aggs, More);
    for i := 0 to |aggs|
      invariant forall k | 0 <= k < i :: InDomain(candidates, aggs[k].id) == {}
    {
      if InDomain(candidates, aggs[i].id) != {} {
        assert aggs[i] in aggs;
        forall e | e in domains && InDomain(candidates, e) != {}
          ensures Count(group, e) <= aggs[i].count
        {
          var k :| 0 <= k < |aggs| && aggs[k] == Aggregation(e, Count(group, e));
          assert k > i ==> !More(aggs[k], aggs[i]);
        }
        var m :| m in InDomain(candidates, aggs[i].id);
        return Some(aggs[i].id);
      }
    }
    forall d | d in domains
      ensures InDomain(candidates, d) == {}
    {
      var k :| 0 <= k < |aggs| && aggs[k] == Aggregation(d, Count(group, d));
    }
    assert forall d, m | d in domains && m in candidates && m.domain == Some(d) :: m in InDomain(candidates, d);
    r := None;
  }

  // ---- the oldest machine ----

  predicate Older(a: Machine, b: Machine)
  {
    if a.creation == b.creation then StringLess(a.name, b.name) else a.creation < b.creation
  }

  ghost predicate IsOldest(m: Machine, ms: set<Machine>)
  {
    m in ms && forall x | x in ms && x != m :: Older(m, x)
  }

  lemma OlderOrders(ms: set<Machine>)
    requires DistinctNames(ms)
    ensures StrictWeakOrderOn(ms, Older) && TotalOn(ms, Older)
  {
    forall x, y | x in ms && y in ms
      ensures Older(x, y) ==> !Older(y, x)
      ensures x != y ==> Older(x, y) || Older(y, x)
    {
      StringLessTotal(x.name, y.name);
      StringLessIrreflexive(x.name);
      if StringLess(x.name, y.name) && StringLess(y.name, x.name) {
        StringLessTransitive(x.name, y.name, x.name);
      }
    }
    forall x, y, z | x in ms && y in ms && z in ms && Older(x, y) && !Older(z, y)
      ensures Older(x, z)
    {
      StringLessTotal(z.name, y.name);
      if StringLess(x.name, y.name) && StringLess(y.name, z.name) {
        StringLessTransitive(x.name, y.name, z.name);
      }
    }
  }

  /** The oldest of the machines: none was created earlier, and of those created with it its name is the smallest. */
  method Oldest(ms: set<Machine>) returns (r: Option<Machine>)
    requires DistinctNames(ms)
    ensures r.None? <==> ms == {}
    ensures r.Some? ==> IsOldest(r.value, ms)
    ensures r.Some? ==> forall x | x in ms && x != r.value ::
                r.value.creation < x.creation
                || (r.value.creation == x.creation && StringLess(r.value.name, x.name))
  {
    if |ms| == 0 {
      return None;
    }
    var walk := Walk(ms);
    assert |multiset(walk)| == |ms|;
    OlderOrders(ms);
    SortSorts(walk, Older, ms);
    var sorted := Sort(walk, Older);
    assert sorted[0] in multiset(walk);
    forall x | x in ms && x != sorted[0]
      ensures Older(sorted[0], x)
    {
      assert x in multiset(sorted);
      var k :| 0 <= k < |sorted| && sorted[k] == x;
    }
    r := Some(sorted[0]);
  }

  // ---- choosing where to grow and what to remove ----

  predicate Known(m: Machine, domains: set<string>)
  {
    m.domain.Some? && m.domain.value in domains
  }

  /** The domain to remove a candidate from; a machine outside the known domains goes first. */
  method FailureDomainWithMostMachines(domains: set<string>, all: set<Machine>, candidates: set<Machine>)
    returns (r: Option<string>)
    requires DistinctNames(candidates)
    ensures forall m | IsOldest(m, set x | x in candidates && !Known(x, domains)) :: r == m.domain
    ensures candidates != {} && (forall m | m in candidates :: Known(m, domains)) ==>
              r.Some? && IsMost(r.value, domains, all, candidates)
  {
    var outside := set x | x in candidates && !Known(x, domains);
    if |outside| > 0 {
      var m := Oldest(outside);
      OldestUnique(outside, m.value);
      return m.value.domain;
    }
    if candidates != {} {
      var m :| m in candidates;
      assert m !in outside;
    }
    r := PickMost(domains, all, candidates);
  }

  lemma OldestUnique(ms: set<Machine>, m: Machine)
    requires DistinctNames(ms) && IsOldest(m, ms)
    ensures forall x | IsOldest(x, ms) :: x == m
  {
    OlderOrders(ms);
  }

  /** The machine to delete. Fails exactly when there are no candidates; takes the oldest candidate outside the known
      domains if there is one, else the oldest candidate of a domain where the control plane has most machines. */
  method MachineInFailureDomainWithMostMachines(domains: set<string>, all: set<Machine>, candidates: set<Machine>)
    returns (r: Option<Machine>)
    requires DistinctNames(candidates)
    ensures r.None? <==> candidates == {}
    ensures r.Some? ==> r.value in candidates
    ensures r.Some? && !Known(r.value, domains) ==> IsOldest(r.value, set x | x in candidates && !Known(x, domains))
    ensures forall m | IsOldest(m, set x | x in candidates && !Known(x, domains)) :: r == Some(m)
    ensures r.Some? && Known(r.value, domains) ==>
              && (forall x | x in candidates :: Known(x, domains))
              && IsMost(r.value.domain.value, domains, all, candidates)
              && IsOldest(r.value, InDomain(candidates, r.value.domain.value))
  {
    var fd := FailureDomainWithMostMachines(domains, all, candidates);
    var inDomain := set m | m in candidates && m.domain == fd;
    r := Oldest(inDomain);
    var outside := set x | x in candidates && !Known(x, domains);
    if outside == {} {
      assert forall x | x in candidates :: x !in outside;
      if candidates != {} {
        assert inDomain == InDomain(candidates, fd.value);
      }
    } else {
      var o := Oldest(outside);
      assert o.value in inDomain && inDomain <= outside;
      assert IsOldest(o.value, inDomain);
      OldestUnique(inDomain, o.value);
      OldestUnique(outside, o.value);
    }
  }

  /** Machines marked for deletion come first, outdated ones before others; then outdated ones; then any. */
  function Candidates(all: set<Machine>, outdated: set<Machine>, annotated: set<Machine>): set<Machine>
  {
    if annotated * outdated != {} then annotated * outdated
    else if annotated * all != {} then annotated * all
    else if outdated != {} then outdated
    else all
  }

  /** A machine that may be chosen from the candidates: one outside the known domains if there is one, else one of a
      domain with a candidate where the control plane has most machines. */
  ghost predicate Removable(m: Machine, domains: set<string>, all: set<Machine>, candidates: set<Machine>)
  {
    && m in candidates
    && (Known(m, domains) ==>
          && (forall x | x in candidates :: Known(x, domains))
          && IsMost(m.domain.value, domains, all, candidates))
  }

  /** There is a machine to remove unless there is none at all. It is marked if any machine is, and outdated too if any
      marked one is; if none is marked it is outdated if any is. Of those in its domain none was created earlier. */
  method SelectMachineForScaleDown(domains: set<string>, all: set<Machine>, outdated: set<Machine>,
                                   annotated: set<Machine>)
    returns (r: Option<Machine>)
    requires outdated <= all && DistinctNames(all)
    ensures r.None? <==> all == {}
    ensures r.Some? ==> Removable(r.value, domains, all, Candidates(all, outdated, annotated))
    ensures annotated * all != {} ==> r.Some? && r.value in annotated
    ensures annotated * outdated != {} || (annotated * all == {} && outdated != {}) ==> r.Some? && r.value in outdated
    ensures r.Some? ==>
              forall x | x in Candidates(all, outdated, annotated) && x.domain == r.value.domain ::
                r.value.creation <= x.creation
  {
    var machines := all;
    if |annotated * outdated| > 0 {
      machines := annotated * outdated;
    } else if |annotated * all| > 0 {
      machines := annotated * all;
    } else if |outdated| > 0 {
      machines := outdated;
    }
    assert machines == Candidates(all, outdated, annotated) && machines <= all;
    r := MachineInFailureDomainWithMostMachines(domains, all, machines);
    if r.Some? && Known(r.value, domains) {
      assert forall x | x in machines && x.domain == r.value.domain :: x in InDomain(machines, r.value.domain.value);
    } else if r.Some? {
      ghost var outside := set x | x in machines && !Known(x, domains);
      assert forall x | x in machines && x.domain == r.value.domain :: x in outside;
    }
  }

  // ---- spread ----

  /** No domain has more than `k` machines more than another. */
  ghost predicate Spread(ms: set<Machine>, domains: set<string>, k: int)
  {
    forall d, e | d in domains && e in domains :: Count(ms, d) - Count(ms, e) <= k
  }

  lemma CountAdd(ms: set<Machine>, m: Machine, d: string)
    requires m !in ms
    ensures Count(ms + {m}, d) == Count(ms, d) + if m.domain == Some(d) then 1 else 0
  {
    if m.domain == Some(d) {
      assert InDomain(ms + {m}, d) == InDomain(ms, d) + {m};
    } else {
      assert InDomain(ms + {m}, d) == InDomain(ms, d);
    }
  }

  /** The machine is one of these and its domain already has `k` fewer of them than another. */
  ghost predicate Widens(ms: set<Machine>, m: Machine, domains: set<string>, k: int)
  {
    m in ms && Known(m, domains)
    && exists e :: e in domains && e != m.domain.value && Count(ms, e) >= Count(ms, m.domain.value) + k
  }

  /** Adding to a domain with the fewest machines keeps the spread. */
  lemma AddKeeps(ms: set<Machine>, m: Machine, domains: set<string>, k: int)
    requires Spread(ms, domains, k) && k >= 1 && m !in ms && m.domain.Some? && IsFewest(m.domain.value, domains, ms)
    ensures Spread(ms + {m}, domains, k)
  {
    forall e | e in domains
      ensures Count(ms + {m}, e) == Count(ms, e) + if m.domain == Some(e) then 1 else 0
    {
      CountAdd(ms, m, e);
    }
  }

  /** Removing a machine keeps the spread exactly when it does not widen it. */
  lemma RemoveExactly(ms: set<Machine>, m: Machine, domains: set<string>, k: int)
    requires Spread(ms, domains, k)
    ensures Spread(ms - {m}, domains, k) <==> !Widens(ms, m, domains, k)
  {
    var next := ms - {m};
    if m in ms {
      assert next + {m} == ms;
      forall e | e in domains
        ensures Count(ms, e) == Count(next, e) + if m.domain == Some(e) then 1 else 0
      {
        CountAdd(next, m, e);
      }
      if Widens(ms, m, domains, k) {
        var e :| e in domains && e != m.domain.value && Count(ms, e) >= Count(ms, m.domain.value) + k;
        assert Count(next, e) - Count(next, m.domain.value) > k;
      }
    } else {
      assert next == ms;
    }
  }

  /** The machines of a control plane, and those of them that are up to date. */
  datatype Fleet = Fleet(all: set<Machine>, current: set<Machine>)

  /** Scaling up: a new, up-to-date machine in a domain PickFewest may return for the up-to-date ones. */
  ghost predicate ScalesUp(f: Fleet, g: Fleet, domains: set<string>, m: Machine)
  {
    && m !in f.all && m !in f.current && m.domain.Some? && IsFewest(m.domain.value, domains, f.current)
    && g == Fleet(f.all + {m}, f.current + {m})
  }

  /** Scaling down: a machine SelectMachineForScaleDown may return. */
  ghost predicate ScalesDown(f: Fleet, g: Fleet, domains: set<string>, outdated: set<Machine>,
                             annotated: set<Machine>, m: Machine)
  {
    && outdated <= f.all - f.current
    && Removable(m, domains, f.all, Candidates(f.all, outdated, annotated))
    && g == Fleet(f.all - {m}, f.current - {m})
  }

  ghost predicate Scales(f: Fleet, g: Fleet, domains: set<string>)
  {
    || (exists m :: ScalesUp(f, g, domains, m))
    || (exists outdated, annotated, m :: ScalesDown(f, g, domains, outdated, annotated, m))
  }

  ghost predicate StepWidens(f: Fleet, g: Fleet, domains: set<string>, k: int)
  {
    exists m :: m in f.all - g.all && Widens(f.current, m, domains, k)
  }

  lemma StepExactly(f: Fleet, g: Fleet, domains: set<string>, k: int)
    requires Spread(f.current, domains, k) && k >= 1 && Scales(f, g, domains)
    ensures Spread(g.current, domains, k) <==> !StepWidens(f, g, domains, k)
  {
    hide Spread, Widens, Removable, IsFewest;
    if m :| ScalesUp(f, g, domains, m) {
      AddKeeps(f.current, m, domains, k);
      assert f.all - g.all == {};
    } else {
      var outdated, annotated, m :| ScalesDown(f, g, domains, outdated, annotated, m);
      RemoveExactly(f.current, m, domains, k);
      ChosenInAll(f, domains, outdated, annotated, m);
      assert f.all - g.all == {m};
    }
  }

  lemma ChosenInAll(f: Fleet, domains: set<string>, outdated: set<Machine>, annotated: set<Machine>, m: Machine)
    requires outdated <= f.all && Removable(m, domains, f.all, Candidates(f.all, outdated, annotated))
    ensures m in f.all
  {
  }

  /** Over every run of scale-ups and scale-downs, whatever the ties, the spread of up-to-date machines stays within the
      larger of one and what it was exactly when no scale-down takes an up-to-date machine from a domain that has that
      many fewer of them than another. */
  lemma {:induction false} SpreadExactly(history: seq<Fleet>, domains: set<string>, k: int)
    requires history != [] && Spread(history[0].current, domains, k) && k >= 1
    requires forall i | 0 <= i < |history| - 1 :: Scales(history[i], history[i + 1], domains)
    ensures (forall i | 0 <= i < |history| :: Spread(history[i].current, domains, k)) <==>
              forall i | 0 <= i < |history| - 1 :: !StepWidens(history[i], history[i + 1], domains, k)
  {
    hide Spread, StepWidens, Scales;
    var n := |history| - 1;
    if n > 0 {
      var front := history[..n];
      assert forall i | 0 <= i < n :: front[i] == history[i];
      assert forall i | 0 <= i < |front| - 1 :: Scales(front[i], front[i + 1], domains);
      SpreadExactly(front, domains, k);
      var i := n - 1;
      assert Scales(history[i], history[i + 1], domains);
      if Spread(history[i].current, domains, k) {
        StepExactly(history[i], history[i + 1], domains, k);
      }
      SplitLast(history, domains, k);
    }
  }

  /** Both sides of the equivalence, split at the last step. */
  lemma SplitLast(history: seq<Fleet>, domains: set<string>, k: int)
    requires |history| > 1
    ensures var n := |history| - 1;
            var front := history[..n];
            && ((forall i | 0 <= i < |history| :: Spread(history[i].current, domains, k)) <==>
                  (forall i | 0 <= i < |front| :: Spread(front[i].current, domains, k))
                  && Spread(history[n].current, domains, k))
            && ((forall i | 0 <= i < |history| - 1 :: !StepWidens(history[i], history[i + 1], domains, k)) <==>
                  (forall i | 0 <= i < |front| - 1 :: !StepWidens(front[i], front[i + 1], domains, k))
                  && !StepWidens(history[n - 1], history[n], domains, k))
  {
    hide Spread, StepWidens;
    var n := |history| - 1;
    var front := history[..n];
    assert forall i | 0 <= i < n :: front[i] == history[i];
    if (forall i | 0 <= i < |front| - 1 :: !StepWidens(front[i], front[i + 1], domains, k))
       && !StepWidens(history[n - 1], history[n], domains, k) {
      forall i | 0 <= i < |history| - 1
        ensures !StepWidens(history[i], history[i + 1], domains, k)
      {
        if i < n - 1 {
          assert !StepWidens(front[i], front[i + 1], domains, k);
        } else {
          assert i == n - 1;
        }
      }
    }
    if forall i | 0 <= i < |history| - 1 :: !StepWidens(history[i], history[i + 1], domains, k) {
      forall i | 0 <= i < |front| - 1
        ensures !StepWidens(front[i], front[i + 1], domains, k)
      {
        assert !StepWidens(history[i], history[i + 1], domains, k);
      }
      var j := n - 1;
      assert !StepWidens(history[j], history[j + 1], domains, k);
    }
  }

  /** A scale-down that knows all outdated machines while none is marked for deletion. */
  ghost predicate ScalesPlainly(f: Fleet, g: Fleet, domains: set<string>)
  {
    || (exists m :: ScalesUp(f, g, domains, m))
    || (exists m :: ScalesDown(f, g, domains, f.all - f.current, {}, m))
  }

  lemma PlainNeverWidens(f: Fleet, g: Fleet, domains: set<string>, k: int)
    requires k >= 1 && f.current <= f.all && ScalesPlainly(f, g, domains)
    ensures Scales(f, g, domains) && !StepWidens(f, g, domains, k) && g.current <= g.all
  {
    if m :| ScalesUp(f, g, domains, m) {
      assert f.all - g.all == {};
    } else {
      var m :| ScalesDown(f, g, domains, f.all - f.current, {}, m);
      assert f.all - g.all <= {m};
      if f.all - f.current == {} && Known(m, domains) {
        assert forall x | x in f.all :: x in f.current || x in f.all - f.current;
        assert f.all == f.current;
        forall e | e in domains
          ensures Count(f.current, e) <= Count(f.current, m.domain.value)
        {
          assert InDomain(f.all, e) == {} ==> Count(f.all, e) == 0;
        }
      }
    }
  }

  /** So over every run in which no machine is marked for deletion, with scale-ups, removals of outdated machines and
      scale-downs mixed, the spread of up-to-date machines never exceeds the larger of one and what it was. */
  lemma {:induction false} RunKeepsSpread(history: seq<Fleet>, domains: set<string>, k: int)
    requires history != [] && Spread(history[0].current, domains, k) && k >= 1 && history[0].current <= history[0].all
    requires forall i | 0 <= i < |history| - 1 :: ScalesPlainly(history[i], history[i + 1], domains)
    ensures Spread(history[|history| - 1].current, domains, k)
    ensures history[|history| - 1].current <= history[|history| - 1].all
  {
    hide Spread, ScalesPlainly, Scales, StepWidens;
    var n := |history| - 1;
    if n > 0 {
      var front := history[..n];
      assert forall i | 0 <= i < n :: front[i] == history[i];
      assert forall i | 0 <= i < |front| - 1 :: ScalesPlainly(front[i], front[i + 1], domains);
      RunKeepsSpread(front, domains, k);
      var i := n - 1;
      assert ScalesPlainly(history[i], history[i + 1], domains);
      PlainNeverWidens(history[i], history[i + 1], domains, k);
      StepExactly(history[i], history[i + 1], domains, k);
    }
  }

  /** A machine marked for deletion that widens the spread from one to two. */
  lemma MarkedMachineWidens()
    ensures var a, b, c := Machine("a", 0, Some("x")), Machine("b", 0, Some("y")), Machine("c", 0, Some("y"));
            var f, g := Fleet({a, b, c}, {a, b, c}), Fleet({b, c}, {b, c});
            && ScalesDown(f, g, {"x", "y"}, {}, {a}, a)
            && Spread(f.current, {"x", "y"}, 1) && !Spread(g.current, {"x", "y"}, 1)
  {
    var a, b, c := Machine("a", 0, Some("x")), Machine("b", 0, Some("y")), Machine("c", 0, Some("y"));
    var f, g, domains := Fleet({a, b, c}, {a, b, c}), Fleet({b, c}, {b, c}), {"x", "y"};
    assert "x" != "y" && "a" != "b" && "b" != "c" && "a" != "c";
    assert {a} * f.all == {a} && {a} * {} == {};
    assert InDomain({a}, "x") == {a} && InDomain({a}, "y") == {};
    assert f.all - {a} == g.all;
    assert InDomain(f.current, "x") == {a} && InDomain(f.current, "y") == {b, c};
    assert Count(f.current, "x") == 1 && Count(f.current, "y") == 2;
    assert Widens(f.current, a, domains, 1);
    RemoveExactly(f.current, a, domains, 1);
  }
}
