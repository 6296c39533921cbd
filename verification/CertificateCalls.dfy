/**
 One lookup-or-generate call by itself: its loops are runs of the interleaved requests, and exactly when it succeeds.
 */
module CertificateCalls {
  import opened Options
  import opened SecretNames
  import opened Certificates

  lemma RunOneMore(w: World, actions: seq<Action>, a: Action)
    ensures Run(w, actions + [a]) == Step(Run(w, actions), a)
  {
    assert (actions + [a])[..|actions|] == actions;
  }

  ghost predicate OnlyRequests(actions: seq<Action>)
  {
    forall a | a in actions :: a.Request?
  }

  /** The stored pair when there is a secret; otherwise as before, which an external certificate does not survive. */
  ghost predicate LookedUp(secrets: map<string, Secret>, cluster: string, before: Certificate, after: Certificate)
  {
    if Name(cluster, before.purpose) in secrets then
      Stored(secrets, cluster, after) && after == before.(keyPair := after.keyPair)
    else after == before && !before.external
  }

  /** The get for this certificate is not refused: its secret holds a pair, or there is none and none is required. */
  predicate Usable(secrets: map<string, Secret>, cluster: string, cert: Certificate)
  {
    var name := Name(cluster, cert.purpose);
    if name in secrets then secrets[name].crt.Some? else !cert.external
  }

  lemma LookupStep(w: World, id: nat, cluster: string, list: seq<Certificate>, i: nat, fault: bool,
                   actions: seq<Action>)
    requires i < |list| && Run(w, actions) == Put(w, id, Call(cluster, list, Looking(i)))
    ensures var name := Name(cluster, list[i].purpose);
            Run(w, actions + [Request(id, fault)]) ==
            if fault || !Usable(w.secrets, cluster, list[i]) then Put(w, id, Call(cluster, list, Failed))
            else if name in w.secrets then
              var found := list[i].(keyPair := SecretToKeyPair(w.secrets[name]));
              Put(w, id, Call(cluster, list[i := found], Looking(i + 1)))
            else Put(w, id, Call(cluster, list, Looking(i + 1)))
  {
    hide Name;
    RunOneMore(w, actions, Request(id, fault));
  }

  /** Succeeds exactly when every get does. */
  method Lookup(w: World, id: nat, cluster: string, certs: seq<Certificate>, faults: nat -> bool)
    returns (ok: bool, list: seq<Certificate>, ghost actions: seq<Action>)
    requires id in w.calls && w.calls[id] == Call(cluster, certs, Looking(0))
    ensures |list| == |certs| && OnlyRequests(actions)
    ensures ok <==> forall j | 0 <= j < |certs| :: !faults(j) && Usable(w.secrets, cluster, certs[j])
    ensures ok ==> forall j | 0 <= j < |certs| :: LookedUp(w.secrets, cluster, certs[j], list[j])
    ensures Run(w, actions) == Put(w, id, Call(cluster, list, if ok then Looking(|certs|) else Failed))
  {
    ok, list, actions := true, certs, [];
    hide Name, Step;
    for i := 0 to |certs|
      invariant ok && |list| == |certs| && OnlyRequests(actions)
      invariant forall j | i <= j < |certs| :: list[j] == certs[j]
      invariant forall j | 0 <= j < i :: LookedUp(w.secrets, cluster, certs[j], list[j])
      invariant forall j | 0 <= j < i :: !faults(j) && Usable(w.secrets, cluster, certs[j])
      invariant Run(w, actions) == Put(w, id, Call(cluster, list, Looking(i)))
    {
      var name := Name(cluster, certs[i].purpose);
      LookupStep(w, id, cluster, list, i, faults(i), actions);
      actions := actions + [Request(id, faults(i))];
      hide Run, Put;
      if faults(i) || (name !in w.secrets && certs[i].external) {
        ok := false;
        return;
      }
      if name in w.secrets {
        var kp := SecretToKeyPair(w.secrets[name]);
        if kp.None? {
          ok := false;
          return;
        }
        list := list[i := certs[i].(keyPair := kp)];
      }
    }
  }

  method GenerateMissing(certs: seq<Certificate>, pairs: seq<KeyPair>) returns (list: seq<Certificate>)
    requires |pairs| == |certs|
    ensures list == GenerateAll(certs, pairs)
  {
    list := certs;
    for i := 0 to |certs|
      invariant |list| == |certs|
      invariant forall j | 0 <= j < i :: list[j] == Generated(certs[j], pairs[j])
      invariant forall j | i <= j < |certs| :: list[j] == certs[j]
    {
      if certs[i].keyPair.None? && certs[i].purpose != APISERVER_ETCD_CLIENT {
        list := list[i := certs[i].(keyPair := Some(pairs[i]), generated := true)];
      }
    }
  }

  /** The pairs generated for the first `i` certificates are stored. */
  ghost predicate Saved(secrets: map<string, Secret>, cluster: string, certs: seq<Certificate>, i: nat)
    requires i <= |certs|
  {
    forall j | 0 <= j < i && certs[j].generated && certs[j].keyPair.Some? :: Stored(secrets, cluster, certs[j])
  }

  lemma SavedMore(secrets: map<string, Secret>, cluster: string, certs: seq<Certificate>, i: nat)
    requires i < |certs| && Saved(secrets, cluster, certs, i)
    ensures !certs[i].generated || certs[i].keyPair.None? ==> Saved(secrets, cluster, certs, i + 1)
    ensures certs[i].keyPair.Some? && Name(cluster, certs[i].purpose) !in secrets ==>
              var more := secrets[Name(cluster, certs[i].purpose) := AsSecret(certs[i])];
              Saved(more, cluster, certs, i + 1) && Grows(secrets, more)
  {
    hide Name;
  }

  lemma GrowsTransitive(a: map<string, Secret>, b: map<string, Secret>, c: map<string, Secret>)
    requires Grows(a, b) && Grows(b, c)
    ensures Grows(a, c)
  {
  }

  /** A pair to be saved under this name. */
  predicate ToSave(cluster: string, cert: Certificate, name: string)
  {
    cert.generated && cert.keyPair.Some? && Name(cluster, cert.purpose) == name
  }

  /** The create for certificate `j` is not refused: nothing has its name, neither from before nor by now. */
  ghost predicate Creatable(secrets: map<string, Secret>, cluster: string, certs: seq<Certificate>, j: nat)
    requires j < |certs|
  {
    var name := Name(cluster, certs[j].purpose);
    name !in secrets && forall k | 0 <= k < j :: !ToSave(cluster, certs[k], name)
  }

  /** Every create up to `i` went through. */
  ghost predicate Created(secrets: map<string, Secret>, cluster: string, certs: seq<Certificate>, faults: nat -> bool,
                          i: nat)
    requires i <= |certs|
  {
    forall j | 0 <= j < i && certs[j].generated && certs[j].keyPair.Some? ::
      !faults(j) && Creatable(secrets, cluster, certs, j)
  }

  /** By then there are the secrets from before, and one for each pair saved. */
  ghost predicate Names(before: map<string, Secret>, now: map<string, Secret>, cluster: string,
                        certs: seq<Certificate>, i: nat)
    requires i <= |certs|
  {
    forall n :: n in now <==> n in before || exists k :: 0 <= k < i && ToSave(cluster, certs[k], n)
  }

  lemma NamesMore(before: map<string, Secret>, now: map<string, Secret>, cluster: string, certs: seq<Certificate>,
                  i: nat, s: Secret)
    requires i < |certs| && Names(before, now, cluster, certs, i)
    ensures var name := Name(cluster, certs[i].purpose);
            && (ToSave(cluster, certs[i], name) ==> Names(before, now[name := s], cluster, certs, i + 1))
            && (!ToSave(cluster, certs[i], name) ==> Names(before, now, cluster, certs, i + 1))
            && (Creatable(before, cluster, certs, i) <==> name !in now)
  {
    hide Name;
    var name := Name(cluster, certs[i].purpose);
    forall n
      ensures (exists k :: 0 <= k < i + 1 && ToSave(cluster, certs[k], n)) <==>
                (exists k :: 0 <= k < i && ToSave(cluster, certs[k], n)) || ToSave(cluster, certs[i], n)
    {
      if k :| 0 <= k < i && ToSave(cluster, certs[k], n) {
        assert 0 <= k < i + 1;
      }
    }
  }

  lemma CreatedMore(secrets: map<string, Secret>, cluster: string, certs: seq<Certificate>, faults: nat -> bool,
                    i: nat)
    requires i < |certs| && Created(secrets, cluster, certs, faults, i)
    ensures var create := certs[i].generated && certs[i].keyPair.Some?;
            && (Created(secrets, cluster, certs, faults, i + 1) <==>
                  (create ==> !faults(i) && Creatable(secrets, cluster, certs, i)))
            && (!Created(secrets, cluster, certs, faults, i + 1) ==>
                  !Created(secrets, cluster, certs, faults, |certs|))
  {
    hide Creatable;
  }

  lemma SaveStep(w: World, secrets: map<string, Secret>, id: nat, cluster: string, certs: seq<Certificate>, i: nat,
                 fault: bool, actions: seq<Action>)
    requires i <= |certs|
    requires Run(w, actions) == Put(w.(secrets := secrets), id, Call(cluster, certs, Saving(i)))
    ensures Run(w, actions + [Request(id, fault)]) ==
            if i == |certs| then Put(w.(secrets := secrets), id, Call(cluster, certs, Succeeded))
            else if !certs[i].generated || certs[i].keyPair.None? then
              Put(w.(secrets := secrets), id, Call(cluster, certs, Saving(i + 1)))
            else
              var name := Name(cluster, certs[i].purpose);
              if fault || name in secrets then Put(w.(secrets := secrets), id, Call(cluster, certs, Failed))
              else Put(w.(secrets := secrets[name := AsSecret(certs[i])]), id, Call(cluster, certs, Saving(i + 1)))
  {
    RunOneMore(w, actions, Request(id, fault));
    hide Name, AsSecret, Run;
    var c, v := Call(cluster, certs, Saving(i)), w.(secrets := secrets);
    PutTwice(v, id, c, c.(phase := Succeeded));
    PutTwice(v, id, c, c.(phase := Failed));
    PutTwice(v, id, c, c.(phase := Saving(i + 1)));
    if i < |certs| && certs[i].keyPair.Some? {
      var more := secrets[Name(cluster, certs[i].purpose) := AsSecret(certs[i])];
      assert Put(v, id, c).(secrets := more) == Put(v.(secrets := more), id, c);
      PutTwice(v.(secrets := more), id, c, c.(phase := Saving(i + 1)));
    }
  }

  /** Succeeds exactly when every create does. */
  method SaveGenerated(w: World, id: nat, cluster: string, certs: seq<Certificate>, faults: nat -> bool)
    returns (ok: bool, secrets: map<string, Secret>, ghost actions: seq<Action>)
    requires id in w.calls && w.calls[id] == Call(cluster, certs, Saving(0))
    ensures OnlyRequests(actions) && Grows(w.secrets, secrets)
    ensures ok <==> Created(w.secrets, cluster, certs, faults, |certs|)
    ensures ok ==> Saved(secrets, cluster, certs, |certs|) && Names(w.secrets, secrets, cluster, certs, |certs|)
    ensures Run(w, actions) == Put(w.(secrets := secrets), id, Call(cluster, certs, if ok then Succeeded else Failed))
  {
    ok, secrets, actions := true, w.secrets, [];
    assert Names(w.secrets, secrets, cluster, certs, 0) && Created(w.secrets, cluster, certs, faults, 0);
    assert Saved(secrets, cluster, certs, 0) && Grows(w.secrets, secrets);
    assert Run(w, actions) == Put(w.(secrets := secrets), id, Call(cluster, certs, Saving(0)));
    hide Name, AsSecret, Saved, Grows, Run, Names, Created, Creatable, Put;
    for i := 0 to |certs|
      invariant ok && OnlyRequests(actions) && Grows(w.secrets, secrets) && Saved(secrets, cluster, certs, i)
      invariant Names(w.secrets, secrets, cluster, certs, i) && Created(w.secrets, cluster, certs, faults, i)
      invariant Run(w, actions) == Put(w.(secrets := secrets), id, Call(cluster, certs, Saving(i)))
    {
      SaveStep(w, secrets, id, cluster, certs, i, faults(i), actions);
      actions := actions + [Request(id, faults(i))];
      SavedMore(secrets, cluster, certs, i);
      CreatedMore(w.secrets, cluster, certs, faults, i);
      ghost var s := if certs[i].keyPair.Some? then AsSecret(certs[i]) else Secret(None, None);
      NamesMore(w.secrets, secrets, cluster, certs, i, s);
      if certs[i].generated && certs[i].keyPair.Some? {
        var name := Name(cluster, certs[i].purpose);
        if faults(i) || name in secrets {
          ok := false;
          return;
        }
        GrowsTransitive(w.secrets, secrets, secrets[name := AsSecret(certs[i])]);
        secrets := secrets[name := AsSecret(certs[i])];
      }
    }
    SaveStep(w, secrets, id, cluster, certs, |certs|, false, actions);
    actions := actions + [Request(id, false)];
  }

  // ---- the whole call ----

  lemma {:induction false} RunConcat(w: World, xs: seq<Action>, ys: seq<Action>)
    ensures Run(w, xs + ys) == Run(Run(w, xs), ys)
  {
    if ys == [] {
      assert xs + ys == xs;
    } else {
      var n := |ys| - 1;
      assert (xs + ys)[..|xs + ys| - 1] == xs + ys[..n];
      RunConcat(w, xs, ys[..n]);
    }
  }

  lemma RunSingle(w: World, a: Action)
    ensures Run(w, [a]) == Step(w, a)
  {
    RunOneMore(w, [], a);
    assert [] + [a] == [a];
  }

  ghost predicate DistinctPurposes(certs: seq<Certificate>)
  {
    forall i, j | 0 <= i < j < |certs| :: certs[i].purpose != certs[j].purpose
  }

  /** The pair a certificate ends up with: the stored one, or the one generated for it. */
  ghost predicate Filled(secrets: map<string, Secret>, cluster: string, before: Certificate, pair: KeyPair,
                         after: Certificate)
  {
    var name := Name(cluster, before.purpose);
    if name in secrets then after == before.(keyPair := SecretToKeyPair(secrets[name]))
    else after == before.(keyPair := Some(pair), generated := true)
  }

  lemma FilledIn(secrets: map<string, Secret>, cluster: string, before: Certificate, pair: KeyPair, found: Certificate)
    requires before.keyPair.None? && (before.purpose == APISERVER_ETCD_CLIENT ==> before.external)
    requires LookedUp(secrets, cluster, before, found)
    ensures Filled(secrets, cluster, before, pair, Generated(found, pair))
  {
  }

  /** One call with nothing in between. On a list as the constructors build it, it succeeds exactly when no request
      fails and every secret it needs is there and well formed; then every certificate is stored, the ones that were
      there with the pair they had. */
  method LookupOrGenerate(w: World, id: nat, cluster: string, certs: seq<Certificate>, pairs: seq<KeyPair>,
                          getFaults: nat -> bool, createFaults: nat -> bool)
    returns (ok: bool, list: seq<Certificate>, secrets: map<string, Secret>, ghost actions: seq<Action>)
    requires id !in w.calls && |pairs| == |certs| && FreshList(certs) && DistinctPurposes(certs)
    ensures ok <==> forall j | 0 <= j < |certs| ::
                && !getFaults(j) && Usable(w.secrets, cluster, certs[j])
                && (Name(cluster, certs[j].purpose) !in w.secrets ==> !createFaults(j))
    ensures ok ==> |list| == |certs| && forall j | 0 <= j < |certs| ::
                Filled(w.secrets, cluster, certs[j], pairs[j], list[j]) && Stored(secrets, cluster, list[j])
    ensures Run(w, actions) ==
            Put(w.(secrets := secrets), id, Call(cluster, list, if ok then Succeeded else Failed))
  {
    ghost var begin := [Begin(id, cluster, certs)];
    var begun := Put(w, id, Call(cluster, certs, Looking(0)));
    RunSingle(w, begin[0]);
    hide Name, Step, Run, Usable, Filled, Stored, Created, Names, Saved, LookedUp, Generated, Grows, DistinctPurposes,
      SecretToKeyPair, FreshList, OnlyRequests;
    ghost var gets;
    ok, list, gets := Lookup(begun, id, cluster, certs, getFaults);
    PutTwice(w, id, begun.calls[id], Call(cluster, list, if ok then Looking(|certs|) else Failed));
    secrets, actions := w.secrets, begin + gets;
    RunConcat(w, begin, gets);
    if !ok {
      return;
    }
    ghost var found := list;
    list := GenerateMissing(list, pairs);
    AllFilled(w.secrets, cluster, certs, pairs, found);
    var saving := Put(w, id, Call(cluster, list, Saving(0)));
    GenerateStep(w, id, Call(cluster, found, Looking(|certs|)), pairs);
    RunConcat(w, actions, [Generate(id, pairs)]);
    actions := actions + [Generate(id, pairs)];
    ghost var creates;
    ok, secrets, creates := SaveGenerated(saving, id, cluster, list, createFaults);
    PutTwice(w.(secrets := secrets), id, saving.calls[id], Call(cluster, list, if ok then Succeeded else Failed));
    RunConcat(w, actions, creates);
    actions := actions + creates;
    hide Put;
    AllCreated(w.secrets, cluster, certs, pairs, list, createFaults);
    AllStored(w.secrets, secrets, cluster, certs, pairs, list);
  }

  lemma PutTwice(w: World, id: nat, c: Call, d: Call)
    ensures Put(Put(w, id, c), id, d) == Put(w, id, d)
  {
  }

  lemma AllFilled(secrets: map<string, Secret>, cluster: string, certs: seq<Certificate>, pairs: seq<KeyPair>,
                  found: seq<Certificate>)
    requires |found| == |certs| == |pairs| && FreshList(certs)
    requires forall j | 0 <= j < |certs| :: LookedUp(secrets, cluster, certs[j], found[j])
    ensures forall j | 0 <= j < |certs| ::
              Filled(secrets, cluster, certs[j], pairs[j], GenerateAll(found, pairs)[j])
  {
    forall j | 0 <= j < |certs|
      ensures Filled(secrets, cluster, certs[j], pairs[j], GenerateAll(found, pairs)[j])
    {
      assert certs[j] in certs;
      FilledIn(secrets, cluster, certs[j], pairs[j], found[j]);
    }
  }

  lemma GenerateStep(w: World, id: nat, c: Call, pairs: seq<KeyPair>)
    requires c.phase == Looking(|c.certs|) && |pairs| == |c.certs|
    ensures Run(Put(w, id, c), [Generate(id, pairs)]) ==
            Put(w, id, Call(c.cluster, GenerateAll(c.certs, pairs), Saving(0)))
  {
    RunSingle(Put(w, id, c), Generate(id, pairs));
  }

  lemma AllCreatable(secrets: map<string, Secret>, cluster: string, certs: seq<Certificate>, pairs: seq<KeyPair>,
                     list: seq<Certificate>)
    requires |list| == |certs| == |pairs| && DistinctPurposes(certs) && FreshList(certs)
    requires forall j | 0 <= j < |certs| :: Filled(secrets, cluster, certs[j], pairs[j], list[j])
    ensures forall j | 0 <= j < |certs| ::
              list[j].generated && list[j].keyPair.Some? <==> Name(cluster, certs[j].purpose) !in secrets
    ensures forall j | 0 <= j < |certs| && list[j].generated :: Creatable(secrets, cluster, list, j)
  {
    hide Name;
    forall j | 0 <= j < |certs|
      ensures certs[j] in certs && list[j].purpose == certs[j].purpose
    {
    }
    forall j, k | 0 <= k < j < |certs|
      ensures Name(cluster, certs[k].purpose) != Name(cluster, certs[j].purpose)
    {
      if Name(cluster, certs[k].purpose) == Name(cluster, certs[j].purpose) {
        NamesInjective(cluster, certs[k].purpose, cluster, certs[j].purpose);
      }
    }
  }

  lemma AllCreated(secrets: map<string, Secret>, cluster: string, certs: seq<Certificate>, pairs: seq<KeyPair>,
                   list: seq<Certificate>, faults: nat -> bool)
    requires |list| == |certs| == |pairs| && DistinctPurposes(certs) && FreshList(certs)
    requires forall j | 0 <= j < |certs| :: Filled(secrets, cluster, certs[j], pairs[j], list[j])
    ensures Created(secrets, cluster, list, faults, |list|) <==>
              forall j | 0 <= j < |certs| :: Name(cluster, certs[j].purpose) !in secrets ==> !faults(j)
  {
    AllCreatable(secrets, cluster, certs, pairs, list);
    hide Name, Creatable, Filled, FreshList, DistinctPurposes;
  }

  lemma AllStored(before: map<string, Secret>, secrets: map<string, Secret>, cluster: string, certs: seq<Certificate>,
                  pairs: seq<KeyPair>, list: seq<Certificate>)
    requires |list| == |certs| == |pairs| && Grows(before, secrets)
    requires forall j | 0 <= j < |certs| :: Usable(before, cluster, certs[j])
    requires forall j | 0 <= j < |certs| :: Filled(before, cluster, certs[j], pairs[j], list[j])
    ensures Saved(secrets, cluster, list, |list|) ==>
              forall j | 0 <= j < |certs| :: Stored(secrets, cluster, list[j])
  {
    hide Name;
  }
}
