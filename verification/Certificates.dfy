/** Names of the secrets that belong to a cluster. */
module SecretNames {
  import opened Options

  const KUBECONFIG := "kubeconfig"
  const CLUSTER_CA := "ca"
  const ETCD_CA := "etcd"
  const SERVICE_ACCOUNT := "sa"
  const FRONT_PROXY_CA := "proxy"
  const APISERVER_ETCD_CLIENT := "apiserver-etcd-client"

  const ALL_PURPOSES := [KUBECONFIG, CLUSTER_CA, ETCD_CA, SERVICE_ACCOUNT, FRONT_PROXY_CA, APISERVER_ETCD_CLIENT]

  function Name(cluster: string, purpose: string): string
  {
    cluster + "-" + purpose
  }

  /** Position of the last dash, or -1. */
  function LastDash(s: string): (i: int)
    ensures -1 <= i < |s|
    ensures i >= 0 ==> s[i] == '-'
    ensures forall k | i < k < |s| :: s[k] != '-'
  {
    if s == [] then -1 else if s[|s| - 1] == '-' then |s| - 1 else LastDash(s[..|s| - 1])
  }

  datatype Parsed = Parsed(cluster: string, purpose: string)

  function ParseSecretName(name: string): Option<Parsed>
  {
    var i := LastDash(name);
    if i == -1 then None
    else if name[i + 1..] in ALL_PURPOSES then Some(Parsed(name[..i], name[i + 1..]))
    else None
  }

  lemma LastDashIs(s: string, i: nat)
    requires i < |s| && s[i] == '-' && '-' !in s[i + 1..]
    ensures LastDash(s) == i
  {
    assert forall k | i < k < |s| :: s[k] == s[i + 1..][k - i - 1] && s[k] in s[i + 1..];
  }

  lemma SplitAtLastDash(a: string, b: string)
    requires '-' !in b
    ensures LastDash(a + "-" + b) == |a|
    ensures (a + "-" + b)[..|a|] == a && (a + "-" + b)[|a| + 1..] == b
  {
    hide LastDash;
    var s := a + "-" + b;
    assert s[..|a|] == a;
    assert s[|a| + 1..] == b;
    LastDashIs(s, |a|);
  }

  lemma ClientName(cluster: string)
    ensures Name(cluster, APISERVER_ETCD_CLIENT) == (cluster + "-apiserver-etcd") + "-" + "client"
  {
    assert "-" + APISERVER_ETCD_CLIENT == "-apiserver-etcd" + "-" + "client";
    assert Name(cluster, APISERVER_ETCD_CLIENT) == cluster + ("-" + APISERVER_ETCD_CLIENT);
  }

  /** The part after the last dash: the purpose itself, or "client". */
  lemma Suffix(cluster: string, purpose: string)
    requires purpose in ALL_PURPOSES
    ensures var n := Name(cluster, purpose);
            LastDash(n) >= 0 && n[LastDash(n) + 1..] == (if purpose == APISERVER_ETCD_CLIENT then "client" else purpose)
    ensures purpose != APISERVER_ETCD_CLIENT ==> Name(cluster, purpose)[..LastDash(Name(cluster, purpose))] == cluster
  {
    if purpose == APISERVER_ETCD_CLIENT {
      ClientName(cluster);
      SplitAtLastDash(cluster + "-apiserver-etcd", "client");
    } else {
      SplitAtLastDash(cluster, purpose);
    }
  }

  lemma SamePurpose(p1: string, p2: string)
    requires p1 in ALL_PURPOSES && p2 in ALL_PURPOSES
    requires (if p1 == APISERVER_ETCD_CLIENT then "client" else p1) ==
             (if p2 == APISERVER_ETCD_CLIENT then "client" else p2)
    ensures p1 == p2
  {
    assert "client" !in ALL_PURPOSES;
  }

  /** Different clusters or purposes never share a secret. */
  lemma NamesInjective(c1: string, p1: string, c2: string, p2: string)
    requires p1 in ALL_PURPOSES && p2 in ALL_PURPOSES
    requires Name(c1, p1) == Name(c2, p2)
    ensures c1 == c2 && p1 == p2
  {
    hide LastDash, Name;
    Suffix(c1, p1);
    Suffix(c2, p2);
    SamePurpose(p1, p2);
    Cancel(c1, c2, p1);
  }

  lemma Cancel(a: string, b: string, purpose: string)
    requires Name(a, purpose) == Name(b, purpose)
    ensures a == b
  {
    assert |Name(a, purpose)| == |a| + 1 + |purpose| && |Name(b, purpose)| == |b| + 1 + |purpose|;
    assert a == Name(a, purpose)[..|a|] && b == Name(b, purpose)[..|b|];
  }

  /** Parsing inverts naming for every cluster exactly for the purposes without a dash; for the API server's etcd client
      secret, whose purpose has dashes, parsing always fails. */
  lemma ParseInvertsName(cluster: string, purpose: string)
    requires purpose in ALL_PURPOSES
    ensures ParseSecretName(Name(cluster, purpose)) == (if '-' in purpose then None else Some(Parsed(cluster, purpose)))
  {
    hide LastDash, Name;
    Suffix(cluster, purpose);
    OnlyClientHasDash(purpose);
    assert "client" !in ALL_PURPOSES;
  }

  lemma OnlyClientHasDash(purpose: string)
    requires purpose in ALL_PURPOSES
    ensures '-' in purpose <==> purpose == APISERVER_ETCD_CLIENT
  {
    assert APISERVER_ETCD_CLIENT[9] == '-';
  }

  /** Whatever parses is the name of what it parses to. */
  lemma NameInvertsParse(name: string)
    ensures ParseSecretName(name).Some? ==>
              var p := ParseSecretName(name).value; Name(p.cluster, p.purpose) == name && p.purpose in ALL_PURPOSES
  {
    var i := LastDash(name);
    if i >= 0 {
      assert name == name[..i] + [name[i]] + name[i + 1..];
    }
  }
}

/**
 Lookup-or-generate of cluster certificates over create-only secrets. Any number of calls, for any clusters, interleave
 request by request and may stop anywhere.
 */
module Certificates {
  import opened Options
  import opened SecretNames

  datatype KeyPair = KeyPair(cert: string, key: string)

  /** The two data entries of a certificate secret. */
  datatype Secret = Secret(crt: Option<string>, key: Option<string>)

  datatype Certificate = Certificate(purpose: string, external: bool, keyPair: Option<KeyPair>, generated: bool)

  function SecretToKeyPair(s: Secret): Option<KeyPair>
  {
    if s.crt.None? then None
    else Some(KeyPair(s.crt.value, if s.key.Some? then s.key.value else ""))
  }

  function AsSecret(c: Certificate): Secret
    requires c.keyPair.Some?
  {
    Secret(Some(c.keyPair.value.cert), Some(c.keyPair.value.key))
  }

  datatype Phase = Looking(i: nat) | Saving(i: nat) | Succeeded | Failed

  datatype Call = Call(cluster: string, certs: seq<Certificate>, phase: Phase)

  datatype World = World(secrets: map<string, Secret>, calls: map<nat, Call>)

  /** `pairs`: the key pairs the generator hands out, one per certificate. */
  datatype Action =
    | Begin(id: nat, cluster: string, certs: seq<Certificate>)
    | Request(id: nat, fault: bool)
    | Generate(id: nat, pairs: seq<KeyPair>)
    | Supply(name: string, secret: Secret)

  /** A list as the constructors build it: nothing looked up yet, known purposes, the etcd client pair user-supplied. */
  ghost predicate FreshList(certs: seq<Certificate>)
  {
    forall c | c in certs ::
      c.keyPair.None? && !c.generated && c.purpose in ALL_PURPOSES
        && (c.purpose == APISERVER_ETCD_CLIENT ==> c.external)
  }

  /** The list for an initial control plane, with etcd stacked or external. */
  function NewCertificatesForInitialControlPlane(externalEtcd: bool): (certs: seq<Certificate>)
    ensures FreshList(certs)
    ensures forall i, j | 0 <= i < j < |certs| :: certs[i].purpose != certs[j].purpose
  {
    [Certificate(CLUSTER_CA, false, None, false), Certificate(SERVICE_ACCOUNT, false, None, false),
     Certificate(FRONT_PROXY_CA, false, None, false)]
    + (if externalEtcd then [Certificate(APISERVER_ETCD_CLIENT, true, None, false)] else [])
    + [Certificate(ETCD_CA, externalEtcd, None, false)]
  }

  function Put(w: World, id: nat, c: Call): World
  {
    w.(calls := w.calls[id := c])
  }

  /** The get for certificate `i`. */
  function DoLookup(w: World, id: nat, c: Call, i: nat, fault: bool): World
    requires i < |c.certs|
  {
    var cert := c.certs[i];
    var name := Name(c.cluster, cert.purpose);
    if fault then Put(w, id, c.(phase := Failed))
    else if name !in w.secrets then
      Put(w, id, c.(phase := if cert.external then Failed else Looking(i + 1)))
    else
      match SecretToKeyPair(w.secrets[name])
      case None => Put(w, id, c.(phase := Failed))
      case Some(kp) => Put(w, id, c.(certs := c.certs[i := cert.(keyPair := Some(kp))], phase := Looking(i + 1)))
  }

  function Generated(cert: Certificate, kp: KeyPair): Certificate
  {
    if cert.keyPair.None? && cert.purpose != APISERVER_ETCD_CLIENT then cert.(keyPair := Some(kp), generated := true)
    else cert
  }

  function GenerateAll(certs: seq<Certificate>, pairs: seq<KeyPair>): (r: seq<Certificate>)
    requires |pairs| == |certs|
    ensures |r| == |certs| && forall j | 0 <= j < |r| :: r[j] == Generated(certs[j], pairs[j])
  {
    seq(|certs|, j requires 0 <= j < |certs| => Generated(certs[j], pairs[j]))
  }

  /** The create for certificate `i`; an existing secret is an error. */
  function DoSave(w: World, id: nat, c: Call, i: nat, fault: bool): World
    requires i < |c.certs|
  {
    var cert := c.certs[i];
    var name := Name(c.cluster, cert.purpose);
    if !cert.generated || cert.keyPair.None? then Put(w, id, c.(phase := Saving(i + 1)))
    else if fault || name in w.secrets then Put(w, id, c.(phase := Failed))
    else Put(w.(secrets := w.secrets[name := AsSecret(cert)]), id, c.(phase := Saving(i + 1)))
  }

  function Step(w: World, a: Action): World
  {
    match a
    case Begin(id, cluster, certs) =>
      if id in w.calls then w else Put(w, id, Call(cluster, certs, Looking(0)))
    case Request(id, fault) =>
      if id !in w.calls then w
      else
        var c := w.calls[id];
        (match c.phase
         case Looking(i) =>
           if i < |c.certs| then DoLookup(w, id, c, i, fault)
           else if fault then Put(w, id, c.(phase := Failed))
           else w
         case Saving(i) =>
           if i < |c.certs| then DoSave(w, id, c, i, fault) else Put(w, id, c.(phase := Succeeded))
         case _ => w)
    case Generate(id, pairs) =>
      if id in w.calls && w.calls[id].phase == Looking(|w.calls[id].certs|) && |pairs| == |w.calls[id].certs| then
        Put(w, id, w.calls[id].(certs := GenerateAll(w.calls[id].certs, pairs), phase := Saving(0)))
      else w
    case Supply(name, secret) => if name in w.secrets then w else w.(secrets := w.secrets[name := secret])
  }

  function Run(w: World, actions: seq<Action>): World
  {
    if actions == [] then w else Step(Run(w, actions[..|actions| - 1]), actions[|actions| - 1])
  }

  ghost predicate FreshLists(actions: seq<Action>)
  {
    forall k | 0 <= k < |actions| && actions[k].Begin? :: FreshList(actions[k].certs)
  }

  // ---- invariants ----

  /** The secret of this certificate is stored and holds exactly its key pair. */
  ghost predicate Stored(secrets: map<string, Secret>, cluster: string, cert: Certificate)
  {
    var name := Name(cluster, cert.purpose);
    name in secrets && cert.keyPair.Some? && SecretToKeyPair(secrets[name]) == cert.keyPair
  }

  ghost predicate GoodCert(secrets: map<string, Secret>, cluster: string, cert: Certificate, phase: Phase, j: nat)
  {
    match phase
    case Looking(i) =>
      && !cert.generated
      && (cert.keyPair.Some? ==> Stored(secrets, cluster, cert))
      && (j < i && cert.purpose == APISERVER_ETCD_CLIENT ==> cert.keyPair.Some?)
    case Saving(i) => cert.keyPair.Some? && (!cert.generated || j < i ==> Stored(secrets, cluster, cert))
    case Succeeded => Stored(secrets, cluster, cert)
    case Failed => true
  }

  ghost predicate GoodCall(secrets: map<string, Secret>, c: Call)
  {
    && (c.phase.Looking? ==> c.phase.i <= |c.certs|)
    && (c.phase.Saving? ==> c.phase.i <= |c.certs|)
    && (forall j | 0 <= j < |c.certs| :: c.certs[j].purpose in ALL_PURPOSES)
    && (forall j | 0 <= j < |c.certs| :: c.certs[j].purpose == APISERVER_ETCD_CLIENT ==> c.certs[j].external)
    && (forall j | 0 <= j < |c.certs| :: GoodCert(secrets, c.cluster, c.certs[j], c.phase, j))
  }

  ghost predicate Inv(w: World)
  {
    forall id | id in w.calls :: GoodCall(w.secrets, w.calls[id])
  }

  /** No stored secret is ever changed or lost. */
  ghost predicate Grows(a: map<string, Secret>, b: map<string, Secret>)
  {
    forall n | n in a :: n in b && b[n] == a[n]
  }

  lemma GrowsKeeps(a: map<string, Secret>, b: map<string, Secret>, c: Call)
    requires Grows(a, b) && GoodCall(a, c)
    ensures GoodCall(b, c)
  {
    forall j | 0 <= j < |c.certs|
      ensures GoodCert(b, c.cluster, c.certs[j], c.phase, j)
    {
      assert GoodCert(a, c.cluster, c.certs[j], c.phase, j);
      assert Stored(a, c.cluster, c.certs[j]) ==> Stored(b, c.cluster, c.certs[j]);
    }
  }

  lemma LookupKeeps(w: World, id: nat, i: nat, fault: bool)
    requires Inv(w) && id in w.calls && w.calls[id].phase == Looking(i) && i < |w.calls[id].certs|
    ensures GoodCall(w.secrets, DoLookup(w, id, w.calls[id], i, fault).calls[id])
  {
    var c, d := w.calls[id], DoLookup(w, id, w.calls[id], i, fault).calls[id];
    forall j | 0 <= j < |d.certs|
      ensures GoodCert(w.secrets, d.cluster, d.certs[j], d.phase, j)
      ensures d.certs[j].purpose == c.certs[j].purpose && d.certs[j].external == c.certs[j].external
    {
      assert GoodCert(w.secrets, c.cluster, c.certs[j], c.phase, j);
    }
  }

  lemma SaveKeeps(w: World, id: nat, i: nat, fault: bool)
    requires Inv(w) && id in w.calls && w.calls[id].phase == Saving(i) && i < |w.calls[id].certs|
    ensures var v := DoSave(w, id, w.calls[id], i, fault);
            Grows(w.secrets, v.secrets) && GoodCall(v.secrets, v.calls[id])
  {
    var c, v := w.calls[id], DoSave(w, id, w.calls[id], i, fault);
    var d := v.calls[id];
    assert Grows(w.secrets, v.secrets);
    GrowsKeeps(w.secrets, v.secrets, c);
    forall j | 0 <= j < |d.certs|
      ensures GoodCert(v.secrets, d.cluster, d.certs[j], d.phase, j)
    {
      assert GoodCert(v.secrets, c.cluster, c.certs[j], c.phase, j);
    }
  }

  lemma GenerateKeeps(secrets: map<string, Secret>, c: Call, pairs: seq<KeyPair>)
    requires GoodCall(secrets, c) && c.phase == Looking(|c.certs|) && |pairs| == |c.certs|
    ensures GoodCall(secrets, c.(certs := GenerateAll(c.certs, pairs), phase := Saving(0)))
  {
    var d := c.(certs := GenerateAll(c.certs, pairs), phase := Saving(0));
    forall j | 0 <= j < |d.certs|
      ensures GoodCert(secrets, d.cluster, d.certs[j], d.phase, j)
    {
      assert GoodCert(secrets, c.cluster, c.certs[j], c.phase, j);
    }
  }

  lemma StepKeeps(w: World, a: Action)
    requires Inv(w) && (a.Begin? ==> FreshList(a.certs))
    ensures Inv(Step(w, a)) && Grows(w.secrets, Step(w, a).secrets)
  {
    hide GoodCall;
    var v := Step(w, a);
    assert Grows(w.secrets, v.secrets);
    if a.Supply? {
      OthersKept(w, v);
    } else if a.Begin? {
      if a.id !in w.calls {
        BeginGood(w.secrets, a.cluster, a.certs);
      }
    } else if a.id in w.calls {
      var c := w.calls[a.id];
      OthersKept(w, v);
      FailedGood(v.secrets, c);
      if a.Request? && c.phase.Looking? && c.phase.i < |c.certs| {
        LookupKeeps(w, a.id, c.phase.i, a.fault);
      } else if a.Request? && c.phase.Saving? {
        if c.phase.i < |c.certs| {
          SaveKeeps(w, a.id, c.phase.i, a.fault);
        } else {
          DoneGood(w.secrets, c);
        }
      } else if a.Generate? && c.phase == Looking(|c.certs|) && |a.pairs| == |c.certs| {
        GenerateKeeps(w.secrets, c, a.pairs);
      }
    }
  }

  lemma OthersKept(w: World, v: World)
    requires Inv(w) && Grows(w.secrets, v.secrets)
    ensures forall id | id in w.calls :: GoodCall(v.secrets, w.calls[id])
  {
    forall id | id in w.calls
      ensures GoodCall(v.secrets, w.calls[id])
    {
      GrowsKeeps(w.secrets, v.secrets, w.calls[id]);
    }
  }

  lemma BeginGood(secrets: map<string, Secret>, cluster: string, certs: seq<Certificate>)
    requires FreshList(certs)
    ensures GoodCall(secrets, Call(cluster, certs, Looking(0)))
  {
    forall j | 0 <= j < |certs|
      ensures certs[j] in certs
    {
    }
  }

  lemma FailedGood(secrets: map<string, Secret>, c: Call)
    requires GoodCall(secrets, c)
    ensures GoodCall(secrets, c.(phase := Failed))
  {
  }

  lemma DoneGood(secrets: map<string, Secret>, c: Call)
    requires GoodCall(secrets, c) && c.phase.Saving? && c.phase.i >= |c.certs|
    ensures GoodCall(secrets, c.(phase := Succeeded))
  {
    forall j | 0 <= j < |c.certs|
      ensures GoodCert(secrets, c.cluster, c.certs[j], Succeeded, j)
    {
      assert GoodCert(secrets, c.cluster, c.certs[j], c.phase, j);
    }
  }

  /** In every interleaving a stored secret never changes, and a call that succeeds holds, for every certificate of its
      list, exactly the stored key pair. */
  lemma {:induction false} SucceededHoldStored(w: World, actions: seq<Action>)
    requires w.calls == map[] && FreshLists(actions)
    ensures Grows(w.secrets, Run(w, actions).secrets)
    ensures Inv(Run(w, actions))
  {
    if actions != [] {
      var n := |actions| - 1;
      assert forall k | 0 <= k < n :: actions[..n][k] == actions[k];
      SucceededHoldStored(w, actions[..n]);
      StepKeeps(Run(w, actions[..n]), actions[n]);
    }
  }

  /** So any two calls that succeed for one cluster agree on every key pair they both hold. */
  lemma SucceededAgree(w: World, actions: seq<Action>, a: nat, b: nat, i: nat, j: nat)
    requires w.calls == map[] && FreshLists(actions)
    requires var v := Run(w, actions);
             && a in v.calls && b in v.calls && v.calls[a].phase == Succeeded && v.calls[b].phase == Succeeded
             && i < |v.calls[a].certs| && j < |v.calls[b].certs| && v.calls[a].cluster == v.calls[b].cluster
             && v.calls[a].certs[i].purpose == v.calls[b].certs[j].purpose
    ensures var v := Run(w, actions);
            v.calls[a].certs[i].keyPair.Some? && v.calls[a].certs[i].keyPair == v.calls[b].certs[j].keyPair
  {
    SucceededHoldStored(w, actions);
    var v := Run(w, actions);
    assert GoodCert(v.secrets, v.calls[a].cluster, v.calls[a].certs[i], Succeeded, i);
    assert GoodCert(v.secrets, v.calls[b].cluster, v.calls[b].certs[j], Succeeded, j);
  }

  /** Calls for different clusters or purposes never touch each other's secrets. */
  lemma ClustersApart(c1: Call, c2: Call, i: nat, j: nat)
    requires i < |c1.certs| && j < |c2.certs|
    requires c1.certs[i].purpose in ALL_PURPOSES && c2.certs[j].purpose in ALL_PURPOSES
    requires c1.cluster != c2.cluster || c1.certs[i].purpose != c2.certs[j].purpose
    ensures Name(c1.cluster, c1.certs[i].purpose) != Name(c2.cluster, c2.certs[j].purpose)
  {
    if Name(c1.cluster, c1.certs[i].purpose) == Name(c2.cluster, c2.certs[j].purpose) {
      NamesInjective(c1.cluster, c1.certs[i].purpose, c2.cluster, c2.certs[j].purpose);
    }
  }
}
