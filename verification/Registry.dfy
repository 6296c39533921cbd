/** The registry of runtime extension handlers, and how the answers of several handlers become one. */
module Registry {
  import opened Options

  /** A handler as discovery reported it; `api` is None when its API version does not parse. */
  datatype Handler = Handler(name: string, api: Option<(string, string)>, hook: string)

  datatype Config = Config(name: string, selectorValid: bool, handlers: seq<Handler>)

  datatype Registration = Registration(name: string, config: string, group: string, version: string, hook: string)

  type Items = map<string, Registration>

  function Remove(items: Items, config: string): Items
  {
    map n | n in items && items[n].config != config :: items[n]
  }

  predicate Registrable(c: Config)
  {
    c.selectorValid && forall h | h in c.handlers :: h.api.Some?
  }

  function Register(h: Handler, config: string): Registration
    requires h.api.Some?
  {
    Registration(h.name, config, h.api.value.0, h.api.value.1, h.hook)
  }

  /** The registrations of these handlers by name; the last of several with one name counts. */
  function Registrations(handlers: seq<Handler>, config: string): (r: Items)
    requires forall h | h in handlers :: h.api.Some?
    ensures forall n | n in r :: r[n].name == n && r[n].config == config
  {
    if handlers == [] then map[]
    else
      var k := |handlers| - 1;
      Registrations(handlers[..k], config)[handlers[k].name := Register(handlers[k], config)]
  }

  lemma {:induction false} RegistrationsNames(handlers: seq<Handler>, config: string)
    requires forall h | h in handlers :: h.api.Some?
    ensures forall n :: n in Registrations(handlers, config) <==> exists h :: h in handlers && h.name == n
  {
    if handlers != [] {
      var k := |handlers| - 1;
      assert handlers == handlers[..k] + [handlers[k]];
      RegistrationsNames(handlers[..k], config);
    }
  }

  /** A handler that no later one shares its name with is registered under that name, with its own API version and hook
      and for this config. */
  lemma {:induction false} RegistrationsExactly(handlers: seq<Handler>, config: string, i: nat)
    requires (forall h | h in handlers :: h.api.Some?) && i < |handlers|
    requires forall j | i < j < |handlers| :: handlers[j].name != handlers[i].name
    ensures var h, r := handlers[i], Registrations(handlers, config);
            && h.name in r && r[h.name].name == h.name && r[h.name].config == config
            && (r[h.name].group, r[h.name].version) == h.api.value && r[h.name].hook == h.hook
  {
    var k := |handlers| - 1;
    if i < k {
      RegistrationsExactly(handlers[..k], config, i);
    }
  }

  lemma PutLast(a: Items, b: Items, n: string, r: Registration)
    ensures (a + b)[n := r] == a + b[n := r]
  {
  }

  lemma RegistrationsStep(hs: seq<Handler>, i: nat, config: string)
    requires i < |hs| && forall h | h in hs :: h.api.Some?
    ensures forall h | h in hs[..i + 1] :: h.api.Some?
    ensures forall h | h in hs[..i] :: h.api.Some?
    ensures Registrations(hs[..i + 1], config) == Registrations(hs[..i], config)[hs[i].name := Register(hs[i], config)]
  {
    assert hs[..i + 1][..i] == hs[..i];
  }

  function Add(items: Items, c: Config): (Items, bool)
  {
    if Registrable(c) then (Remove(items, c.name) + Registrations(c.handlers, c.name), true)
    else (Remove(items, c.name), false)
  }

  function AddAll(items: Items, cs: seq<Config>): (Items, bool)
  {
    if cs == [] then (items, true)
    else
      var (before, ok) := AddAll(items, cs[..|cs| - 1]);
      var (after, added) := Add(before, cs[|cs| - 1]);
      (after, ok && added)
  }

  /** All or nothing: one handler that does not parse fails the config. */
  method Collect(c: Config) returns (ok: bool, registrations: seq<Registration>)
    ensures ok <==> forall h | h in c.handlers :: h.api.Some?
    ensures ok ==> |registrations| == |c.handlers|
                   && forall j | 0 <= j < |c.handlers| :: registrations[j] == Register(c.handlers[j], c.name)
  {
    ok, registrations := true, [];
    for i := 0 to |c.handlers|
      invariant ok <==> forall j | 0 <= j < i :: c.handlers[j].api.Some?
      invariant ok ==> |registrations| == i && forall j | 0 <= j < i ::
                registrations[j] == Register(c.handlers[j], c.name)
    {
      if c.handlers[i].api.None? {
        ok := false;
      } else {
        registrations := registrations + [Register(c.handlers[i], c.name)];
      }
    }
  }

  datatype Error = NoArgument | NotReady | AlreadyReady | Invalid | NotFound

  /** Every operation holds the registry's lock, so calls take effect one after another. */
  class ExtensionRegistry {
    var ready: bool
    var items: Items

    /** Entries sit under their own name, and a registry that is not ready is empty. */
    ghost predicate Valid()
      reads this
    {
      (forall n | n in items :: items[n].name == n) && (!ready ==> items == map[])
    }

    constructor ()
      ensures Valid() && !ready
    {
      ready, items := false, map[];
    }

    /** Deletes while iterating over the entries, in any order. */
    method RemoveEntries(config: string)
      requires forall n | n in items :: items[n].name == n
      modifies this`items
      ensures items == Remove(old(items), config)
    {
      var todo := items.Keys;
      while todo != {}
        invariant todo <= old(items).Keys
        invariant items.Keys <= old(items).Keys
        invariant forall n | n in items :: items[n] == old(items)[n]
        invariant forall n | n in old(items) :: n in items <==> n in todo || old(items)[n].config != config
        decreases |todo|
      {
        var n :| n in todo;
        if items[n].config == config {
          items := items - {items[n].name};
        }
        todo := todo - {n};
      }
    }

    method Insert(c: Config, registrations: seq<Registration>)
      requires forall h | h in c.handlers :: h.api.Some?
      requires |registrations| == |c.handlers|
      requires forall j | 0 <= j < |c.handlers| :: registrations[j] == Register(c.handlers[j], c.name)
      modifies this`items
      ensures items == old(items) + Registrations(c.handlers, c.name)
    {
      assert c.handlers[..|c.handlers|] == c.handlers;
      hide Register;
      for i := 0 to |registrations|
        invariant forall h | h in c.handlers[..i] :: h.api.Some?
        invariant items == old(items) + Registrations(c.handlers[..i], c.name)
      {
        hide Registrations;
        RegistrationsStep(c.handlers, i, c.name);
        PutLast(old(items), Registrations(c.handlers[..i], c.name), c.handlers[i].name, registrations[i]);
        items := items[c.handlers[i].name := registrations[i]];
      }
    }

    method AddEntries(c: Config) returns (ok: bool)
      requires forall n | n in items :: items[n].name == n
      modifies this`items
      ensures (items, ok) == Add(old(items), c)
      ensures forall n | n in items :: items[n].name == n
    {
      RemoveEntries(c.name);
      if !c.selectorValid {
        return false;
      }
      var registrations;
      ok, registrations := Collect(c);
      if ok {
        Insert(c, registrations);
      }
    }

    method WarmUp(configs: Option<seq<Config>>) returns (error: Option<Error>)
      requires Valid()
      modifies this
      ensures Valid()
      ensures error.None? <==> configs.Some? && !old(ready) && AddAll(map[], configs.value).1
      ensures ready == (old(ready) || error.None?)
      ensures items == if error.None? then AddAll(map[], configs.value).0 else old(items)
    {
      if configs.None? {
        return Some(NoArgument);
      }
      if ready {
        return Some(AlreadyReady);
      }
      var failed, cs := false, configs.value;
      for i := 0 to |cs|
        invariant !ready && forall n | n in items :: items[n].name == n
        invariant (items, !failed) == AddAll(map[], cs[..i])
      {
        assert cs[..i + 1][..i] == cs[..i];
        var ok := AddEntries(cs[i]);
        failed := failed || !ok;
      }
      assert cs[..|cs|] == cs;
      if failed {
        items := map[];
        return Some(Invalid);
      }
      ready := true;
      return None;
    }

    method AddConfig(config: Option<Config>) returns (error: Option<Error>)
      requires Valid()
      modifies this`items
      ensures Valid()
      ensures error.None? <==> config.Some? && ready && Registrable(config.value)
      ensures items == if config.Some? && ready then Add(old(items), config.value).0 else old(items)
    {
      if config.None? {
        return Some(NoArgument);
      }
      if !ready {
        return Some(NotReady);
      }
      var ok := AddEntries(config.value);
      error := if ok then None else Some(Invalid);
    }

    method RemoveConfig(config: Option<Config>) returns (error: Option<Error>)
      requires Valid()
      modifies this`items
      ensures Valid()
      ensures error.None? <==> config.Some? && ready
      ensures items == if error.None? then Remove(old(items), config.value.name) else old(items)
    {
      if config.None? {
        return Some(NoArgument);
      }
      if !ready {
        return Some(NotReady);
      }
      RemoveEntries(config.value.name);
      return None;
    }

    /** The handlers of a hook, each once, in any order. */
    method List(group: string, hook: string) returns (error: Option<Error>, found: seq<Registration>)
      requires Valid()
      ensures error.None? <==> group != "" && hook != "" && ready
      ensures error.None? ==>
                && (forall r :: r in found <==>
                      r.name in items && items[r.name] == r && r.group == group && r.hook == hook)
                && (forall i, j | 0 <= i < j < |found| :: found[i].name != found[j].name)
    {
      found := [];
      if group == "" || hook == "" {
        return Some(Invalid), [];
      }
      if !ready {
        return Some(NotReady), [];
      }
      error := None;
      var todo := items.Keys;
      while todo != {}
        invariant todo <= items.Keys
        invariant forall r :: r in found <==>
                    r.name in items && r.name !in todo && items[r.name] == r && r.group == group && r.hook == hook
        invariant forall i, j | 0 <= i < j < |found| :: found[i].name != found[j].name
        decreases |todo|
      {
        var n :| n in todo;
        assert forall r | r in found :: r.name != n;
        if items[n].group == group && items[n].hook == hook {
          found := found + [items[n]];
        }
        todo := todo - {n};
      }
    }

    method Get(name: string) returns (r: Option<Registration>)
      ensures r.Some? <==> ready && name in items
      ensures r.Some? ==> r.value == items[name]
    {
      if !ready || name !in items {
        return None;
      }
      return Some(items[name]);
    }
  }

  // ---- histories ----

  /** The entries that belong to a config. */
  function EntriesOf(items: Items, config: string): Items
  {
    map n | n in items && items[n].config == config :: items[n]
  }

  /** A successful add leaves exactly the config's own handlers for it and a failed one none; entries of other configs
      change only where the added handlers take their names. */
  lemma AddMeaning(items: Items, c: Config, other: string)
    requires other != c.name
    ensures var (after, ok) := Add(items, c);
            && ok == Registrable(c)
            && EntriesOf(after, c.name) == (if ok then Registrations(c.handlers, c.name) else map[])
            && EntriesOf(after, other)
               == (if ok then EntriesOf(items, other) - Registrations(c.handlers, c.name).Keys
                   else EntriesOf(items, other))
  {
  }

  /** Discovery names a handler after its config. */
  function NameForHandler(handler: string, config: string): string
  {
    handler + "." + config
  }

  /** The second config's name is the first's behind a prefix that the first's handler name carries instead. */
  ghost predicate Shifted(h1: string, c1: string, h2: string, c2: string)
  {
    exists s: string :: c2 == s + "." + c1 && h1 == h2 + "." + s
  }

  lemma ShiftedNames(h1: string, c1: string, h2: string, c2: string)
    requires NameForHandler(h1, c1) == NameForHandler(h2, c2) && |c1| < |c2|
    ensures Shifted(h1, c1, h2, c2)
  {
    var n := NameForHandler(h1, c1);
    var k := |h2| + 1;
    assert |h1| > |h2|;
    var s := h1[k..];
    assert c2 == n[k..];
    assert n[k..] == s + "." + c1;
    assert h1 == n[..|h1|] && h1[..|h2|] == n[..|h2|] == h2 && n[|h2|] == '.';
    assert h1 == h2 + "." + s;
  }

  /** The name does not identify the handler, since handler and config names may have dots: two of them share a name
      exactly when they are one and the same or one is the other shifted. */
  lemma SharedNamesExactly(h1: string, c1: string, h2: string, c2: string)
    ensures NameForHandler(h1, c1) == NameForHandler(h2, c2) <==>
              (h1 == h2 && c1 == c2) || Shifted(h1, c1, h2, c2) || Shifted(h2, c2, h1, c1)
  {
    if NameForHandler(h1, c1) == NameForHandler(h2, c2) {
      if |c1| < |c2| {
        ShiftedNames(h1, c1, h2, c2);
      } else if |c2| < |c1| {
        ShiftedNames(h2, c2, h1, c1);
      } else {
        assert h1 == NameForHandler(h1, c1)[..|h1|] && h2 == NameForHandler(h2, c2)[..|h2|];
        assert c1 == NameForHandler(h1, c1)[|h1| + 1..] && c2 == NameForHandler(h2, c2)[|h2| + 1..];
      }
    }
    if Shifted(h1, c1, h2, c2) {
      ShiftedShares(h1, c1, h2, c2);
    }
    if Shifted(h2, c2, h1, c1) {
      ShiftedShares(h2, c2, h1, c1);
    }
  }

  lemma ShiftedShares(h1: string, c1: string, h2: string, c2: string)
    requires Shifted(h1, c1, h2, c2)
    ensures NameForHandler(h1, c1) == NameForHandler(h2, c2)
  {
    var s: string :| c2 == s + "." + c1 && h1 == h2 + "." + s;
    assert h2 + "." + s + "." + c1 == h2 + "." + (s + "." + c1);
  }

  /** Each handler name belongs to one config. */
  ghost predicate Owned(c: Config, owner: string -> string)
  {
    forall h | h in c.handlers :: owner(h.name) == c.name
  }

  datatype Op = Put(config: Config) | Drop(name: string)

  function Run(items: Items, ops: seq<Op>): Items
  {
    if ops == [] then items
    else
      var before := Run(items, ops[..|ops| - 1]);
      match ops[|ops| - 1]
      case Put(c) => Add(before, c).0
      case Drop(name) => Remove(before, name)
  }

  function Puts(cs: seq<Config>): (r: seq<Op>)
    ensures |r| == |cs| && forall i | 0 <= i < |cs| :: r[i] == Put(cs[i])
  {
    seq(|cs|, i requires 0 <= i < |cs| => Put(cs[i]))
  }

  /** Warming up with a list of configs comes to adding them one after another, and works exactly when each of them is
      valid. */
  lemma {:induction false} WarmUpIsAdds(items: Items, cs: seq<Config>)
    ensures AddAll(items, cs).0 == Run(items, Puts(cs))
    ensures AddAll(items, cs).1 <==> forall c | c in cs :: c.selectorValid && forall h | h in c.handlers :: h.api.Some?
  {
    hide Registrations, Remove;
    if cs != [] {
      var k := |cs| - 1;
      WarmUpIsAdds(items, cs[..k]);
      assert cs == cs[..k] + [cs[k]];
      assert Puts(cs)[..k] == Puts(cs[..k]);
    }
  }

  /** What the last operation on a config asked for; None when there was none. */
  function Last(ops: seq<Op>, config: string): Option<Items>
  {
    if ops == [] then None
    else
      match ops[|ops| - 1]
      case Put(c) =>
        if c.name == config then Some(if Registrable(c) then Registrations(c.handlers, config) else map[])
        else Last(ops[..|ops| - 1], config)
      case Drop(name) => if name == config then Some(map[]) else Last(ops[..|ops| - 1], config)
  }

  /** What the last operation on a config asked for, or what it had at the start. */
  function Wanted(items: Items, ops: seq<Op>, config: string): Items
  {
    if Last(ops, config).Some? then Last(ops, config).value else EntriesOf(items, config)
  }

  /** The names that successful adds of other configs took since the last operation on this one. */
  function TakenSince(ops: seq<Op>, config: string): set<string>
  {
    if ops == [] then {}
    else
      var before := TakenSince(ops[..|ops| - 1], config);
      match ops[|ops| - 1]
      case Put(c) =>
        if c.name == config then {}
        else if Registrable(c) then before + Registrations(c.handlers, c.name).Keys
        else before
      case Drop(name) => if name == config then {} else before
  }

  lemma {:induction false} EntriesExactly(items: Items, ops: seq<Op>, config: string)
    ensures EntriesOf(Run(items, ops), config) == Wanted(items, ops, config) - TakenSince(ops, config)
  {
    if ops != [] {
      var k := |ops| - 1;
      hide Registrations, Registrable, Add, Remove, EntriesOf;
      EntriesExactly(items, ops[..k], config);
      var before := Run(items, ops[..k]);
      match ops[k]
      case Put(c) =>
        AddMeaning(before, c, if c.name == config then c.name + "!" else config);
        if c.name != config && Registrable(c) {
          MinusTwice(Wanted(items, ops[..k], config), TakenSince(ops[..k], config),
                     Registrations(c.handlers, c.name).Keys);
        }
      case Drop(name) => RemoveMeaning(before, name, config);
    }
  }

  lemma MinusTwice(m: Items, a: set<string>, b: set<string>)
    ensures m - a - b == m - (a + b)
  {
  }

  lemma RemoveMeaning(items: Items, name: string, config: string)
    ensures EntriesOf(Remove(items, name), config) == if name == config then map[] else EntriesOf(items, config)
  {
  }

  /** After any adds and removes, successful or not, a config's entries are what the last operation on it asked for
      exactly when no successful add of another config has taken one of those names since. */
  lemma LastOperationExactly(items: Items, ops: seq<Op>, config: string)
    ensures EntriesOf(Run(items, ops), config) == Wanted(items, ops, config) <==>
              Wanted(items, ops, config).Keys !! TakenSince(ops, config)
  {
    EntriesExactly(items, ops, config);
    hide Run, Wanted, TakenSince, EntriesOf;
    var w, t := Wanted(items, ops, config), TakenSince(ops, config);
    if w - t == w {
      assert (w - t).Keys == w.Keys;
    } else {
      assert exists n :: n in w && n in t;
    }
  }

  ghost predicate AllOwned(items: Items, owner: string -> string)
  {
    forall n | n in items :: owner(n) == items[n].config
  }

  lemma OthersKept(items: Items, c: Config, other: string, owner: string -> string)
    requires c.name != other && Owned(c, owner) && AllOwned(items, owner)
    ensures EntriesOf(Add(items, c).0, other) == EntriesOf(items, other)
  {
    AddMeaning(items, c, other);
    if Registrable(c) {
      RegistrationsNames(c.handlers, c.name);
    }
  }

  lemma OwnersKept(items: Items, op: Op, owner: string -> string)
    requires (op.Put? ==> Owned(op.config, owner)) && AllOwned(items, owner)
    ensures AllOwned(if op.Put? then Add(items, op.config).0 else Remove(items, op.name), owner)
  {
    if op.Put? && Registrable(op.config) {
      RegistrationsNames(op.config.handlers, op.config.name);
    }
  }

  /** After any adds and removes, successful or not, in which no handler name is used by two configs, a config's entries
      are exactly what the last operation on it asked for. */
  lemma {:induction false} LastOperationDecides(items: Items, ops: seq<Op>, config: string, owner: string -> string)
    requires AllOwned(items, owner) && forall k | 0 <= k < |ops| && ops[k].Put? :: Owned(ops[k].config, owner)
    ensures AllOwned(Run(items, ops), owner)
    ensures EntriesOf(Run(items, ops), config)
            == (if Last(ops, config).Some? then Last(ops, config).value else EntriesOf(items, config))
  {
    if ops != [] {
      var k := |ops| - 1;
      hide Owned, AllOwned;
      assert forall i | 0 <= i < k :: ops[..k][i] == ops[i];
      LastOperationDecides(items, ops[..k], config, owner);
      var before := Run(items, ops[..k]);
      OwnersKept(before, ops[k], owner);
      match ops[k]
      case Put(c) =>
        if c.name == config {
          AddMeaning(before, c, c.name + "!");
        } else {
          OthersKept(before, c, config, owner);
        }
      case Drop(name) =>
    }
  }

  /** When a shared name is used, an add takes over the other config's entry. */
  lemma SharedNameTakesOver()
    ensures var first := Config("a.b", true, [Handler(NameForHandler("x", "a.b"), Some(("g", "v")), "h")]);
            var second := Config("b", true, [Handler(NameForHandler("x.a", "b"), Some(("g", "v")), "h")]);
            EntriesOf(Run(map[], [Put(first), Put(second)]), "a.b") == map[]
            && Last([Put(first), Put(second)], "a.b") != Some(map[])
  {
    var name := NameForHandler("x", "a.b");
    assert name == "x.a.b" == NameForHandler("x.a", "b");
    var h := Handler(name, Some(("g", "v")), "h");
    var first, second := Config("a.b", true, [h]), Config("b", true, [h]);
    assert |"a.b"| != |"b"|;
    var ops := [Put(first), Put(second)];
    assert ops[..1] == [Put(first)] && ops[..1][..0] == [];
    assert name in Registrations([h], "a.b") && name in Registrations([h], "b") by {
      assert h in [h];
    }
    AddMeaning(Run(map[], ops[..1]), second, "a.b");
    AddMeaning(map[], first, "b");
    assert forall n | n in Registrations([h], "a.b") :: n == name;
  }

  // ---- one answer from many ----

  function LowestNonZero(i: int, j: int): int
  {
    if i == 0 then j else if j == 0 then i else if i < j then i else j
  }

  function Fold(start: int, retries: seq<int>): int
  {
    if retries == [] then start
    else LowestNonZero(Fold(start, retries[..|retries| - 1]), retries[|retries| - 1])
  }

  method AggregateRetry(start: int, retries: seq<int>) returns (r: int)
    ensures r == Fold(start, retries)
  {
    r := start;
    for i := 0 to |retries|
      invariant r == Fold(start, retries[..i])
    {
      assert retries[..i + 1][..i] == retries[..i];
      r := LowestNonZero(r, retries[i]);
    }
    assert retries[..|retries|] == retries;
  }

  /** The least of the non-zero answers, or zero when there is none. */
  lemma {:induction false} FoldMeaning(start: int, retries: seq<int>)
    ensures var r := Fold(start, retries);
            && (r == 0 <==> start == 0 && forall x | x in retries :: x == 0)
            && (r != 0 ==> r == start || r in retries)
            && (start != 0 ==> r <= start) && (forall x | x in retries && x != 0 :: r <= x)
  {
    if retries != [] {
      var k := |retries| - 1;
      assert retries == retries[..k] + [retries[k]];
      FoldMeaning(start, retries[..k]);
      assert retries[k] in retries && forall x | x in retries[..k] :: x in retries;
    }
  }

  /** The order in which the handlers answered does not matter. */
  lemma FoldOrderFree(start: int, a: seq<int>, b: seq<int>)
    requires multiset(a) == multiset(b)
    ensures Fold(start, a) == Fold(start, b)
  {
    FoldMeaning(start, a);
    FoldMeaning(start, b);
    assert forall x :: x in a <==> x in multiset(a);
    assert forall x :: x in b <==> x in multiset(b);
  }
}
