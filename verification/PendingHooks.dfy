/** Hooks that wait to be called, tracked as a comma separated list in one annotation. */
module PendingHooks {
  import opened Options
  import opened Orders
  import opened Text

  /** The distinct items of a list. */
  function Distinct(items: seq<string>): (r: seq<string>)
    ensures forall x :: x in r <==> x in items
    ensures forall i, j | 0 <= i < j < |r| :: r[i] != r[j]
    ensures r == [] <==> items == []
  {
    if items == [] then []
    else
      var rest := Distinct(items[..|items| - 1]);
      assert items == items[..|items| - 1] + [items[|items| - 1]];
      if items[|items| - 1] in rest then rest else rest + [items[|items| - 1]]
  }

  function Sorted(items: seq<string>): seq<string>
  {
    Sort(Distinct(items), StringLess)
  }

  function Without(items: seq<string>, gone: seq<string>): (r: seq<string>)
    ensures forall x :: x in r <==> x in items && x !in gone
  {
    if items == [] then []
    else
      var rest := Without(items[..|items| - 1], gone);
      assert items == items[..|items| - 1] + [items[|items| - 1]];
      if items[|items| - 1] in gone then rest else rest + [items[|items| - 1]]
  }

  function AddToList(list: string, items: seq<string>): string
  {
    Join(Sorted(Split(list, ',') + items), ',')
  }

  function RemoveFromList(list: string, items: seq<string>): string
  {
    Join(Sorted(Without(Split(list, ','), items)), ',')
  }

  predicate InList(list: string, item: string)
  {
    item in Split(list, ',')
  }

  lemma SortedMembers(items: seq<string>)
    ensures forall x :: x in Sorted(items) <==> x in items
    ensures Sorted(items) == [] <==> items == []
  {
    var d := Distinct(items);
    assert forall x :: x in Sorted(items) <==> x in multiset(Sort(d, StringLess));
    assert forall x :: x in d <==> x in multiset(d);
  }

  /** The list is in string order without repetition, so it depends only on the items. */
  lemma SortedCanonical(a: seq<string>, b: seq<string>)
    requires forall x :: x in a <==> x in b
    ensures Sorted(a) == Sorted(b)
  {
    var x, y := Distinct(a), Distinct(b);
    var dom := set i | i in a;
    SameItems(x, y);
    StringLessOrders(dom);
    SortSorts(x, StringLess, dom);
    SortSorts(y, StringLess, dom);
    assert forall i | i in Sort(x, StringLess) :: i in multiset(x);
    SortedUnique(Sort(x, StringLess), Sort(y, StringLess), StringLess, dom);
  }

  lemma StringLessOrders(dom: set<string>)
    ensures StrictWeakOrderOn(dom, StringLess) && TotalOn(dom, StringLess)
  {
    hide StringLess;
    forall x: string, y: string
      ensures !(StringLess(x, y) && StringLess(y, x)) && (x == y || StringLess(x, y) || StringLess(y, x))
    {
      StringLessTotal(x, y);
      StringLessIrreflexive(x);
      if StringLess(x, y) && StringLess(y, x) {
        StringLessTransitive(x, y, x);
      }
    }
    forall x, y, z | StringLess(x, y) && StringLess(y, z)
      ensures StringLess(x, z)
    {
      StringLessTransitive(x, y, z);
    }
  }

  lemma {:induction false} SameItems(a: seq<string>, b: seq<string>)
    requires forall x :: x in a <==> x in b
    requires forall i, j | 0 <= i < j < |a| :: a[i] != a[j]
    requires forall i, j | 0 <= i < j < |b| :: b[i] != b[j]
    ensures multiset(a) == multiset(b)
  {
    forall x: string
      ensures multiset(a)[x] == multiset(b)[x]
    {
      AtMostOnce(a, x);
      AtMostOnce(b, x);
      assert x in multiset(a) <==> x in a;
      assert x in multiset(b) <==> x in b;
    }
  }

  lemma AtMostOnce(a: seq<string>, x: string)
    requires forall i, j | 0 <= i < j < |a| :: a[i] != a[j]
    ensures multiset(a)[x] <= 1
  {
    if multiset(a)[x] >= 2 {
      var i, j := RepeatedAt(a, x);
    }
  }

  /** Items that can stand in a list. */
  ghost predicate Plain(items: seq<string>)
  {
    forall x | x in items :: ',' !in x
  }

  lemma JoinEmpty(items: seq<string>)
    ensures Join(Sorted(items), ',') == "" <==> forall i | i in items :: i == ""
  {
    var s := Sorted(items);
    SortedMembers(items);
    hide Sorted;
    if |s| >= 2 {
      assert |Join(s, ',')| >= 1;
      SortedDistinct(items);
      assert s[0] != s[1] && s[0] in items && s[1] in items;
    } else if |s| == 1 {
      assert s[0] in items && s == [s[0]];
    }
  }

  lemma SortedDistinct(items: seq<string>)
    ensures var s := Sorted(items); forall i, j | 0 <= i < j < |s| :: s[i] != s[j]
  {
    PermutedKeysDistinct(Distinct(items), Sorted(items), (x: string) => x);
  }

  lemma JoinHolds(items: seq<string>, x: string)
    requires Plain(items)
    ensures InList(Join(Sorted(items), ','), x) <==> x in items || (items == [] && x == "")
  {
    var s := Sorted(items);
    SortedMembers(items);
    hide Sorted;
    if s != [] {
      SplitJoin(s, ',');
    }
  }

  // ---- the annotation ----

  /** The object's annotation, if it has one. */
  class Tracked {
    var annotation: Option<string>

    constructor (a: Option<string>)
      ensures annotation == a
    {
      annotation := a;
    }

    method MarkAsPending(hooks: seq<string>)
      modifies this
      ensures annotation == Pending(old(annotation), hooks)
    {
      var list := if annotation.Some? then annotation.value else "";
      annotation := Some(AddToList(list, hooks));
    }

    method MarkAsDone(hooks: seq<string>)
      modifies this
      ensures annotation == Done(old(annotation), hooks)
    {
      var list := if annotation.Some? then annotation.value else "";
      annotation := Some(RemoveFromList(list, hooks));
      if annotation.value == "" {
        annotation := None;
      }
    }
  }

  function List(a: Option<string>): string
  {
    if a.Some? then a.value else ""
  }

  function Pending(a: Option<string>, hooks: seq<string>): Option<string>
  {
    Some(AddToList(List(a), hooks))
  }

  function Done(a: Option<string>, hooks: seq<string>): Option<string>
  {
    var list := RemoveFromList(List(a), hooks);
    if list == "" then None else Some(list)
  }

  predicate IsPending(a: Option<string>, hook: string)
  {
    InList(List(a), hook)
  }

  /** A hook's name: not empty, no comma. */
  predicate HookName(hook: string)
  {
    hook != "" && ',' !in hook
  }

  lemma NothingPending(hook: string)
    requires HookName(hook)
    ensures !IsPending(None, hook)
  {
    assert Split("", ',') == [""];
  }

  /** Marking adds exactly the given hooks. */
  lemma PendingMeaning(a: Option<string>, hooks: seq<string>, hook: string)
    requires HookName(hook) && forall h | h in hooks :: HookName(h)
    ensures IsPending(Pending(a, hooks), hook) <==> hook in hooks || IsPending(a, hook)
  {
    SplitClean(List(a), ',');
    JoinHolds(Split(List(a), ',') + hooks, hook);
  }

  /** Marking as done removes exactly the given hooks, and the annotation goes away exactly when no hook remains. */
  lemma DoneMeaning(a: Option<string>, hooks: seq<string>, hook: string)
    requires HookName(hook)
    ensures IsPending(Done(a, hooks), hook) <==> IsPending(a, hook) && hook !in hooks
    ensures Done(a, hooks).None? <==> forall h | IsPending(a, h) && h !in hooks :: h == ""
  {
    var left := Without(Split(List(a), ','), hooks);
    SplitClean(List(a), ',');
    JoinHolds(left, hook);
    JoinEmpty(left);
    if Done(a, hooks).None? {
      NothingPending(hook);
    }
  }

  datatype Edit = Mark(hooks: seq<string>) | Clear(hooks: seq<string>)

  function Run(a: Option<string>, edits: seq<Edit>): Option<string>
  {
    if edits == [] then a
    else
      var before := Run(a, edits[..|edits| - 1]);
      match edits[|edits| - 1]
      case Mark(hooks) => Pending(before, hooks)
      case Clear(hooks) => Done(before, hooks)
  }

  /** The history alone: the last edit that names the hook decides. */
  function Asked(edits: seq<Edit>, hook: string): Option<bool>
  {
    if edits == [] then None
    else if hook in edits[|edits| - 1].hooks then Some(edits[|edits| - 1].Mark?)
    else Asked(edits[..|edits| - 1], hook)
  }

  /** After any history a hook is pending exactly when the last edit that named it marked it, or none did and it was
      pending at the start. */
  lemma {:induction false} LastEditDecides(a: Option<string>, edits: seq<Edit>, hook: string)
    requires HookName(hook) && forall e, h | e in edits && h in e.hooks :: HookName(h)
    ensures IsPending(Run(a, edits), hook) <==>
              if Asked(edits, hook).Some? then Asked(edits, hook).value else IsPending(a, hook)
  {
    if edits != [] {
      var n := |edits| - 1;
      hide IsPending, Pending, Done;
      assert edits[n] in edits && forall e | e in edits[..n] :: e in edits;
      LastEditDecides(a, edits[..n], hook);
      var before := Run(a, edits[..n]);
      match edits[n]
      case Mark(hooks) => PendingMeaning(before, hooks, hook);
      case Clear(hooks) => DoneMeaning(before, hooks, hook);
    }
  }
}
