/** Splitting text at a separator, and putting it together again. */
module Text {
  import opened Options

  function Split(s: string, c: char): (r: seq<string>)
    ensures |r| > 0
  {
    if s == [] then [""]
    else
      var rest := Split(s[1..], c);
      if s[0] == c then [""] + rest else [[s[0]] + rest[0]] + rest[1..]
  }

  function Join(parts: seq<string>, c: char): string
  {
    if parts == [] then "" else if |parts| == 1 then parts[0] else parts[0] + [c] + Join(parts[1..], c)
  }

  lemma {:induction false} SplitClean(s: string, c: char)
    ensures forall p | p in Split(s, c) :: c !in p
    ensures forall x | x in s :: x == c || exists p :: p in Split(s, c) && x in p
  {
    if s != [] {
      var rest := Split(s[1..], c);
      SplitClean(s[1..], c);
      assert s == [s[0]] + s[1..];
      var r := Split(s, c);
      assert rest == [rest[0]] + rest[1..];
      if s[0] != c {
        assert r[0] in r && s[0] in r[0] && forall x | x in rest[0] :: x in r[0];
        assert forall p | p in rest :: p == rest[0] || p in r;
      }
    }
  }

  lemma {:induction false} JoinSplit(s: string, c: char)
    ensures Join(Split(s, c), c) == s
  {
    if s != [] {
      var rest := Split(s[1..], c);
      JoinSplit(s[1..], c);
      var r := Split(s, c);
      assert s == [s[0]] + s[1..];
      assert r[1..] == if s[0] == c then rest else rest[1..];
    }
  }

  lemma JoinThree(n: seq<string>, c: char)
    requires |n| == 3
    ensures Join(n, c) == n[0] + [c] + n[1] + [c] + n[2]
  {
    assert n[1..][0] == n[1] && n[1..][1..][0] == n[2] && |n[1..][1..]| == 1;
    assert Join(n[1..], c) == n[1] + [c] + n[2];
  }

  /** Splitting undoes joining of parts free of the separator. */
  lemma {:induction false} SplitJoin(parts: seq<string>, c: char)
    requires parts != [] && forall p | p in parts :: c !in p
    ensures Split(Join(parts, c), c) == parts
  {
    if |parts| == 1 {
      SplitOne(parts[0], c);
    } else {
      SplitJoin(parts[1..], c);
      SplitFirst(parts[0], Join(parts[1..], c), c);
      assert parts == [parts[0]] + parts[1..];
    }
  }

  lemma {:induction false} SplitOne(p: string, c: char)
    requires c !in p
    ensures Split(p, c) == [p]
  {
    if p != [] {
      SplitOne(p[1..], c);
      assert p == [p[0]] + p[1..];
    }
  }

  lemma {:induction false} SplitFirst(p: string, rest: string, c: char)
    requires c !in p
    ensures Split(p + [c] + rest, c) == [p] + Split(rest, c)
  {
    var s := p + [c] + rest;
    if p == [] {
      assert s[1..] == rest;
    } else {
      assert s[1..] == p[1..] + [c] + rest;
      SplitFirst(p[1..], rest, c);
      assert p == [p[0]] + p[1..];
    }
  }

  /** The text before the first separator, and the text after it if there is one. */
  function Cut(s: string, c: char): (r: (string, Option<string>))
    ensures c !in r.0
    ensures s == r.0 + if r.1.Some? then [c] + r.1.value else ""
  {
    if s == [] then ("", None)
    else if s[0] == c then ("", Some(s[1..]))
    else
      var r := Cut(s[1..], c);
      ([s[0]] + r.0, r.1)
  }

  lemma {:induction false} CutAt(a: string, rest: Option<string>, c: char)
    requires c !in a
    ensures Cut(a + (if rest.Some? then [c] + rest.value else ""), c) == (a, rest)
  {
    var s := a + if rest.Some? then [c] + rest.value else "";
    if a == [] {
      if rest.Some? {
        assert s[1..] == rest.value;
      }
    } else {
      assert s[1..] == a[1..] + if rest.Some? then [c] + rest.value else "";
      CutAt(a[1..], rest, c);
      assert a == [a[0]] + a[1..];
    }
  }
}

/** Numbers as the code prints and parses them. */
module Decimals {
  predicate Digit(c: char)
  {
    '0' <= c <= '9'
  }

  predicate Digits(s: string)
  {
    forall i | 0 <= i < |s| :: Digit(s[i])
  }

  function Value(s: string): nat
    requires Digits(s)
  {
    if s == [] then 0 else 10 * Value(s[..|s| - 1]) + (s[|s| - 1] as int - '0' as int)
  }

  function DigitOf(n: nat): (c: char)
    requires n < 10
    ensures Digit(c) && c as int - '0' as int == n
  {
    ('0' as int + n) as char
  }

  function Print(n: nat): (s: string)
    ensures s != []
  {
    if n < 10 then [DigitOf(n)] else Print(n / 10) + [DigitOf(n % 10)]
  }

  /** "0", or digits that do not start with 0. */
  predicate Canonical(s: string)
  {
    s != [] && Digits(s) && (s[0] == '0' ==> |s| == 1)
  }

  lemma {:induction false} PrintParses(n: nat)
    ensures Canonical(Print(n)) && Value(Print(n)) == n && (Print(n)[0] == '0' ==> n == 0)
  {
    var s := Print(n);
    if n < 10 {
      assert s[..0] == [];
    } else {
      PrintParses(n / 10);
      assert s[..|s| - 1] == Print(n / 10);
    }
  }

  lemma {:induction false} ParsePrints(s: string)
    requires Canonical(s)
    ensures Print(Value(s)) == s && (Value(s) == 0 ==> s == "0")
  {
    var t := s[..|s| - 1];
    if t == [] {
      assert s == [s[0]] && Digit(s[0]) && Value(t) == 0;
      assert DigitOf(Value(s)) == s[0];
    } else {
      assert t[0] == s[0];
      ParsePrints(t);
      var d := s[|s| - 1] as int - '0' as int;
      assert Value(s) / 10 == Value(t) && Value(s) % 10 == d;
      assert DigitOf(d) == s[|s| - 1];
      assert s == t + [s[|s| - 1]];
    }
  }
}
