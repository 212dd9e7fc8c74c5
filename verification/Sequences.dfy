/** A few facts about Dafny sequences used throughout. */
module Sequences {
  function Concat<T>(parts: seq<seq<T>>): seq<T> {
    if parts == [] then [] else Concat(parts[..|parts| - 1]) + parts[|parts| - 1]
  }

  function Without<T>(s: seq<T>, k: nat): seq<T>
    requires k < |s|
  {
    s[..k] + s[k + 1..]
  }

  lemma Regrouped<T>(a: seq<T>, b: seq<T>, c: seq<T>)
    ensures a + (b + c) == (a + b) + c
  {
  }

  lemma FrontMoved<T>(a: seq<T>, b: seq<T>)
    requires b != []
    ensures (a + [b[0]]) + b[1..] == a + b
  {
  }

  lemma {:induction false} ConcatFront<T>(first: seq<T>, rest: seq<seq<T>>)
    ensures Concat([first] + rest) == first + Concat(rest)
  {
    var all := [first] + rest;
    if rest == [] {
      assert all[..0] == [];
    } else {
      ConcatFront(first, rest[..|rest| - 1]);
      assert all[..|all| - 1] == [first] + rest[..|rest| - 1];
      Regrouped(first, Concat(rest[..|rest| - 1]), rest[|rest| - 1]);
    }
  }

  lemma ConcatPrefix<T>(parts: seq<seq<T>>, j: nat)
    requires j < |parts|
    ensures Concat(parts[..j + 1]) == Concat(parts[..j]) + parts[j]
  {
    assert parts[..j + 1][..j] == parts[..j];
  }

  lemma Rejoined<T>(s: seq<T>, k: nat)
    requires k < |s|
    ensures s == (s[..k] + [s[k]]) + s[k + 1..]
    ensures multiset(s) == multiset{s[k]} + multiset(Without(s, k))
  {
  }

  lemma WithoutMembers<T>(s: seq<T>, k: nat)
    requires k < |s|
    ensures forall e :: e in Without(s, k) ==> e in s
    ensures forall e :: e in s ==> e == s[k] || e in Without(s, k)
  {
    var w := Without(s, k);
    forall e | e in s
      ensures e == s[k] || e in w
    {
      var i :| 0 <= i < |s| && s[i] == e;
      if i < k {
        assert w[i] == e;
      } else if i > k {
        assert w[i - 1] == e;
      }
    }
  }
}
