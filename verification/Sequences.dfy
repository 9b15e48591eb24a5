/** A few operations on sequences. */
module Sequences {

  lemma TakeOneMore<T>(s: seq<T>, i: nat)
    requires i < |s|
    ensures s[..i + 1] == s[..i] + [s[i]]
  {
  }

  lemma TakeBoth<T>(a: seq<T>, b: seq<T>)
    requires b != []
    ensures var both := a + b; both[..|both| - 1] == a + b[..|b| - 1] && both[|both| - 1] == b[|b| - 1]
  {
  }

  lemma Halves<T>(s: seq<T>, i: nat)
    requires i <= |s|
    ensures s == s[..i] + s[i..]
  {
  }

  function Inserted<T>(s: seq<T>, x: T, at: nat): seq<T>
    requires at <= |s|
  {
    s[..at] + [x] + s[at..]
  }

  lemma InsertedAt<T>(s: seq<T>, x: T, at: nat, i: nat)
    requires at <= |s| && i <= |s|
    ensures |Inserted(s, x, at)| == |s| + 1
    ensures Inserted(s, x, at)[i] == if i < at then s[i] else if i == at then x else s[i - 1]
  {
  }

  lemma InsertedElements<T>(s: seq<T>, x: T, at: nat)
    requires at <= |s|
    ensures multiset(Inserted(s, x, at)) == multiset(s) + multiset{x}
  {
    assert s == s[..at] + s[at..];
  }

  function Concat<T>(chunks: seq<seq<T>>): seq<T> {
    if chunks == [] then [] else Concat(chunks[..|chunks| - 1]) + chunks[|chunks| - 1]
  }

  lemma Associative<T>(a: seq<T>, b: seq<T>, c: seq<T>)
    ensures a + (b + c) == a + b + c
  {
  }

  lemma {:induction false} ConcatBoth<T>(a: seq<seq<T>>, b: seq<seq<T>>)
    ensures Concat(a + b) == Concat(a) + Concat(b)
  {
    if b == [] {
      assert a + b == a;
    } else {
      var init, last := b[..|b| - 1], b[|b| - 1];
      ConcatBoth(a, init);
      TakeBoth(a, b);
      Associative(Concat(a), Concat(init), last);
    }
  }

  /** The first place of `x` in `s`; -1 when there is none. */
  function FirstOf<T(==)>(s: seq<T>, x: T): (r: int)
    ensures -1 <= r < |s|
    ensures r >= 0 ==> s[r] == x
    ensures forall i :: 0 <= i < |s| && (r < 0 || i < r) ==> s[i] != x
  {
    if s == [] then -1
    else if s[0] == x then 0
    else
      var r := FirstOf(s[1..], x);
      assert forall i :: 0 < i < |s| ==> s[i] == s[1..][i - 1];
      if r < 0 then -1 else r + 1
  }
}
