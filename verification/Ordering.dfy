/** The byte order of strings and the sorted slices built with it. */
module Ordering {
  import opened Sequences
  import opened Inventory

  predicate Less(a: string, b: string) {
    b != "" && (a == "" || a[0] < b[0] || (a[0] == b[0] && Less(a[1..], b[1..])))
  }

  /** The strings first differ at `k`, where `a` has the smaller character. */
  predicate SmallerAt(a: string, b: string, k: nat) {
    k < |a| && k < |b| && a[..k] == b[..k] && a[k] < b[k]
  }

  lemma SmallerBehind(c: char, s: string, t: string, a: string, b: string, k: nat)
    requires a == [c] + s && b == [c] + t
    ensures SmallerAt(a, b, k + 1) <==> SmallerAt(s, t, k)
  {
    if k < |s| && k < |t| {
      assert a[..k + 1] == [c] + s[..k] && b[..k + 1] == [c] + t[..k];
      assert a[..k + 1][1..] == s[..k] && b[..k + 1][1..] == t[..k];
    }
  }

  /** Only where the first characters are equal do strings differ later. */
  lemma SmallerAtHead(a: string, b: string, k: nat)
    requires a != "" && b != "" && SmallerAt(a, b, k)
    ensures if a[0] == b[0] then k > 0 else k == 0
  {
    if k > 0 { assert a[..k][0] == b[..k][0]; }
  }

  /** One string comes before another if it is a beginning of it, or has the smaller character where they
      first differ. */
  lemma {:induction false} LessExactly(a: string, b: string)
    ensures Less(a, b) <==> a < b || exists k: nat :: SmallerAt(a, b, k)
  {
    if a != "" && b != "" {
      if k: nat :| SmallerAt(a, b, k) { SmallerAtHead(a, b, k); }
      if a[0] == b[0] {
        LessExactly(a[1..], b[1..]);
        assert a == [a[0]] + a[1..] && b == [a[0]] + b[1..];
        forall k: nat ensures SmallerAt(a, b, k + 1) <==> SmallerAt(a[1..], b[1..], k) {
          SmallerBehind(a[0], a[1..], b[1..], a, b, k);
        }
        if k: nat :| SmallerAt(a, b, k) {
          SmallerAtHead(a, b, k);
          assert SmallerAt(a[1..], b[1..], k - 1);
        }
      } else {
        assert a[..0] == b[..0];
        assert SmallerAt(a, b, 0) <==> a[0] < b[0];
      }
    }
  }

  lemma {:induction false} LessTotal(a: string, b: string)
    ensures Less(a, b) || a == b || Less(b, a)
    ensures Less(a, b) ==> a != b && !Less(b, a)
  {
    if a != "" && b != "" && a[0] == b[0] {
      LessTotal(a[1..], b[1..]);
      assert a == [a[0]] + a[1..] && b == [b[0]] + b[1..];
    }
  }

  lemma {:induction false} LessTransitive(a: string, b: string, c: string)
    requires Less(a, b) && Less(b, c)
    ensures Less(a, c)
  {
    if a != "" && a[0] == b[0] && b[0] == c[0] {
      LessTransitive(a[1..], b[1..], c[1..]);
    }
  }

  ghost predicate SortedNames(s: seq<string>) {
    forall i, j :: 0 <= i < j < |s| ==> Less(s[i], s[j])
  }

  /** Sorted by name without two records of one name. */
  ghost predicate SortedByName<V>(s: seq<Named<V>>) {
    forall i, j :: 0 <= i < j < |s| ==> Less(s[i].name, s[j].name)
  }

  lemma SortedIsUnique<V>(s: seq<Named<V>>)
    requires SortedByName(s)
    ensures Unique(s)
  {
    forall i, j | 0 <= i < j < |s| ensures s[i].name != s[j].name {
      LessTotal(s[i].name, s[j].name);
    }
  }

  lemma LastIsGreatest<V>(s: seq<Named<V>>)
    requires SortedByName(s) && s != []
    ensures s[|s| - 1].name in Index(s) && Index(s)[s[|s| - 1].name] == s[|s| - 1].value
    ensures forall n :: n in Index(s) ==> n == s[|s| - 1].name || Less(n, s[|s| - 1].name)
  {
    forall n | n in Index(s) ensures n == s[|s| - 1].name || Less(n, s[|s| - 1].name) {
      var i := IndexHolder(s, n);
    }
  }

  /** Sorted slices with the same table are the same slice. */
  lemma {:induction false} SortedDetermined<V>(a: seq<Named<V>>, b: seq<Named<V>>)
    requires SortedByName(a) && SortedByName(b) && Index(a) == Index(b)
    ensures a == b
    decreases |a|
  {
    if a == [] || b == [] {
      if a != [] { LastIsGreatest(a); }
      if b != [] { LastIsGreatest(b); }
    } else {
      LastIsGreatest(a);
      LastIsGreatest(b);
      LessTotal(a[|a| - 1].name, b[|b| - 1].name);
      SortedIsUnique(a);
      SortedIsUnique(b);
      IndexInit(a);
      IndexInit(b);
      SortedDetermined(a[..|a| - 1], b[..|b| - 1]);
      assert a == a[..|a| - 1] + [a[|a| - 1]] && b == b[..|b| - 1] + [b[|b| - 1]];
    }
  }

  lemma IndexInit<V>(s: seq<Named<V>>)
    requires s != [] && Unique(s)
    ensures Index(s[..|s| - 1]) == Index(s) - {s[|s| - 1].name}
  {
    var init, last := s[..|s| - 1], s[|s| - 1];
    forall i | 0 <= i < |init| ensures init[i].name != last.name {
      assert init[i] == s[i];
    }
    if last.name in Index(init) {
      var i := IndexHolder(init, last.name);
      assert false;
    }
  }

  /** Where a new name goes in a sorted slice. */
  method InsertName(s: seq<string>, name: string) returns (r: seq<string>)
    requires SortedNames(s) && name !in s
    ensures SortedNames(r)
    ensures multiset(r) == multiset(s) + multiset{name}
  {
    var i := 0;
    while i < |s| && Less(s[i], name)
      invariant 0 <= i <= |s|
      invariant forall k :: 0 <= k < i ==> Less(s[k], name)
    {
      i := i + 1;
    }
    forall k | i <= k < |s| ensures Less(name, s[k]) {
      LessTotal(name, s[i]);
      if i < k { LessTransitive(name, s[i], s[k]); }
    }
    r := s[..i] + [name] + s[i..];
    InsertedElements(s, name, i);
    InsertedIsSorted(s, name, i);
  }

  lemma InsertedIsSorted(s: seq<string>, name: string, i: nat)
    requires SortedNames(s) && i <= |s|
    requires forall k :: 0 <= k < i ==> Less(s[k], name)
    requires forall k :: i <= k < |s| ==> Less(name, s[k])
    ensures SortedNames(Inserted(s, name, i))
  {
    var r := Inserted(s, name, i);
    forall j, k | 0 <= j < k < |r| ensures Less(r[j], r[k]) {
      InsertedAt(s, name, i, j);
      InsertedAt(s, name, i, k);
    }
  }

  /** The names of a Go map, collected in any order and then sorted. */
  method SortNames(names: set<string>) returns (sorted: seq<string>)
    ensures SortedNames(sorted)
    ensures forall n :: n in sorted <==> n in names
  {
    sorted := [];
    var left := names;
    while left != {}
      invariant left <= names && SortedNames(sorted)
      invariant forall n :: n in sorted <==> n in names - left
      decreases left
    {
      var n :| n in left;
      var before := sorted;
      sorted := InsertName(sorted, n);
      forall k ensures k in sorted <==> k in before || k == n {
        assert k in sorted <==> k in multiset(sorted);
        assert k in before <==> k in multiset(before);
      }
      left := left - {n};
    }
  }
}
