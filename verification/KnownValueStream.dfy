/** Masking known values in a byte stream that arrives in arbitrary pieces. */
module KnownValues {
  import opened Bytes
  import opened Kmp
  import opened Sequences

  const MASK: seq<byte> := [42, 42, 42]

  // ----- the whole-input meaning: leftmost-longest replacement

  /** The length of the longest value that begins `s`; 0 when none does. */
  function LongestAt(values: seq<seq<byte>>, s: seq<byte>): (n: nat)
    ensures n <= |s|
    ensures forall i :: 0 <= i < |values| && values[i] <= s ==> |values[i]| <= n
    ensures n > 0 ==> exists i :: 0 <= i < |values| && values[i] <= s && |values[i]| == n
  {
    if values == [] then 0
    else
      var rest := LongestAt(values[1..], s);
      assert forall i :: 0 < i < |values| ==> values[i] == values[1..][i - 1];
      assert rest > 0 ==> exists i :: 0 <= i < |values[1..]| && values[1..][i] <= s && |values[1..][i]| == rest;
      if values[0] <= s && |values[0]| > rest then |values[0]| else rest
  }

  /** Every byte where a value begins is masked together with the longest such value. */
  function Replace(values: seq<seq<byte>>, s: seq<byte>): seq<byte>
    decreases |s|
  {
    if s == [] then []
    else
      var n := LongestAt(values, s);
      if n > 0 then MASK + Replace(values, s[n..]) else [s[0]] + Replace(values, s[1..])
  }

  /** Some value begins at byte `i`. */
  ghost predicate BeginsAt(values: seq<seq<byte>>, s: seq<byte>, i: nat)
    requires i <= |s|
  {
    exists j :: 0 <= j < |values| && values[j] <= s[i..]
  }

  /** The bytes from `i` on could still grow into a value. */
  ghost predicate CouldBeginAt(values: seq<seq<byte>>, s: seq<byte>, i: nat)
    requires i <= |s|
  {
    exists j :: 0 <= j < |values| && s[i..] < values[j]
  }

  ghost predicate NonEmpty(values: seq<seq<byte>>) {
    forall j :: 0 <= j < |values| ==> values[j] != []
  }

  // ----- what an unfinished input already determines

  /** `out` is settled: whatever follows, masking `a` gives `out` and then masks `b`.
      A final input is followed by nothing. */
  ghost predicate Settled(values: seq<seq<byte>>, a: seq<byte>, out: seq<byte>, b: seq<byte>, final: bool) {
    forall t: seq<byte> :: (final ==> t == []) ==> Continued(values, a, t) == out + Continued(values, b, t)
  }

  /** The masked form of `a` when `t` follows it. */
  ghost function Continued(values: seq<seq<byte>>, a: seq<byte>, t: seq<byte>): seq<byte> {
    Replace(values, a + t)
  }

  lemma SettledChain(values: seq<seq<byte>>, a: seq<byte>, out: seq<byte>, b: seq<byte>, more: seq<byte>, c: seq<byte>,
                     final: bool)
    requires Settled(values, a, out, b, final) && Settled(values, b, more, c, final)
    ensures Settled(values, a, out + more, c, final)
  {
    forall t: seq<byte> | final ==> t == []
      ensures Continued(values, a, t) == out + more + Continued(values, c, t)
    {
      assert Continued(values, a, t) == out + Continued(values, b, t);
      assert Continued(values, b, t) == more + Continued(values, c, t);
      Associative(out, more, Continued(values, c, t));
    }
  }

  lemma BeginsExtension(v: seq<byte>, a: seq<byte>, t: seq<byte>)
    ensures v <= a + t ==> v <= a || a < v
  {
    assert (a + t)[..|a|] == a;
    if v <= a + t && |v| <= |a| {
      assert v == (a + t)[..|v|] == a[..|v|];
    } else if v <= a + t {
      assert v[..|a|] == (a + t)[..|v|][..|a|] == a;
    }
  }

  /** No value begins `a`, and none can once more bytes follow: the first byte stays as it is. */
  lemma PlainByte(values: seq<seq<byte>>, a: seq<byte>, final: bool)
    requires NonEmpty(values) && a != [] && !BeginsAt(values, a, 0)
    requires !final ==> !CouldBeginAt(values, a, 0)
    ensures Settled(values, a, a[..1], a[1..], final)
  {
    assert a[0..] == a;
    forall t: seq<byte> | final ==> t == []
      ensures Continued(values, a, t) == a[..1] + Continued(values, a[1..], t)
    {
      forall j | 0 <= j < |values| ensures !(values[j] <= a + t) {
        BeginsExtension(values[j], a, t);
        assert final ==> a + t == a;
        assert !(values[j] <= a[0..]);
      }
      assert LongestAt(values, a + t) == 0;
      assert (a + t)[1..] == a[1..] + t && (a + t)[0] == a[0];
    }
  }

  lemma {:induction false} PlainSettled(values: seq<seq<byte>>, a: seq<byte>, n: nat, final: bool)
    requires NonEmpty(values) && n <= |a|
    requires forall i :: 0 <= i < n ==> !BeginsAt(values, a, i)
    requires !final ==> forall i :: 0 <= i < n ==> !CouldBeginAt(values, a, i)
    ensures Settled(values, a, a[..n], a[n..], final)
  {
    if n == 0 {
      forall t: seq<byte> ensures Continued(values, a, t) == a[..0] + Continued(values, a[0..], t) {
        assert a[0..] == a;
      }
    } else {
      var rest := a[1..];
      forall i | 0 <= i < n - 1
        ensures !BeginsAt(values, rest, i) && (!final ==> !CouldBeginAt(values, rest, i))
      {
        assert rest[i..] == a[i + 1..];
        assert !BeginsAt(values, a, i + 1);
        assert !final ==> !CouldBeginAt(values, a, i + 1);
      }
      PlainByte(values, a, final);
      PlainSettled(values, rest, n - 1, final);
      SettledChain(values, a, a[..1], rest, rest[..n - 1], rest[n - 1..], final);
      assert rest[n - 1..] == a[n..] && a[..n] == a[..1] + rest[..n - 1];
    }
  }

  lemma MatchSettled(values: seq<seq<byte>>, a: seq<byte>, n: nat, final: bool)
    requires LongestAt(values, a) == n > 0
    requires !final ==> !CouldBeginAt(values, a, 0)
    ensures Settled(values, a, MASK, a[n..], final)
  {
    forall t: seq<byte> | final ==> t == []
      ensures Continued(values, a, t) == MASK + Continued(values, a[n..], t)
    {
      if final {
        assert a + t == a && a[n..] + t == a[n..];
      } else {
        assert a[0..] == a;
        forall j | 0 <= j < |values| && values[j] <= a + t ensures values[j] <= a {
          BeginsExtension(values[j], a, t);
          assert !(a[0..] < values[j]);
        }
        var i :| 0 <= i < |values| && values[i] <= a && |values[i]| == n;
        assert values[i] <= a + t;
        assert LongestAt(values, a + t) == n;
        assert (a + t)[n..] == a[n..] + t;
      }
    }
  }

  /** Only the non-empty values matter, not their order or how often they are given. */
  lemma SameValuesSameLongest(a: seq<seq<byte>>, b: seq<seq<byte>>, s: seq<byte>)
    requires forall v: seq<byte> :: v != [] ==> (v in a <==> v in b)
    ensures LongestAt(a, s) == LongestAt(b, s)
  {
    var m, n := LongestAt(a, s), LongestAt(b, s);
    if m > 0 {
      var i :| 0 <= i < |a| && a[i] <= s && |a[i]| == m;
      assert a[i] in b;
    }
    if n > 0 {
      var i :| 0 <= i < |b| && b[i] <= s && |b[i]| == n;
      assert b[i] in a;
    }
  }

  lemma {:induction false} SameValuesSameReplace(a: seq<seq<byte>>, b: seq<seq<byte>>, s: seq<byte>)
    requires forall v: seq<byte> :: v != [] ==> (v in a <==> v in b)
    ensures Replace(a, s) == Replace(b, s)
    decreases |s|
  {
    if s != [] {
      SameValuesSameLongest(a, b, s);
      var n := LongestAt(a, s);
      SameValuesSameReplace(a, b, if n > 0 then s[n..] else s[1..]);
    }
  }

  lemma {:induction false} NothingToMask(s: seq<byte>)
    ensures Replace([], s) == s
    decreases |s|
  {
    if s != [] { NothingToMask(s[1..]); }
  }

  /** No value that is not empty begins before byte `n`. */
  ghost predicate NoneBegins(values: seq<seq<byte>>, s: seq<byte>, n: nat)
    requires n <= |s|
  {
    forall i, j :: 0 <= i < n && 0 <= j < |values| && values[j] != [] ==> !(values[j] <= s[i..])
  }

  lemma LongestIsNone(values: seq<seq<byte>>, s: seq<byte>)
    requires s != [] && NoneBegins(values, s, 1)
    ensures LongestAt(values, s) == 0
  {
    assert s[0..] == s;
  }

  lemma NoneBeginsBehind(values: seq<seq<byte>>, s: seq<byte>, rest: seq<byte>, n: nat)
    requires s != [] && rest == s[1..] && 0 < n <= |s| && NoneBegins(values, s, n)
    ensures NoneBegins(values, s, 1) && NoneBegins(values, rest, n - 1)
  {
    forall i, j | 0 <= i < n - 1 && 0 <= j < |values| && values[j] != [] ensures !(values[j] <= rest[i..]) {
      assert rest[i..] == s[i + 1..];
      assert !(values[j] <= s[i + 1..]);
    }
  }

  /** What no value begins in stays as it is. */
  lemma {:induction false} PlainPart(values: seq<seq<byte>>, a: seq<byte>, b: seq<byte>)
    requires NoneBegins(values, a + b, |a|)
    ensures Replace(values, a + b) == a + Replace(values, b)
  {
    var s := a + b;
    if a == [] {
      assert s == b;
    } else {
      var tail := a[1..];
      assert s[1..] == tail + b;
      NoneBeginsBehind(values, s, tail + b, |a|);
      LongestIsNone(values, s);
      PlainPart(values, tail, b);
      assert [a[0]] + tail == a;
      Associative([a[0]], tail, Replace(values, b));
    }
  }

  /** The leftmost value, and of those that begin there the longest, becomes three asterisks; what stands
      before it is kept, and masking goes on behind it. */
  lemma ReplaceExactly(values: seq<seq<byte>>, before: seq<byte>, v: seq<byte>, rest: seq<byte>)
    requires v in values && v != [] && NoneBegins(values, before + (v + rest), |before|)
    requires forall w: seq<byte> :: w in values && w <= v + rest ==> |w| <= |v|
    ensures Replace(values, before + (v + rest)) == before + ([42, 42, 42] + Replace(values, rest))
  {
    PlainPart(values, before, v + rest);
    var n := LongestAt(values, v + rest);
    assert v <= v + rest;
    if n > 0 {
      var j :| 0 <= j < |values| && values[j] <= v + rest && |values[j]| == n;
      assert values[j] in values;
    }
    assert n == |v| && (v + rest)[n..] == rest;
  }

  /** Bytes in which no value occurs are not changed. */
  lemma UnmaskedExactly(values: seq<seq<byte>>, s: seq<byte>)
    requires NoneBegins(values, s, |s|)
    ensures Replace(values, s) == s
  {
    assert s + [] == s;
    PlainPart(values, s, []);
  }

  // ----- what masking hides

  /** No part of a mask can help to make up the value: it neither begins nor ends with an asterisk,
      and holds no three in a row. */
  predicate KeepsOffMasks(v: seq<byte>) {
    v != [] && v[0] != 42 && v[|v| - 1] != 42 && IndexOf(v, MASK) < 0
  }

  /** Such a value appears nowhere in the masked bytes. */
  lemma {:induction false} ValueIsHidden(values: seq<seq<byte>>, s: seq<byte>, v: seq<byte>, at: nat)
    requires v in values && KeepsOffMasks(v) && at <= |Replace(values, s)|
    ensures !(v <= Replace(values, s)[at..])
    decreases |s|
  {
    if s == [] { return; }
    var n := LongestAt(values, s);
    var shown, rest := if n > 0 then MASK else [s[0]], if n > 0 then s[n..] else s[1..];
    var out, tail := Replace(values, s), Replace(values, rest);
    assert out == shown + tail;
    if at >= |shown| {
      ValueIsHidden(values, rest, v, at - |shown|);
      HiddenBehind(out, shown, tail, v, at);
    } else if n > 0 {
      HiddenByMask(out, tail, v, at);
    } else {
      UnmaskedBegin(values, s, v);
      assert out[0..] == out;
    }
  }

  lemma HiddenBehind(out: seq<byte>, shown: seq<byte>, tail: seq<byte>, v: seq<byte>, at: nat)
    requires out == shown + tail && |shown| <= at <= |out| && !(v <= tail[at - |shown|..])
    ensures !(v <= out[at..])
  {
    assert out[at..] == tail[at - |shown|..];
  }

  lemma HiddenByMask(out: seq<byte>, tail: seq<byte>, v: seq<byte>, at: nat)
    requires out == MASK + tail && at < |MASK| && v != [] && v[0] != 42
    ensures !(v <= out[at..])
  {
    assert out[at..][0] == out[at] == 42;
  }

  lemma UnmaskedBegin(values: seq<seq<byte>>, s: seq<byte>, v: seq<byte>)
    requires v in values && KeepsOffMasks(v) && LongestAt(values, s) == 0
    ensures !(v <= Replace(values, s))
  {
    if v <= Replace(values, s) {
      NoMaskWithin(v);
      PlainBegins(values, s, v);
      assert false;
    }
  }

  lemma NoMaskWithin(v: seq<byte>)
    requires IndexOf(v, MASK) < 0
    ensures HoldsNoMask(v)
  {
  }

  ghost predicate HoldsNoMask(v: seq<byte>) {
    forall k :: 0 <= k <= |v| ==> !(MASK <= v[k..])
  }

  lemma HoldsNoMaskBehind(v: seq<byte>, tail: seq<byte>)
    requires v != [] && tail == v[1..] && HoldsNoMask(v)
    ensures HoldsNoMask(tail)
  {
    forall k | 0 <= k <= |tail| ensures !(MASK <= tail[k..]) {
      assert tail[k..] == v[k + 1..];
    }
  }

  lemma PrefixBehind(v: seq<byte>, tail: seq<byte>, c: byte, out: seq<byte>)
    requires v != [] && tail == v[1..] && v <= [c] + out
    ensures v[0] == c && tail <= out
  {
    var all := [c] + out;
    assert v == all[..|v|] && all[1..] == out;
    assert tail == all[1..][..|tail|];
  }

  lemma SameFirst(v: seq<byte>, rest: seq<byte>, s: seq<byte>, tail: seq<byte>)
    requires v != [] && s != [] && v[0] == s[0] && rest == v[1..] && tail == s[1..] && rest <= tail
    ensures v <= s
  {
    assert v == [v[0]] + rest && s == [s[0]] + tail;
  }

  /** Masked bytes that hold no mask and do not stop inside one are the input's own bytes. */
  lemma {:induction false} PlainBegins(values: seq<seq<byte>>, s: seq<byte>, v: seq<byte>)
    requires v <= Replace(values, s) && (v != [] ==> v[|v| - 1] != 42) && HoldsNoMask(v)
    ensures v <= s
    decreases |s|
  {
    if v != [] && s != [] {
      var n, out := LongestAt(values, s), Replace(values, s);
      if n > 0 {
        MaskStopsIt(v, out, Replace(values, s[n..]));
      } else {
        var rest := v[1..];
        PrefixBehind(v, rest, s[0], Replace(values, s[1..]));
        HoldsNoMaskBehind(v, rest);
        PlainBegins(values, s[1..], rest);
        SameFirst(v, rest, s, s[1..]);
      }
    }
  }

  /** What begins with a mask either holds it or stops inside it. */
  lemma MaskStopsIt(v: seq<byte>, out: seq<byte>, tail: seq<byte>)
    requires out == MASK + tail && v <= out && v != []
    ensures v[|v| - 1] == 42 || MASK <= v[0..]
  {
    assert v == out[..|v|];
    if |v| < 3 {
      assert v[|v| - 1] == out[|v| - 1] == MASK[|v| - 1];
    } else {
      assert v[..3] == out[..3] == MASK;
    }
  }

  // ----- when a mask does complete a value

  /** `m` copies of one byte. */
  function Repeated(c: byte, m: nat): (r: seq<byte>)
    ensures |r| == m && forall i :: 0 <= i < m ==> r[i] == c
  {
    seq(m, _ => c)
  }

  /** The first value begins neither before nor where the second one does. */
  lemma FirstDoesNotBegin(v: seq<byte>, other: seq<byte>, a: seq<byte>, s: seq<byte>, i: nat, c: byte)
    requires |a| < |v| < |other| && other == Repeated(c, |other|) && v[|a|] == 42 != c
    requires a + other <= s && i <= |a|
    ensures !(v <= s[i..])
  {
    var tail, known := s[i..], a + other;
    assert s[i + |a|] == known[i + |a|] == c;
    assert tail[|a|] == s[i + |a|];
  }

  /** The second value does not begin before its place. */
  lemma SecondDoesNotBegin(other: seq<byte>, a: seq<byte>, s: seq<byte>, i: nat, c: byte)
    requires |a| < |other| && other == Repeated(c, |other|) && i < |a| && a[|a| - 1] != c && a <= s
    ensures !(other <= s[i..])
  {
    var tail, k := s[i..], |a| - 1 - i;
    assert tail[k] == s[|a| - 1] == a[|a| - 1];
  }

  lemma TwoValues(v: seq<byte>, other: seq<byte>, s: seq<byte>, i: nat)
    requires i <= |s| && !(v <= s[i..]) && !(other <= s[i..])
    ensures !BeginsAt([v, other], s, i)
  {
    var values := [v, other];
    forall j | 0 <= j < |values| ensures !(values[j] <= s[i..]) {
      assert values[j] == if j == 0 then v else other;
    }
  }

  lemma {:induction false} LongerValuesLeaveIt(v: seq<byte>, other: seq<byte>, b: seq<byte>)
    requires |b| < |v| && |b| < |other|
    ensures Replace([v, other], b) == b
    decreases |b|
  {
    if b != [] {
      var values := [v, other];
      forall j | 0 <= j < |values| ensures !(values[j] <= b) {
        assert values[j] == if j == 0 then v else other;
      }
      assert LongestAt(values, b) == 0;
      LongerValuesLeaveIt(v, other, b[1..]);
    }
  }

  /** The bytes before the second value stay as they are. */
  lemma BeforeTheMask(v: seq<byte>, other: seq<byte>, a: seq<byte>, s: seq<byte>, rest: seq<byte>, c: byte)
    requires |a| < |v| < |other| && other == Repeated(c, |other|) && v[|a|] == 42 != c && (a != [] ==> a[|a| - 1] != c)
    requires a + other <= s && rest == s[|a|..]
    ensures Settled([v, other], s, a, rest, true)
  {
    assert (a + other)[..|a|] == a && s[..|a + other|] == a + other;
    assert s[..|a|] == a;
    forall i | 0 <= i < |a| ensures !BeginsAt([v, other], s, i) {
      FirstDoesNotBegin(v, other, a, s, i, c);
      SecondDoesNotBegin(other, a, s, i, c);
      TwoValues(v, other, s, i);
    }
    PlainSettled([v, other], s, |a|, true);
  }

  /** The second value is masked where the first does not begin. */
  lemma MaskOfSecond(v: seq<byte>, other: seq<byte>, b: seq<byte>, rest: seq<byte>)
    requires other != [] && rest == other + b && !(v <= rest)
    ensures Settled([v, other], rest, MASK, b, true)
  {
    var values := [v, other];
    assert values[1] == other && other <= rest;
    forall j | 0 <= j < |values| && values[j] <= rest ensures |values[j]| <= |other| {
      assert values[j] == if j == 0 then v else other;
    }
    assert LongestAt(values, rest) == |other|;
    assert rest[|other|..] == b;
    MatchSettled(values, rest, |other|, true);
  }

  lemma SecondIsMasked(v: seq<byte>, other: seq<byte>, a: seq<byte>, b: seq<byte>, s: seq<byte>, c: byte)
    requires |a| < |v| < |other| && other == Repeated(c, |other|) && v[|a|] == 42 != c && (a != [] ==> a[|a| - 1] != c)
    requires s == a + other + b
    ensures Settled([v, other], s, a + MASK, b, true)
  {
    var rest := s[|a|..];
    assert rest == other + b && a + other <= s;
    FirstDoesNotBegin(v, other, a, s, |a|, c);
    BeforeTheMask(v, other, a, s, rest, c);
    MaskOfSecond(v, other, b, rest);
    SettledChain([v, other], s, a, rest, MASK, b, true);
  }

  /** Masking a second value in the place of the asterisks of the first puts a mask there. */
  lemma MaskInPlace(v: seq<byte>, other: seq<byte>, a: seq<byte>, b: seq<byte>, s: seq<byte>, c: byte)
    requires |a| < |v| < |other| && other == Repeated(c, |other|) && v[|a|] == 42 != c && (a != [] ==> a[|a| - 1] != c)
    requires |b| < |v| && s == a + other + b
    ensures Replace([v, other], s) == a + MASK + b
  {
    SecondIsMasked(v, other, a, b, s, c);
    SettledNow([v, other], s, a + MASK, b, true);
    LongerValuesLeaveIt(v, other, b);
  }

  /** The value never appears in what is masked, whatever else is masked and whatever the input is. */
  ghost predicate AlwaysHidden(v: seq<byte>) {
    forall values, s, at: nat :: v in values && at <= |Replace(values, s)| ==> !(v <= Replace(values, s)[at..])
  }

  lemma Reappears(v: seq<byte>, a: seq<byte>, b: seq<byte>, at: nat)
    requires |a| < |v| && |b| < |v| && v[|a|] == 42
    requires at <= |a + MASK + b| && v <= (a + MASK + b)[at..]
    ensures !AlwaysHidden(v)
  {
    var c: byte := if a != [] && a[|a| - 1] == 1 then 2 else 1;
    var other := Repeated(c, |v| + 1);
    var values, s := [v, other], a + other + b;
    MaskInPlace(v, other, a, b, s, c);
    assert values[0] == v;
    Shown(v, values, s, at);
  }

  lemma Shown(v: seq<byte>, values: seq<seq<byte>>, s: seq<byte>, at: nat)
    requires v in values && at <= |Replace(values, s)| && v <= Replace(values, s)[at..]
    ensures !AlwaysHidden(v)
  {
  }

  /** A value a part of a mask can help to make up reappears somewhere. */
  lemma NotAlwaysHidden(v: seq<byte>)
    requires v != [] && !KeepsOffMasks(v)
    ensures !AlwaysHidden(v)
  {
    var n, k := |v|, IndexOf(v, MASK);
    if v[0] == 42 {
      var b := v[1..];
      assert ([] + MASK + b)[2..] == v;
      Reappears(v, [], b, 2);
    } else if v[n - 1] == 42 {
      var a := v[..n - 1];
      var out := a + MASK + [];
      assert out[0..][..n] == v;
      Reappears(v, a, [], 0);
    } else {
      var a, b := v[..k], v[k + 3..];
      MaskInside(v, k, a, b);
      assert (a + MASK + b)[0..] == v;
      Reappears(v, a, b, 0);
    }
  }

  lemma MaskInside(v: seq<byte>, k: nat, a: seq<byte>, b: seq<byte>)
    requires k <= |v| && MASK <= v[k..] && a == v[..k] && b == v[k + 3..]
    ensures v == a + MASK + b && v[k] == 42
  {
    var tail := v[k..];
    assert tail[..3] == MASK;
    assert v == a + tail && tail == MASK + tail[3..] && tail[3..] == b;
    assert tail[0] == MASK[0];
  }

  /** A value is always hidden exactly when no part of a mask can help to make it up. */
  lemma HiddenExactly(v: seq<byte>)
    requires v != []
    ensures AlwaysHidden(v) <==> KeepsOffMasks(v)
  {
    if KeepsOffMasks(v) {
      forall values, s, at: nat | v in values && at <= |Replace(values, s)| ensures !(v <= Replace(values, s)[at..]) {
        ValueIsHidden(values, s, v, at);
      }
    } else {
      NotAlwaysHidden(v);
    }
  }

  /** A value that ends with an asterisk can reappear where the mask completes it. */
  lemma MaskCanCompleteAValue()
    ensures [97, 42] <= Replace([[97, 42]], [97, 97, 42])
  {
    var value: seq<byte> := [97, 42];
    var input: seq<byte> := [97, 97, 42];
    assert !(value <= input) by { assert value[1] != input[1]; }
    assert LongestAt([value][1..], input) == 0;
    assert LongestAt([value], input) == 0;
    assert input[1..] == value;
    assert LongestAt([value][1..], value) == 0;
    assert LongestAt([value], value) == 2;
    assert value[2..] == [];
    assert Replace([value], value) == MASK;
    assert Replace([value], input) == [97] + MASK;
  }

  // ----- searching

  /** The first place in `s` where `value` occurs; -1 when there is none. */
  function IndexOf(s: seq<byte>, value: seq<byte>): (r: int)
    ensures -1 <= r <= |s|
    ensures r >= 0 ==> value <= s[r..]
    ensures forall i :: 0 <= i <= |s| && (r < 0 || i < r) ==> !(value <= s[i..])
    decreases |s|
  {
    if value <= s then
      assert s[0..] == s;
      0
    else if s == [] then -1
    else
      var r := IndexOf(s[1..], value);
      assert s[0..] == s;
      assert forall i :: 0 < i <= |s| ==> s[i..] == s[1..][i - 1..];
      if r < 0 then -1 else r + 1
  }

  /** `value` does not begin at any byte from `lo` up to, not including, `hi`. */
  ghost predicate Absent(value: seq<byte>, s: seq<byte>, lo: int, hi: int)
    requires 0 <= lo && hi <= |s| + 1
  {
    forall i :: lo <= i < hi ==> !(value <= s[i..])
  }

  /** The search that starts at `start`. */
  lemma IndexFrom(s: seq<byte>, value: seq<byte>, start: nat)
    requires start <= |s|
    ensures var r := IndexOf(s[start..], value);
      if r < 0 then Absent(value, s, start, |s| + 1)
      else start + r <= |s| && value <= s[start + r..] && Absent(value, s, start, start + r)
  {
    var r := IndexOf(s[start..], value);
    forall i | start <= i <= |s| ensures s[start..][i - start..] == s[i..] {
    }
    if r >= 0 {
      assert s[start..][r..] == s[start + r..];
    }
  }

  /** `length` is the longest of the first `k` values that begins `s`. */
  ghost predicate LongestOf(values: seq<seq<byte>>, k: nat, s: seq<byte>, length: nat)
    requires k <= |values|
  {
    && (exists j :: 0 <= j < k && values[j] <= s && |values[j]| == length)
    && (forall j :: 0 <= j < k && values[j] <= s ==> |values[j]| <= length)
  }

  /** The first `k` values: none begins before `best`, and `length` is the longest there. */
  ghost predicate Earliest(values: seq<seq<byte>>, k: nat, buffer: seq<byte>, start: nat, best: int, length: nat)
    requires k <= |values| && start <= |buffer|
  {
    && (best < 0 || (start <= best <= |buffer| && LongestOf(values, k, buffer[best..], length)))
    && forall j :: 0 <= j < k ==> Absent(values[j], buffer, start, if best < 0 then |buffer| + 1 else best)
  }

  lemma LongestOfOneMore(values: seq<seq<byte>>, k: nat, s: seq<byte>, length: nat)
    requires k < |values| && LongestOf(values, k, s, length)
    ensures LongestOf(values, k + 1, s, if values[k] <= s && |values[k]| > length then |values[k]| else length)
  {
    var j :| 0 <= j < k && values[j] <= s && |values[j]| == length;
    assert values[j] <= s && values[k] == values[k];
  }

  lemma EarliestOneMore(values: seq<seq<byte>>, k: nat, buffer: seq<byte>, start: nat, best: int, length: nat, index: int)
    requires k < |values| && start <= |buffer| && Earliest(values, k, buffer, start, best, length)
    requires index < 0 ==> Absent(values[k], buffer, start, |buffer| + 1)
    requires index >= 0 ==> start <= index <= |buffer| && values[k] <= buffer[index..]
    requires index >= 0 ==> Absent(values[k], buffer, start, index)
    ensures
      var better := index >= 0 && (best < 0 || index < best || (index == best && |values[k]| > length));
      Earliest(values, k + 1, buffer, start, if better then index else best, if better then |values[k]| else length)
  {
    if index >= 0 && (best < 0 || index < best) {
      assert forall j :: 0 <= j < k ==> !(values[j] <= buffer[index..]);
      assert LongestOf(values, k + 1, buffer[index..], |values[k]|);
    } else if best >= 0 {
      LongestOfOneMore(values, k, buffer[best..], length);
    }
  }

  lemma EarliestWithSearch(values: seq<seq<byte>>, k: nat, buffer: seq<byte>, start: nat, best: int, length: nat, index: int)
    requires k < |values| && start <= |buffer| && Earliest(values, k, buffer, start, best, length)
    requires var r := IndexOf(buffer[start..], values[k]); index == if r < 0 then r else start + r
    ensures
      var better := index >= 0 && (best < 0 || index < best || (index == best && |values[k]| > length));
      Earliest(values, k + 1, buffer, start, if better then index else best, if better then |values[k]| else length)
  {
    IndexFrom(buffer, values[k], start);
    EarliestOneMore(values, k, buffer, start, best, length, index);
  }

  lemma EarliestOfAll(values: seq<seq<byte>>, buffer: seq<byte>, start: nat, best: int, length: nat)
    requires NonEmpty(values) && start <= |buffer| && Earliest(values, |values|, buffer, start, best, length)
    ensures forall i :: start <= i <= |buffer| && (best < 0 || i < best) ==> !BeginsAt(values, buffer, i)
    ensures best >= 0 ==> best < |buffer| && LongestAt(values, buffer[best..]) == length > 0
  {
    forall i | start <= i <= |buffer| && (best < 0 || i < best) ensures !BeginsAt(values, buffer, i) {
      forall j | 0 <= j < |values| ensures !(values[j] <= buffer[i..]) {
        assert Absent(values[j], buffer, start, if best < 0 then |buffer| + 1 else best);
      }
    }
    if best >= 0 {
      var j :| 0 <= j < |values| && values[j] <= buffer[best..] && |values[j]| == length;
      assert values[j] != [];
    }
  }

  /** The earliest occurrence at or after `start`, and the longest value that begins there. */
  method NextMatch(values: seq<seq<byte>>, buffer: seq<byte>, start: nat) returns (best: int, bestLength: nat)
    requires NonEmpty(values) && start <= |buffer|
    ensures best < 0 ==> forall i :: start <= i <= |buffer| ==> !BeginsAt(values, buffer, i)
    ensures best >= 0 ==> start <= best < |buffer| && LongestAt(values, buffer[best..]) == bestLength > 0
    ensures best >= 0 ==> forall i :: start <= i < best ==> !BeginsAt(values, buffer, i)
  {
    best, bestLength := -1, 0;
    for k := 0 to |values|
      invariant Earliest(values, k, buffer, start, best, bestLength)
    {
      var value := values[k];
      var index := IndexOf(buffer[start..], value);
      index := if index < 0 then index else start + index;
      EarliestWithSearch(values, k, buffer, start, best, bestLength, index);
      if index >= 0 && (best < 0 || index < best || (index == best && |value| > bestLength)) {
        best, bestLength := index, |value|;
      }
    }
    EarliestOfAll(values, buffer, start, best, bestLength);
  }

  /** Every value has its table. */
  ghost predicate Tables(values: seq<seq<byte>>, prefix: seq<seq<nat>>) {
    |prefix| == |values| && forall j :: 0 <= j < |values| ==> PrefixTable(values[j], prefix[j])
  }

  /** A window of all but the first byte of a value is long enough to see any proper prefix of it. */
  lemma WindowIsEnough(value: seq<byte>, buffer: seq<byte>, window: seq<byte>, k: nat)
    requires |window| <= |buffer| && window == buffer[|buffer| - |window|..] && k < |value|
    requires |window| == |buffer| || |window| == |value| - 1
    ensures Ends(value, window, k) <==> Ends(value, buffer, k)
  {
    if k <= |window| {
      assert window[|window| - k..] == buffer[|buffer| - k..];
    }
  }

  lemma EndsIsCouldBegin(value: seq<byte>, buffer: seq<byte>, i: nat)
    requires i <= |buffer| && buffer[i..] < value
    ensures Ends(value, buffer, |buffer| - i)
  {
    assert buffer[|buffer| - (|buffer| - i)..] == buffer[i..] == value[..|buffer| - i];
  }

  /** The length of the longest suffix that is a proper prefix of some value. */
  method Withheld(values: seq<seq<byte>>, prefix: seq<seq<nat>>, buffer: seq<byte>) returns (longest: nat)
    requires NonEmpty(values) && Tables(values, prefix)
    ensures longest <= |buffer|
    ensures longest > 0 ==> CouldBeginAt(values, buffer, |buffer| - longest)
    ensures forall i :: 0 <= i < |buffer| - longest ==> !CouldBeginAt(values, buffer, i)
  {
    longest := 0;
    for index := 0 to |values|
      invariant longest <= |buffer|
      invariant longest > 0 ==> exists j :: 0 <= j < index && Ends(values[j], buffer, longest) && longest < |values[j]|
      invariant forall j, k :: 0 <= j < index && longest < k < |values[j]| ==> !Ends(values[j], buffer, k)
    {
      var value := values[index];
      var window := buffer;
      var limit := |value| - 1;
      if |window| > limit {
        window := window[|window| - limit..];
      }
      var matched, _ := SuffixPrefixLength(value, prefix[index], window);
      forall k: nat | k < |value| ensures Ends(value, window, k) <==> Ends(value, buffer, k) {
        WindowIsEnough(value, buffer, window, k);
      }
      if matched > longest {
        longest := matched;
      }
    }
    if longest > 0 {
      var j :| 0 <= j < |values| && Ends(values[j], buffer, longest) && longest < |values[j]|;
      assert buffer[|buffer| - longest..] < values[j];
    }
    forall i, j | 0 <= i < |buffer| - longest && 0 <= j < |values| ensures !(buffer[i..] < values[j]) {
      if buffer[i..] < values[j] {
        EndsIsCouldBegin(values[j], buffer, i);
        assert false;
      }
    }
  }

  // ----- one release

  lemma InRest(values: seq<seq<byte>>, buffer: seq<byte>, start: nat, i: nat)
    requires start + i <= |buffer|
    ensures BeginsAt(values, buffer[start..], i) <==> BeginsAt(values, buffer, start + i)
    ensures CouldBeginAt(values, buffer[start..], i) <==> CouldBeginAt(values, buffer, start + i)
    ensures buffer[start..][i..] == buffer[start + i..]
  {
    assert buffer[start..][i..] == buffer[start + i..];
  }

  lemma SettledAs(values: seq<seq<byte>>, a: seq<byte>, out: seq<byte>, b: seq<byte>, sameOut: seq<byte>, sameB: seq<byte>,
                  final: bool)
    requires Settled(values, a, out, b, final) && out == sameOut && b == sameB
    ensures Settled(values, a, sameOut, sameB, final)
  {
  }

  lemma RestSlices(buffer: seq<byte>, start: nat, at: nat)
    requires start <= at <= |buffer|
    ensures buffer[start..][..at - start] == buffer[start..at] && buffer[start..][at - start..] == buffer[at..]
  {
  }

  lemma NothingInRest(values: seq<seq<byte>>, buffer: seq<byte>, start: nat, at: nat)
    requires start <= at <= |buffer|
    requires forall i :: start <= i < at ==> !BeginsAt(values, buffer, i)
    ensures forall i :: 0 <= i < at - start ==> !BeginsAt(values, buffer[start..], i)
  {
    forall i | 0 <= i < at - start ensures !BeginsAt(values, buffer[start..], i) {
      InRest(values, buffer, start, i);
    }
  }

  /** The bytes before the first match are settled as they are, the match as its mask. */
  lemma RestReleased(values: seq<seq<byte>>, rest: seq<byte>, at: nat, n: nat, final: bool)
    requires NonEmpty(values) && at <= |rest| && LongestAt(values, rest[at..]) == n > 0
    requires forall i :: 0 <= i < at ==> !BeginsAt(values, rest, i)
    requires !final ==> forall i :: 0 <= i <= at ==> !CouldBeginAt(values, rest, i)
    ensures Settled(values, rest, rest[..at] + MASK, rest[at..][n..], final)
  {
    PlainSettled(values, rest, at, final);
    assert !final ==> !CouldBeginAt(values, rest[at..], 0) by {
      assert rest[at..][0..] == rest[at..];
      assert !final ==> !CouldBeginAt(values, rest, at);
    }
    MatchSettled(values, rest[at..], n, final);
    SettledChain(values, rest, rest[..at], rest[at..], MASK, rest[at..][n..], final);
  }

  lemma MatchReleased(values: seq<seq<byte>>, buffer: seq<byte>, start: nat, index: nat, n: nat, w: nat, final: bool)
    requires NonEmpty(values) && start <= index < |buffer| && w <= |buffer| - start && (final || index < |buffer| - w)
    requires forall i :: start <= i < index ==> !BeginsAt(values, buffer, i)
    requires LongestAt(values, buffer[index..]) == n > 0
    requires !final ==> forall i :: 0 <= i < |buffer| - start - w ==> !CouldBeginAt(values, buffer[start..], i)
    ensures index + n <= |buffer|
    ensures Settled(values, buffer[start..], buffer[start..index] + MASK, buffer[index + n..], final)
  {
    var rest, at := buffer[start..], index - start;
    RestSlices(buffer, start, index);
    NothingInRest(values, buffer, start, index);
    RestReleased(values, rest, at, n, final);
    SettledAs(values, rest, rest[..at] + MASK, rest[at..][n..], buffer[start..index] + MASK, buffer[index + n..], final);
  }

  /** With no match left before `cut`, the bytes up to it are settled as they are. */
  lemma TailReleased(values: seq<seq<byte>>, buffer: seq<byte>, start: nat, cut: nat, final: bool)
    requires NonEmpty(values) && start <= cut <= |buffer|
    requires forall i :: start <= i < cut ==> !BeginsAt(values, buffer, i)
    requires !final ==> forall i :: 0 <= i < cut - start ==> !CouldBeginAt(values, buffer[start..], i)
    ensures Settled(values, buffer[start..], buffer[start..cut], buffer[cut..], final)
  {
    var rest, n := buffer[start..], cut - start;
    RestSlices(buffer, start, cut);
    NothingInRest(values, buffer, start, cut);
    PlainSettled(values, rest, n, final);
    SettledAs(values, rest, rest[..n], rest[n..], buffer[start..cut], buffer[cut..], final);
  }

  lemma MatchTaken(values: seq<seq<byte>>, buffer: seq<byte>, masked: seq<byte>, start: nat, index: nat, n: nat, w: nat,
                   longer: seq<byte>, rest: seq<byte>, next: seq<byte>, final: bool)
    requires NonEmpty(values) && start <= index < |buffer| && w <= |buffer| - start && (final || index < |buffer| - w)
    requires rest == buffer[start..] && n <= |buffer| - index && next == buffer[index + n..]
    requires forall i :: start <= i < index ==> !BeginsAt(values, buffer, i)
    requires LongestAt(values, buffer[index..]) == n > 0
    requires !final ==> forall i :: 0 <= i < |buffer| - start - w ==> !CouldBeginAt(values, rest, i)
    requires Settled(values, buffer, masked, rest, final)
    requires longer == masked + (buffer[start..index] + MASK)
    ensures Settled(values, buffer, longer, next, final)
  {
    MatchReleased(values, buffer, start, index, n, w, final);
    SettledChain(values, buffer, masked, rest, buffer[start..index] + MASK, next, final);
  }

  lemma HeldInBuffer(values: seq<seq<byte>>, buffer: seq<byte>, start: nat, held: nat)
    requires start + held <= |buffer|
    requires held > 0 ==> CouldBeginAt(values, buffer[start..], |buffer| - start - held)
    ensures held > 0 ==> CouldBeginAt(values, buffer, |buffer| - held)
  {
    InRest(values, buffer, start, |buffer| - start - held);
  }

  /** The bytes before the withheld suffix hold no match. */
  lemma CutIsClear(values: seq<seq<byte>>, buffer: seq<byte>, start: nat, clear: nat, cut: nat)
    requires start <= clear <= |buffer| && start <= cut <= |buffer|
    requires clear == |buffer| || CouldBeginAt(values, buffer, clear)
    requires cut < |buffer| ==> CouldBeginAt(values, buffer[start..], cut - start)
    requires forall i :: 0 <= i < cut - start ==> !CouldBeginAt(values, buffer[start..], i)
    ensures cut <= clear
    ensures cut < |buffer| ==> CouldBeginAt(values, buffer[cut..], 0)
  {
    InRest(values, buffer, start, cut - start);
    InRest(values, buffer, start, clear - start);
    assert buffer[cut..][0..] == buffer[cut..];
  }

  /** The masked bytes and the bytes up to the cut together. */
  lemma AllReleased(values: seq<seq<byte>>, buffer: seq<byte>, masked: seq<byte>, start: nat, cut: nat, final: bool)
    requires NonEmpty(values) && start <= cut <= |buffer|
    requires Settled(values, buffer, masked, buffer[start..], final)
    requires forall i :: start <= i < cut ==> !BeginsAt(values, buffer, i)
    requires !final ==> forall i :: 0 <= i < cut - start ==> !CouldBeginAt(values, buffer[start..], i)
    ensures Settled(values, buffer, masked + buffer[start..cut], buffer[cut..], final)
  {
    var rest, tail, plain := buffer[start..], buffer[cut..], buffer[start..cut];
    TailReleased(values, buffer, start, cut, final);
    SettledChain(values, buffer, masked, rest, plain, tail, final);
  }

  lemma ContinuedAppend(values: seq<seq<byte>>, a: seq<byte>, data: seq<byte>, t: seq<byte>)
    ensures Continued(values, a + data, t) == Continued(values, a, data + t)
  {
    assert a + data + t == a + (data + t);
  }

  /** More input goes behind what is pending. */
  lemma SettledAppend(values: seq<seq<byte>>, a: seq<byte>, out: seq<byte>, b: seq<byte>, data: seq<byte>)
    requires Settled(values, a, out, b, false)
    ensures Settled(values, a + data, out, b + data, false)
  {
    forall t: seq<byte> ensures Continued(values, a + data, t) == out + Continued(values, b + data, t) {
      ContinuedAppend(values, a, data, t);
      ContinuedAppend(values, b, data, t);
      assert Continued(values, a, data + t) == out + Continued(values, b, data + t);
    }
  }

  lemma SettledNow(values: seq<seq<byte>>, a: seq<byte>, out: seq<byte>, b: seq<byte>, final: bool)
    requires Settled(values, a, out, b, final)
    ensures Replace(values, a) == out + Replace(values, b)
  {
    assert Continued(values, a, []) == out + Continued(values, b, []);
    assert a + [] == a && b + [] == b;
  }

  lemma ContinuedWithoutValues(a: seq<byte>, t: seq<byte>)
    ensures Continued([], a, t) == a + t
  {
    NothingToMask(a + t);
  }

  /** Without values nothing is ever held back. */
  lemma SettledWithoutValues(a: seq<byte>)
    ensures Settled([], a, a, [], false)
  {
    forall t: seq<byte> ensures Continued([], a, t) == a + Continued([], [], t) {
      ContinuedWithoutValues(a, t);
      ContinuedWithoutValues([], t);
      assert [] + t == t;
    }
  }

  // ----- preparing the values

  ghost predicate LongestFirst(values: seq<seq<byte>>) {
    forall i, j :: 0 <= i < j < |values| ==> |values[i]| >= |values[j]|
  }

  ghost predicate Distinct(values: seq<seq<byte>>) {
    forall i, j :: 0 <= i < j < |values| ==> values[i] != values[j]
  }

  /** Drops empty and repeated values and puts longer ones first. */
  method PrepareSensitiveValues(values: seq<seq<byte>>) returns (output: seq<seq<byte>>)
    ensures NonEmpty(output) && Distinct(output) && LongestFirst(output)
    ensures forall v: seq<byte> :: v in output <==> v != [] && v in values
  {
    output := [];
    for k := 0 to |values|
      invariant NonEmpty(output) && Distinct(output) && LongestFirst(output)
      invariant forall v: seq<byte> :: v in output <==> v != [] && v in values[..k]
    {
      if values[k] != [] && values[k] !in output {
        ghost var before, at := output, 0;
        output, at := InsertByLength(output, values[k]);
        forall v: seq<byte> ensures v in output <==> v == values[k] || v in before {
          InsertedHas(before, values[k], at, v);
        }
      }
      assert values[..k + 1] == values[..k] + [values[k]];
    }
    assert values[..|values|] == values;
  }

  lemma InsertedHas(sorted: seq<seq<byte>>, value: seq<byte>, at: nat, v: seq<byte>)
    requires at <= |sorted|
    ensures v in Inserted(sorted, value, at) <==> v == value || v in sorted
  {
    assert sorted == sorted[..at] + sorted[at..];
  }

  lemma InsertedStaysPrepared(sorted: seq<seq<byte>>, value: seq<byte>, at: nat)
    requires NonEmpty(sorted) && Distinct(sorted) && LongestFirst(sorted) && value != [] && value !in sorted
    requires at <= |sorted|
    requires forall i :: 0 <= i < at ==> |sorted[i]| >= |value|
    requires forall i :: at <= i < |sorted| ==> |sorted[i]| < |value|
    ensures NonEmpty(Inserted(sorted, value, at)) && Distinct(Inserted(sorted, value, at))
    ensures LongestFirst(Inserted(sorted, value, at))
  {
    var output := Inserted(sorted, value, at);
    forall i | 0 <= i < |output| ensures output[i] != [] {
      InsertedAt(sorted, value, at, i);
    }
    forall i, j | 0 <= i < j < |output| ensures output[i] != output[j] && |output[i]| >= |output[j]| {
      InsertedAt(sorted, value, at, i);
      InsertedAt(sorted, value, at, j);
    }
  }

  /** After every value that is at least as long, so that equal lengths keep their order. */
  method InsertByLength(sorted: seq<seq<byte>>, value: seq<byte>) returns (output: seq<seq<byte>>, ghost at: nat)
    requires NonEmpty(sorted) && Distinct(sorted) && LongestFirst(sorted) && value != [] && value !in sorted
    ensures at <= |sorted| && output == Inserted(sorted, value, at)
    ensures forall i :: 0 <= i < at ==> |sorted[i]| >= |value|
    ensures forall i :: at <= i < |sorted| ==> |sorted[i]| < |value|
    ensures NonEmpty(output) && Distinct(output) && LongestFirst(output)
  {
    var place := |sorted|;
    while place > 0 && |sorted[place - 1]| < |value|
      invariant 0 <= place <= |sorted|
      invariant forall i :: place <= i < |sorted| ==> |sorted[i]| < |value|
    {
      place := place - 1;
    }
    at := place;
    output := sorted[..place] + [value] + sorted[place..];
    InsertedStaysPrepared(sorted, value, at);
  }

  lemma PrefixOfWhole(flushed: seq<byte>, before: seq<byte>, scratched: seq<byte>, tail: seq<byte>, written: seq<byte>, whole: seq<byte>)
    requires flushed <= before && written <= scratched && whole == before[|flushed|..] + scratched + tail
    ensures before + written <= flushed + whole
  {
    assert flushed + whole == before + scratched + tail;
    assert (before + scratched)[..|before| + |written|] == before + written;
  }

  lemma BeginsInWhole(v: seq<byte>, part: seq<byte>, whole: seq<byte>, at: nat)
    requires part <= whole && at <= |part|
    ensures v <= part[at..] ==> v <= whole[at..]
  {
    assert whole[..|part|] == part;
    assert part[at..] == whole[at..][..|part| - at];
  }

  /** What a write adds to the output, whole or in part, continues the masked input. */
  lemma WriteSettled(values: seq<seq<byte>>, flushed: seq<byte>, before: seq<byte>, input: seq<byte>, held: seq<byte>,
                     masked: seq<byte>, rest: seq<byte>, written: seq<byte>, after: seq<byte>)
    requires flushed <= before && Settled(values, input, before[|flushed|..], held, false)
    requires Settled(values, held, masked, rest, false) && written <= masked && after == before + written
    ensures after <= flushed + Replace(values, input) && flushed <= after && before <= after
    ensures written == masked ==> Settled(values, input, after[|flushed|..], rest, false)
  {
    var out := before[|flushed|..];
    BehindFlushed(flushed, before, written, after);
    SettledChain(values, input, out, held, masked, rest, false);
    assert after <= flushed + Replace(values, input) by {
      SettledNow(values, input, out + masked, rest, false);
      PrefixOfWhole(flushed, before, masked, Replace(values, rest), written, Replace(values, input));
    }
    if written == masked {
      SettledAs(values, input, out + masked, rest, after[|flushed|..], rest, false);
    }
  }

  lemma BehindFlushed(flushed: seq<byte>, before: seq<byte>, written: seq<byte>, after: seq<byte>)
    requires flushed <= before && after == before + written
    ensures flushed <= after && before <= after && after[|flushed|..] == before[|flushed|..] + written
  {
  }

  // ----- the stream

  /** How the underlying writer answers one write: it takes all bytes, or some and an error. */
  datatype SinkAnswer = Accepts | Fails(taken: nat)

  function Taken(data: seq<byte>, answer: SinkAnswer): seq<byte> {
    if answer.Fails? && answer.taken < |data| then data[..answer.taken] else data
  }

  /** Of what is written the first bytes are taken: all of them, or as many as the failing sink says. */
  lemma TakenExactly(data: seq<byte>, answer: SinkAnswer)
    ensures Taken(data, answer) <= data
    ensures |Taken(data, answer)| == if answer.Fails? && answer.taken < |data| then answer.taken else |data|
  {
  }

  /** What is written of one stream keeps hidden what its masking does. */
  lemma StretchIsHidden(values: seq<seq<byte>>, flushed: seq<byte>, input: seq<byte>, output: seq<byte>, v: seq<byte>, at: nat)
    requires output <= flushed + Replace(values, input) && |flushed| <= at <= |output|
    requires v in values && KeepsOffMasks(v)
    ensures !(v <= output[at..])
  {
    var whole := Replace(values, input);
    var stretch := output[|flushed|..];
    assert stretch == whole[..|stretch|];
    ValueIsHidden(values, input, v, at - |flushed|);
    BeginsInWhole(v, stretch, whole, at - |flushed|);
    assert stretch[at - |flushed|..] == output[at..];
  }

  lemma StretchesAreHidden(values: seq<seq<byte>>, flushed: seq<byte>, input: seq<byte>, output: seq<byte>)
    requires output <= flushed + Replace(values, input)
    ensures forall v, at :: v in values && KeepsOffMasks(v) && |flushed| <= at <= |output| ==> !(v <= output[at..])
  {
    forall v, at | v in values && KeepsOffMasks(v) && |flushed| <= at <= |output| ensures !(v <= output[at..]) {
      StretchIsHidden(values, flushed, input, output, v, at);
    }
  }

  class KnownValueStream {
    const values: seq<seq<byte>>
    const prefix: seq<seq<nat>>
    var output: seq<byte>
    var pending: seq<byte>
    var scratch: seq<byte>
    var failed: bool
    /** What the output was, and what has been written, since the last Flush. */
    ghost var flushed: seq<byte>
    ghost var input: seq<byte>

    ghost predicate Valid() reads this {
      && NonEmpty(values) && Tables(values, prefix)
      && (values == [] ==> pending == [])
      && output <= flushed + Replace(values, input)
      && (!failed ==> flushed <= output && Settled(values, input, output[|flushed|..], pending, false))
      && (!failed ==> pending == [] || CouldBeginAt(values, pending, 0))
    }

    constructor (sensitiveValues: seq<seq<byte>>)
      ensures Valid() && !failed && output == [] && flushed == [] && input == []
      ensures forall s :: Replace(values, s) == Replace(sensitiveValues, s)
    {
      var prepared := PrepareSensitiveValues(sensitiveValues);
      var tables: seq<seq<nat>> := [];
      for k := 0 to |prepared|
        invariant |tables| == k && forall j :: 0 <= j < k ==> PrefixTable(prepared[j], tables[j])
      {
        var table, _ := PrefixFunction(prepared[k]);
        tables := tables + [table[..]];
      }
      values, prefix := prepared, tables;
      output, pending, scratch, failed, flushed, input := [], [], [], false, [], [];
      forall s ensures Replace(prepared, s) == Replace(sensitiveValues, s) {
        SameValuesSameReplace(prepared, sensitiveValues, s);
      }
    }

    /** Masks every match from `position` on that no further byte can change. */
    method MaskMatches(buffer: seq<byte>, final: bool) returns (masked: seq<byte>, position: nat, ghost clear: nat)
      requires NonEmpty(values) && Tables(values, prefix)
      ensures position <= clear <= |buffer| && Settled(values, buffer, masked, buffer[position..], final)
      ensures forall i :: position <= i < clear ==> !BeginsAt(values, buffer, i)
      ensures if final then clear == |buffer| else clear == |buffer| || CouldBeginAt(values, buffer, clear)
    {
      masked, position := [], 0;
      ghost var rest := buffer;
      assert buffer[0..] == buffer;
      while true
        invariant position <= |buffer| && rest == buffer[position..]
        invariant Settled(values, buffer, masked, rest, final)
        decreases |buffer| - position
      {
        var index, length := NextMatch(values, buffer, position);
        if index < 0 {
          clear := |buffer|;
          break;
        }
        var held := 0;
        if !final {
          held := Withheld(values, prefix, buffer[position..]);
          if index >= |buffer| - held {
            clear := |buffer| - held;
            HeldInBuffer(values, buffer, position, held);
            break;
          }
        }
        var longer := masked + (buffer[position..index] + MASK);
        ghost var next := buffer[index + length..];
        MatchTaken(values, buffer, masked, position, index, length, held, longer, rest, next, final);
        masked, position, rest := longer, index + length, next;
      }
    }

    /** The masked bytes of all but the withheld ones. */
    method MaskUpTo(buffer: seq<byte>, final: bool) returns (masked: seq<byte>, cut: nat)
      requires NonEmpty(values) && Tables(values, prefix)
      ensures cut <= |buffer| && Settled(values, buffer, masked, buffer[cut..], final)
      ensures if final then cut == |buffer| else cut == |buffer| || CouldBeginAt(values, buffer[cut..], 0)
    {
      var position: nat;
      ghost var clear: nat;
      masked, position, clear := MaskMatches(buffer, final);
      cut := |buffer|;
      if !final {
        var held := Withheld(values, prefix, buffer[position..]);
        cut := cut - held;
        CutIsClear(values, buffer, position, clear, cut);
      }
      AllReleased(values, buffer, masked, position, cut, final);
      masked := masked + buffer[position..cut];
    }

    /** Masks every match that can no longer grow and writes all bytes but the withheld ones. */
    method Release(final: bool, answer: SinkAnswer) returns (ok: bool)
      requires NonEmpty(values) && Tables(values, prefix) && !failed
      modifies `output, `pending, `scratch, `failed
      ensures Settled(values, old(pending), scratch, pending, final)
      ensures if final then pending == [] else pending == [] || CouldBeginAt(values, pending, 0)
      ensures output == old(output) + Taken(scratch, if scratch == [] then Accepts else answer)
      ensures ok == (scratch == [] || answer.Accepts?) && failed == !ok
    {
      var buffer := pending;
      var cut: nat;
      scratch, cut := MaskUpTo(buffer, final);
      pending := buffer[cut..];
      ok := Emit(answer);
    }

    /** Writes what was released. */
    method Emit(answer: SinkAnswer) returns (ok: bool)
      requires !failed
      modifies `output, `failed
      ensures output == old(output) + Taken(scratch, if scratch == [] then Accepts else answer)
      ensures ok == (scratch == [] || answer.Accepts?) && failed == !ok
    {
      ok := true;
      if scratch != [] {
        output := output + Taken(scratch, answer);
        if answer.Fails? {
          failed, ok := true, false;
        }
      }
    }

    /** What a write adds to the output continues the masked input, whole or in part. */
    lemma OutputStaysPrefix(before: seq<byte>, a: seq<byte>, scratched: seq<byte>, b: seq<byte>, final: bool, written: seq<byte>)
      requires flushed <= before && written <= scratched
      requires Settled(values, a, before[|flushed|..] + scratched, b, final)
      ensures before + written <= flushed + Replace(values, a)
    {
      SettledNow(values, a, before[|flushed|..] + scratched, b, final);
      PrefixOfWhole(flushed, before, scratched, Replace(values, b), written, Replace(values, a));
    }

    /** With nothing to mask the bytes go straight to the output. */
    method Forward(data: seq<byte>, answer: SinkAnswer)
      requires Valid() && !failed && values == []
      modifies `output, `failed, `input
      ensures Valid() && failed == answer.Fails? && input == old(input) + data && old(output) <= output
    {
      SettledAppend(values, input, output[|flushed|..], pending, data);
      assert pending + data == data;
      input := input + data;
      SettledWithoutValues(data);
      ghost var before := output;
      output := output + Taken(data, answer);
      failed := answer.Fails?;
      WriteSettled(values, flushed, before, input, data, data, [], Taken(data, answer), output);
    }

    method Write(data: seq<byte>, answer: SinkAnswer) returns (n: nat, ok: bool)
      requires Valid()
      modifies this
      ensures Valid() && flushed == old(flushed) && ok == !failed && n == if ok then |data| else 0
      ensures old(failed) ==> failed && output == old(output) && input == old(input)
      ensures !old(failed) ==> input == old(input) + data && old(output) <= output
      ensures !old(failed) && answer.Accepts? ==> ok
    {
      if failed {
        return 0, false;
      }
      if values == [] {
        Forward(data, answer);
        return if failed then 0 else |data|, !failed;
      }
      SettledAppend(values, input, output[|flushed|..], pending, data);
      input := input + data;
      pending := pending + data;
      ghost var before, held := output, pending;
      ok := Release(false, answer);
      WriteSettled(values, flushed, before, input, held, scratch, pending, output[|before|..], output);
      n := if ok then |data| else 0;
    }

    /** At every moment, failed or not, such a value is not readable in what was written since the last Flush. */
    lemma NeverLeaks(v: seq<byte>, at: nat)
      requires Valid() && v in values && KeepsOffMasks(v) && |flushed| <= at <= |output|
      ensures !(v <= output[at..])
    {
      StretchIsHidden(values, flushed, input, output, v, at);
    }

    /** Ends a stream: what was withheld is written, and what follows starts afresh. */
    method Flush(answer: SinkAnswer) returns (ok: bool)
      requires Valid()
      modifies this
      ensures Valid() && ok == !failed && old(output) <= output
      ensures old(failed) ==> failed && output == old(output)
      ensures ok ==> output == old(flushed) + Replace(values, old(input)) && flushed == output && input == []
      ensures forall v, at :: v in values && KeepsOffMasks(v) && |old(flushed)| <= at <= |output| ==> !(v <= output[at..])
      ensures !old(failed) && answer.Accepts? ==> ok
    {
      if failed {
        StretchesAreHidden(values, flushed, input, output);
        return false;
      }
      ghost var out, held := output[|flushed|..], pending;
      ok := Release(true, answer);
      FinalChain(out, held);
      OutputStaysPrefix(old(output), input, scratch, pending, true, output[|old(output)|..]);
      SettledNow(values, input, out + scratch, pending, true);
      StretchesAreHidden(values, flushed, input, output);
      if ok {
        assert output == flushed + (out + scratch);
        flushed, input := output, [];
        assert output[|flushed|..] == [];
      }
    }

    lemma FinalChain(out: seq<byte>, held: seq<byte>)
      requires Settled(values, input, out, held, false) && Settled(values, held, scratch, pending, true)
      ensures Settled(values, input, out + scratch, pending, true)
    {
      assert Settled(values, input, out, held, true);
      SettledChain(values, input, out, held, scratch, pending, true);
    }
  }

  /** However the input is cut into writes, the flushed output masks the whole of it. */
  method MaskStream(sensitiveValues: seq<seq<byte>>, chunks: seq<seq<byte>>) returns (output: seq<byte>)
    ensures output == Replace(sensitiveValues, Concat(chunks))
  {
    var stream := new KnownValueStream(sensitiveValues);
    for i := 0 to |chunks|
      invariant stream.Valid() && fresh(stream) && !stream.failed
      invariant stream.flushed == [] && stream.input == Concat(chunks[..i])
    {
      assert chunks[..i + 1][..i] == chunks[..i];
      var _, _ := stream.Write(chunks[i], Accepts);
    }
    assert chunks[..|chunks|] == chunks;
    var _ := stream.Flush(Accepts);
    output := stream.output;
    assert Replace(stream.values, Concat(chunks)) == Replace(sensitiveValues, Concat(chunks));
  }
}
