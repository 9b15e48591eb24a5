/** The Knuth-Morris-Pratt failure table and the longest prefix that ends a text. */
module Kmp {

  import opened Bytes

  /** The first `k` bytes of `value` end `text`. */
  predicate Ends(value: seq<byte>, text: seq<byte>, k: int) {
    0 <= k <= |value| && k <= |text| && value[..k] == text[|text| - k..]
  }

  /** `k` is the length of the longest proper prefix of `value` that ends `text`. */
  ghost predicate LongestEnding(value: seq<byte>, text: seq<byte>, k: int) {
    Ends(value, text, k) && k < |value| && forall j :: k < j < |value| ==> !Ends(value, text, j)
  }

  /** `k` is the length of the longest prefix of `word`, shorter than it, that also ends it. */
  ghost predicate LongestBorder(word: seq<byte>, k: int) {
    LongestEnding(word, word, k)
  }

  /** Entry `i` is the longest proper border of the first `i + 1` bytes. */
  ghost predicate PrefixTable(value: seq<byte>, table: seq<nat>) {
    |table| == |value| && forall i :: 0 <= i < |value| ==> LongestBorder(value[..i + 1], table[i])
  }

  // ----- the facts the two loops use

  /** A shorter prefix ends the text exactly when it ends the longer one. */
  lemma EndsWithin(value: seq<byte>, text: seq<byte>, m: int, k: int)
    requires Ends(value, text, m) && 0 <= k <= m
    ensures Ends(value, text, k) <==> Ends(value[..m], value[..m], k)
  {
    assert value[..m][..k] == value[..k];
    assert value[..m][m - k..] == text[|text| - k..];
  }

  /** Falling back to the border of the match skips nothing that ends the text. */
  lemma FallBack(value: seq<byte>, text: seq<byte>, m: int, next: int)
    requires Ends(value, text, m) && m > 0 && LongestBorder(value[..m], next)
    ensures Ends(value, text, next) && next < m
    ensures forall k :: next < k < m ==> !Ends(value, text, k)
  {
    EndsWithin(value, text, m, next);
    forall k | next < k < m ensures !Ends(value, text, k) {
      EndsWithin(value, text, m, k);
    }
  }

  /** A prefix ends the longer text exactly when all but its last byte end the text
      and its last byte is the new one. */
  lemma EndsExtended(value: seq<byte>, text: seq<byte>, c: byte, k: int)
    requires 0 <= k < |value|
    ensures Ends(value, text + [c], k + 1) <==> Ends(value, text, k) && value[k] == c
  {
    var longer := text + [c];
    if k <= |text| {
      assert longer[|longer| - (k + 1)..] == text[|text| - k..] + [c];
      assert value[..k + 1] == value[..k] + [value[k]];
      if value[..k + 1] == text[|text| - k..] + [c] {
        assert value[..k + 1][k] == c;
        assert value[..k] == value[..k + 1][..k];
      }
    }
  }

  /** No prefix longer than `m` can be extended by `c`. */
  ghost predicate NoneAbove(value: seq<byte>, text: seq<byte>, c: byte, m: int) {
    forall k :: m < k < |value| && Ends(value, text, k) ==> value[k] != c
  }

  /** The match after one more byte, once no longer match can be extended. */
  lemma Advance(value: seq<byte>, text: seq<byte>, c: byte, m: int)
    requires 0 <= m < |value| && Ends(value, text, m) && NoneAbove(value, text, c, m)
    requires m == 0 || value[m] == c
    ensures value[m] == c ==> Ends(value, text + [c], m + 1)
    ensures forall k :: (if value[m] == c then m + 1 else 0) < k <= |value| ==> !Ends(value, text + [c], k)
  {
    forall k | (if value[m] == c then m + 1 else 0) < k <= |value| ensures !Ends(value, text + [c], k) {
      EndsExtended(value, text, c, k - 1);
    }
    EndsExtended(value, text, c, m);
  }

  lemma EndsTail(value: seq<byte>, index: int, word: seq<byte>, text: seq<byte>, j: int)
    requires 0 <= j < index <= |value| && word == value[..index] && text == value[1..index]
    ensures Ends(word, word, j) <==> Ends(value, text, j)
  {
    assert word[..j] == value[..j];
    assert word[index - j..] == text[|text| - j..];
  }

  /** The borders of a prefix are what ends it without its first byte. */
  lemma BorderIsEnding(value: seq<byte>, index: int, k: int)
    requires 1 <= index <= |value|
    ensures LongestBorder(value[..index], k) <==>
      LongestEnding(value, value[1..index], k) || (index == |value| == 1 && k == 0)
  {
    var word, text := value[..index], value[1..index];
    forall j | 0 <= j < index ensures Ends(word, word, j) <==> Ends(value, text, j) {
      EndsTail(value, index, word, text, j);
    }
  }

  /** The step of both loops: the longest match that the byte `c` can extend, or none. */
  lemma Extended(value: seq<byte>, text: seq<byte>, c: byte, m: int)
    requires 0 <= m < |value| && Ends(value, text, m) && NoneAbove(value, text, c, m)
    requires m == 0 || value[m] == c
    ensures var next := if value[m] == c then m + 1 else 0;
      Ends(value, text + [c], next) && (next < |value| ==> LongestEnding(value, text + [c], next))
  {
    Advance(value, text, c, m);
  }

  /** A whole occurrence at the end falls back to its own border. */
  lemma WholeMatch(value: seq<byte>, text: seq<byte>, next: int)
    requires value != [] && Ends(value, text, |value|) && LongestBorder(value, next)
    ensures LongestEnding(value, text, next)
  {
    assert value[..|value|] == value;
    FallBack(value, text, |value|, next);
  }

  /** The inner loop of both functions: fall back along the borders until the byte `c` fits. */
  method Retreat(value: seq<byte>, table: seq<nat>, ghost text: seq<byte>, c: byte, start: nat)
    returns (matched: nat, ghost steps: nat)
    requires start < |value| && start <= |table| && LongestEnding(value, text, start)
    requires forall i :: 0 <= i < start ==> LongestBorder(value[..i + 1], table[i])
    ensures matched <= start && steps + matched <= start
    ensures Ends(value, text, matched) && NoneAbove(value, text, c, matched)
    ensures matched == 0 || value[matched] == c
  {
    matched, steps := start, 0;
    while matched > 0 && value[matched] != c
      invariant matched <= start && steps + matched <= start
      invariant Ends(value, text, matched) && NoneAbove(value, text, c, matched)
      decreases matched
    {
      assert LongestBorder(value[..matched - 1 + 1], table[matched - 1]);
      FallBack(value, text, matched, table[matched - 1]);
      matched := table[matched - 1];
      steps := steps + 1;
    }
  }

  /** The table after its first `index` entries have been filled. */
  ghost predicate Filled(value: seq<byte>, table: seq<nat>) {
    |table| <= |value| && forall i :: 0 <= i < |table| ==> LongestBorder(value[..i + 1], table[i])
  }

  lemma FilledOneMore(value: seq<byte>, table: seq<nat>, text: seq<byte>, matched: nat)
    requires Filled(value, table) && 0 < |table| < |value| && text == value[1..|table| + 1]
    requires LongestEnding(value, text, matched) || (Ends(value, text, matched) && matched == |value|)
    ensures Filled(value, table + [matched])
  {
    BorderIsEnding(value, |table| + 1, matched);
  }

  /** One more entry of the table, from the longest match that the next byte can extend. */
  lemma NextEntry(value: seq<byte>, filled: seq<nat>, text: seq<byte>, m: nat)
    requires Filled(value, filled) && 0 < |filled| < |value| && text == value[1..|filled|] && m < |filled|
    requires Ends(value, text, m) && NoneAbove(value, text, value[|filled|], m) && (m == 0 || value[m] == value[|filled|])
    ensures var next := if value[|filled|] == value[m] then m + 1 else 0;
      && Filled(value, filled + [next])
      && (|filled| + 1 < |value| ==> LongestEnding(value, value[1..|filled| + 1], next))
  {
    var c := value[|filled|];
    var longer, next := value[1..|filled| + 1], if c == value[m] then m + 1 else 0;
    assert longer == text + [c];
    Extended(value, text, c, m);
    FilledOneMore(value, filled, longer, next);
  }

  /** The entry behind the ones that are filled. */
  method NextBorder(value: seq<byte>, filled: seq<nat>, start: nat) returns (matched: nat, ghost taken: nat)
    requires Filled(value, filled) && start < |filled| < |value| && LongestEnding(value, value[1..|filled|], start)
    ensures matched <= |filled| && taken + matched <= start + 1
    ensures Filled(value, filled + [matched])
    ensures |filled| + 1 < |value| ==> LongestEnding(value, value[1..|filled| + 1], matched)
  {
    ghost var text := value[1..|filled|];
    matched, taken := Retreat(value, filled, text, value[|filled|], start);
    NextEntry(value, filled, text, matched);
    if value[|filled|] == value[matched] {
      matched := matched + 1;
    } else {
      assert matched == 0;
    }
  }

  method PrefixFunction(value: seq<byte>) returns (table: array<nat>, ghost steps: nat)
    ensures fresh(table) && PrefixTable(value, table[..])
    ensures steps <= |value|
  {
    table := new nat[|value|](_ => 0);
    steps := 0;
    if |value| == 0 { return; }
    var matched: nat := 0;
    var index := 1;
    assert table[..1] == [0];
    assert LongestBorder(value[..1], 0);
    assert |value| > 1 ==> LongestEnding(value, value[1..1], 0);
    while index < |value|
      invariant 1 <= index <= |value| && matched < index && steps + matched < index
      invariant Filled(value, table[..index])
      invariant index < |value| ==> LongestEnding(value, value[1..index], matched)
    {
      ghost var filled := table[..index];
      ghost var taken: nat;
      matched, taken := NextBorder(value, table[..index], matched);
      steps := steps + taken;
      table[index] := matched;
      index := index + 1;
      assert table[..index] == filled + [matched];
    }
    assert table[..] == table[..|value|];
  }

  /** After one more byte; a whole occurrence falls back to its border. */
  lemma OneMoreByte(value: seq<byte>, table: seq<nat>, seen: seq<byte>, c: byte, m: nat, longer: seq<byte>)
    requires PrefixTable(value, table) && m < |value| && longer == seen + [c]
    requires Ends(value, seen, m) && NoneAbove(value, seen, c, m) && (m == 0 || value[m] == c)
    ensures var next := if value[m] == c then m + 1 else 0;
      LongestEnding(value, longer, if next == |value| then table[next - 1] else next)
  {
    Extended(value, seen, c, m);
    if value[m] == c && m + 1 == |value| {
      assert value[..m + 1] == value && LongestBorder(value[..m + 1], table[m]);
      WholeMatch(value, longer, table[m]);
    }
  }

  /** The longest proper prefix of `value` that ends `text`. */
  method SuffixPrefixLength(value: seq<byte>, table: seq<nat>, text: seq<byte>) returns (matched: nat, ghost steps: nat)
    requires value != [] && PrefixTable(value, table)
    ensures LongestEnding(value, text, matched)
    ensures steps <= 2 * |text|
  {
    matched, steps := 0, 0;
    for i := 0 to |text|
      invariant LongestEnding(value, text[..i], matched)
      invariant steps + matched <= 2 * i
    {
      var current := text[i];
      ghost var seen, longer := text[..i], text[..i + 1];
      assert longer == seen + [current];
      ghost var taken: nat;
      matched, taken := Retreat(value, table, seen, current, matched);
      OneMoreByte(value, table, seen, current, matched, longer);
      if value[matched] == current {
        matched := matched + 1;
      }
      steps := steps + taken;
      if matched == |value| {
        matched := table[matched - 1];
        steps := steps + 1;
      }
    }
    assert text[..|text|] == text;
  }
}
